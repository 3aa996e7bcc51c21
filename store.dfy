/** The storage backend: one database shared by every module view, a `Storage`
    view per module, and the reference cursor. Each method is proved against the
    table functions of module Tables. */
module SqlStore {
  import opened Errors
  import opened Hex
  import opened Refs
  import opened Tables

  /** The database file with its two tables. */
  class Db {
    var refs: RefTable
    var shallow: ShallowTable

    /** A database file whose schema has just been created: both tables empty. */
    constructor ()
      ensures refs == map[] && shallow == {}
    {
      refs := map[];
      shallow := {};
    }
  }

  /** A cursor over `reference` rows: the records it has yet to produce, in order. */
  class ReferenceIter {
    var rows: seq<Record>

    constructor (rows: seq<Record>)
      ensures this.rows == rows
    {
      this.rows := rows;
    }

    /** Advance the cursor: io.EOF when it is exhausted, else the next row decoded. */
    method Next() returns (r: Result<Reference>)
      modifies this
      ensures old(rows) == [] ==> r == Err(EOF) && rows == []
      ensures old(rows) != [] ==>
        r == DecodeRow(old(rows)[0].name, old(rows)[0].row) && rows == old(rows)[1..]
    {
      if rows == [] {
        return Err(EOF);
      }
      var rec := rows[0];
      rows := rows[1..];
      r := DecodeRow(rec.name, rec.row);
    }

    /** Drain the cursor through `cb`, one call per record in cursor order, stopping
        at the first error the callback returns. A record Next cannot decode reaches
        the callback as nil. `calls` is the sequence of arguments the callback got. */
    method ForEach(cb: Option<Reference> -> Outcome) returns (err: Outcome, ghost calls: seq<Option<Reference>>)
      modifies this
      ensures FirstFailure(old(rows), cb).None? ==>
        err == Pass && rows == [] && |calls| == |old(rows)|
      ensures FirstFailure(old(rows), cb).Some? ==>
        var k := FirstFailure(old(rows), cb).value;
        err == cb(CallbackArg(old(rows)[k])) && rows == old(rows)[k + 1..] && |calls| == k + 1
      ensures |calls| <= |old(rows)|
      ensures forall i :: 0 <= i < |calls| ==> calls[i] == CallbackArg(old(rows)[i])
    {
      ghost var recs := rows;
      calls := [];
      while true
        invariant |calls| <= |recs| && rows == recs[|calls|..]
        invariant forall i :: 0 <= i < |calls| ==> calls[i] == CallbackArg(recs[i])
        invariant forall i :: 0 <= i < |calls| ==> cb(calls[i]).Pass?
        decreases |rows|
      {
        var r := Next();
        if r == Err(EOF) {
          assert |calls| == |recs|;
          return Pass, calls;
        }
        var arg := if r.Ok? then Some(r.value) else None;
        assert arg == CallbackArg(recs[|calls|]);
        calls := calls + [arg];
        err := cb(arg);
        if err.Fail? {
          FirstFailureAt(recs, cb, |calls| - 1);
          return err, calls;
        }
      }
    }
  }

  class Storage {
    const moduleName: string
    const db: Db

    /** NewModuleStorage: a view of `db` scoped to `moduleName`. */
    constructor (db: Db, moduleName: string)
      ensures this.db == db && this.moduleName == moduleName
    {
      this.db := db;
      this.moduleName := moduleName;
    }

    /** Module: a view of the same database for another module. Nothing is written:
        the schema is not created again. */
    method Module(name: string) returns (s: Storage)
      ensures fresh(s) && s.db == db && s.moduleName == name
    {
      s := new Storage(db, name);
    }

    method SetReference(ref: Reference)
      modifies db
      ensures db.refs == SetRef(old(db.refs), moduleName, ref)
      ensures db.shallow == old(db.shallow)
    {
      db.refs := db.refs[(moduleName, ref.name) := EncodeRow(ref)];
    }

    /** Reference: the query yields at most one row (the key is unique); the cursor's
        io.EOF becomes ReferenceNotFound. */
    method Reference(name: string) returns (r: Result<Reference>)
      ensures r == Lookup(db.refs, moduleName, name)
    {
      var recs := if (moduleName, name) in db.refs then [Record(name, db.refs[(moduleName, name)])] else [];
      var it := new ReferenceIter(recs);
      r := it.Next();
      if r == Err(EOF) {
        r := Err(ReferenceNotFound);
      }
    }

    /** The read and the write are two separate statements, run one after the other. */
    method CheckAndSetReference(new_: Reference, old_: Option<Reference>) returns (err: Outcome)
      modifies db
      ensures err == CasGuard(old(db.refs), moduleName, old_)
      ensures db.refs == if err.Pass? then SetRef(old(db.refs), moduleName, new_) else old(db.refs)
      ensures db.shallow == old(db.shallow)
    {
      if old_.Some? {
        var ref := Reference(old_.value.name);
        if ref.Err? {
          return Fail(ref.error);
        }
        if ref.value.hash != old_.value.hash {
          return Fail(ConcurrentModification);
        }
      }
      SetReference(new_);
      return Pass;
    }

    method RemoveReference(name: string)
      modifies db
      ensures db.refs == RemoveRef(old(db.refs), moduleName, name)
      ensures db.shallow == old(db.shallow)
    {
      db.refs := db.refs - {(moduleName, name)};
    }

    method CountLooseRefs() returns (n: nat)
      ensures n == CountRefs(db.refs, moduleName)
    {
      n := |ModuleKeys(db.refs, moduleName)|;
    }

    /** IterReferences: a fresh cursor over the module's rows, each listed once, in
        an order the model leaves open. */
    method IterReferences() returns (it: ReferenceIter)
      ensures fresh(it)
      ensures |it.rows| == CountRefs(db.refs, moduleName)
      ensures forall i :: 0 <= i < |it.rows| ==> Lookup(db.refs, moduleName, it.rows[i].name) == DecodeRow(it.rows[i].name, it.rows[i].row)
      ensures forall i :: 0 <= i < |it.rows| ==> (moduleName, it.rows[i].name) in db.refs && db.refs[(moduleName, it.rows[i].name)] == it.rows[i].row
      ensures forall k :: k in db.refs && k.0 == moduleName ==> exists i :: 0 <= i < |it.rows| && it.rows[i].name == k.1
      ensures forall i, j :: 0 <= i < j < |it.rows| ==> it.rows[i].name != it.rows[j].name
    {
      var keys := ModuleKeys(db.refs, moduleName);
      var recs: seq<Record> := [];
      while keys != {}
        invariant keys <= ModuleKeys(db.refs, moduleName)
        invariant |recs| + |keys| == CountRefs(db.refs, moduleName)
        invariant forall i :: 0 <= i < |recs| ==> (moduleName, recs[i].name) in db.refs && db.refs[(moduleName, recs[i].name)] == recs[i].row
        invariant forall i :: 0 <= i < |recs| ==> (moduleName, recs[i].name) !in keys
        invariant forall k :: k in db.refs && k.0 == moduleName && k !in keys ==> exists i :: 0 <= i < |recs| && recs[i].name == k.1
        invariant forall i, j :: 0 <= i < j < |recs| ==> recs[i].name != recs[j].name
        decreases |keys|
      {
        var k :| k in keys;
        ghost var before := recs;
        recs := recs + [Record(k.1, db.refs[k])];
        keys := keys - {k};
        forall k2 | k2 in db.refs && k2.0 == moduleName && k2 !in keys
          ensures exists i :: 0 <= i < |recs| && recs[i].name == k2.1
        {
          if k2 == k {
            assert recs[|before|].name == k2.1;
          } else {
            var i :| 0 <= i < |before| && before[i].name == k2.1;
            assert recs[i].name == k2.1;
          }
        }
      }
      it := new ReferenceIter(recs);
    }

    /** SetShallow as one transaction. `failAt` names the statement the database
        fails, if any: 0 BEGIN, 1 the DELETE, 2 the PREPARE, 3 + i the INSERT of
        commits[i]. The transaction writes to its own copy of the table; the copy
        replaces the table only at COMMIT, and a failed statement discards it (the
        deferred rollback). */
    method SetShallow(commits: seq<Hash>, failAt: Option<nat>) returns (err: Outcome)
      modifies db
      ensures err == if failAt.Some? && failAt.value < 3 + |commits| then Fail(IoError) else Pass
      ensures db.shallow == if err.Pass? then ReplaceShallow(old(db.shallow), moduleName, commits) else old(db.shallow)
      ensures db.refs == old(db.refs)
    {
      if failAt == Some(0) {
        return Fail(IoError);
      }
      var tx := db.shallow;
      if failAt == Some(1) {
        return Fail(IoError);
      }
      tx := set r | r in tx && r.0 != moduleName;
      if failAt == Some(2) {
        return Fail(IoError);
      }
      ghost var kept := tx;
      var i := 0;
      while i < |commits|
        invariant 0 <= i <= |commits|
        invariant failAt.Some? ==> failAt.value >= 3 + i
        invariant tx == kept + set c | c in commits[..i] :: (moduleName, Hash2Str(c))
      {
        if failAt == Some(3 + i) {
          return Fail(IoError);
        }
        assert commits[..i + 1] == commits[..i] + [commits[i]];
        tx := tx + {(moduleName, Hash2Str(commits[i]))};
        i := i + 1;
      }
      assert commits[..i] == commits;
      db.shallow := tx;
      return Pass;
    }

    /** Shallow: decode every row of the module, in cursor order; the first row that
        does not decode ends the scan with its error. On success `order` is the
        cursor order and the result is its rows decoded. */
    method Shallow() returns (r: Result<seq<Hash>>, ghost order: seq<string>)
      ensures r.Ok? <==> forall x :: x in ModuleShallow(db.shallow, moduleName) ==> Str2Hash(x).Ok?
      ensures r.Err? ==> exists x :: x in ModuleShallow(db.shallow, moduleName) && Str2Hash(x) == Err(r.error)
      ensures r.Ok? ==> Enumerates(order, ModuleShallow(db.shallow, moduleName))
      ensures r.Ok? ==> |r.value| == |order| && forall i :: 0 <= i < |order| ==> Str2Hash(order[i]) == Ok(r.value[i])
    {
      var rows := ModuleShallow(db.shallow, moduleName);
      var result: seq<Hash> := [];
      order := [];
      while rows != {}
        invariant rows <= ModuleShallow(db.shallow, moduleName)
        invariant forall x :: x in ModuleShallow(db.shallow, moduleName) ==> (x in rows <==> x !in order)
        invariant forall x :: x in order ==> x in ModuleShallow(db.shallow, moduleName)
        invariant forall i, j :: 0 <= i < j < |order| ==> order[i] != order[j]
        invariant |result| == |order| && forall i :: 0 <= i < |order| ==> Str2Hash(order[i]) == Ok(result[i])
        decreases |rows|
      {
        var x :| x in rows;
        var h := Str2Hash(x);
        if h.Err? {
          return Err(h.error), order;
        }
        result := result + [h.value];
        order := order + [x];
        rows := rows - {x};
      }
      return Ok(result), order;
    }
  }

  /** NewStorage: the root view (moduleName "") of an opened database file. Creating
      the tables if absent leaves existing rows alone. */
  method NewStorage(db: Db) returns (s: Storage)
    ensures fresh(s) && s.db == db && s.moduleName == ""
  {
    s := new Storage(db, "");
  }
}
