/** Callers of the store, as the clone client drives it: what they can conclude
    from the methods' contracts alone. */
module Scenarios {
  import opened Errors
  import opened Hex
  import opened Refs
  import opened Tables
  import opened SqlStore

  /** A store with no rows: after one SetReference the name reads back as a hash
      reference to the written hash, and the module counts exactly one row. */
  method SetGetCount(db: Db, name: string, h: Hash) returns (got: Result<Reference>, n: nat)
    requires db.refs == map[]
    modifies db
    ensures got == Ok(NewHashReference(name, h)) && n == 1
  {
    var root := NewStorage(db);
    var ref := NewHashReference(name, h);
    root.SetReference(ref);
    got := root.Reference(name);
    SetThenLookup(map[], "", ref);
    n := root.CountLooseRefs();
    CountAfterSet(map[], "", ref);
  }

  /** Two views from Module share one database: a write through module "A" is
      seen by a later view of "A" and leaves everything "B" reads as it was. */
  method ModuleIsolation(root: Storage, ref: Reference) returns (inA: Result<Reference>, inB: Result<Reference>, countB: nat)
    requires ref.typ == HashReference
    modifies root.db
    ensures inA == Ok(NewHashReference(ref.name, ref.hash))
    ensures inB == Lookup(old(root.db.refs), "B", ref.name)
    ensures countB == CountRefs(old(root.db.refs), "B")
  {
    var a := root.Module("A");
    var b := root.Module("B");
    ghost var before := root.db.refs;
    a.SetReference(ref);
    var again := root.Module("A");
    inA := again.Reference(ref.name);
    SetThenLookup(before, "A", ref);
    inB := b.Reference(ref.name);
    WritesAreLocal(before, "A", ref, ref.name, "B", ref.name);
    countB := b.CountLooseRefs();
    CountIsModuleLocal(before, "A", ref, ref.name, "B");
  }

  /** Compare-and-set with a stale hash is refused and writes nothing. */
  method StaleCompareAndSet(s: Storage, stored: Reference, new_: Reference, stale: Hash) returns (err: Outcome)
    requires stored.typ == HashReference && stale != stored.hash
    modifies s.db
    ensures err == Fail(ConcurrentModification)
    ensures Lookup(s.db.refs, s.moduleName, stored.name) == Ok(NewHashReference(stored.name, stored.hash))
  {
    s.SetReference(stored);
    SetThenLookup(old(s.db.refs), s.moduleName, stored);
    CasAgainstStored(old(s.db.refs), s.moduleName, stored, NewHashReference(stored.name, stale));
    err := s.CheckAndSetReference(new_, Some(NewHashReference(stored.name, stale)));
  }

  /** Removing a reference twice: both calls succeed and the name is absent. */
  method RemoveTwice(s: Storage, name: string) returns (r: Result<Reference>)
    modifies s.db
    ensures r == Err(ReferenceNotFound)
    ensures s.db.refs == RemoveRef(old(s.db.refs), s.moduleName, name)
  {
    s.RemoveReference(name);
    s.RemoveReference(name);
    RemoveThenLookup(old(s.db.refs), s.moduleName, name);
    r := s.Reference(name);
  }

  /** SetShallow then Shallow: the module's boundary reads back as each commit of
      `cs` exactly once, whatever the cursor order and however often a commit was
      repeated. */
  method ShallowRoundTrip(s: Storage, cs: seq<Hash>) returns (r: Result<seq<Hash>>)
    modifies s.db
    ensures r.Ok?
    ensures forall h :: h in r.value <==> h in cs
    ensures forall i, j :: 0 <= i < j < |r.value| ==> r.value[i] != r.value[j]
  {
    var err := s.SetShallow(cs, None);
    forall x | x in ModuleShallow(s.db.shallow, s.moduleName) ensures Str2Hash(x).Ok? {
      ShallowTextDecodes(cs, x);
    }
    ghost var order;
    r, order := s.Shallow();
    ShallowReadBack(cs, order, r.value);
  }

  /** A boundary replaced twice keeps only the second set of commits. */
  method ShallowReplaced(s: Storage, first: seq<Hash>, second: seq<Hash>)
    modifies s.db
    ensures ModuleShallow(s.db.shallow, s.moduleName) == ShallowText(second)
    ensures s.db.shallow == ReplaceShallow(old(s.db.shallow), s.moduleName, second)
  {
    var e1 := s.SetShallow(first, None);
    var e2 := s.SetShallow(second, None);
    ReplaceLastWins(old(s.db.shallow), s.moduleName, first, second);
  }

  /** A SetShallow of five commits whose third INSERT fails leaves the table as it
      was: the rows deleted and inserted before the failure are rolled back. */
  method FailedShallowRollsBack(s: Storage, cs: seq<Hash>) returns (err: Outcome)
    requires |cs| == 5
    modifies s.db
    ensures err == Fail(IoError)
    ensures s.db.shallow == old(s.db.shallow) && s.db.refs == old(s.db.refs)
  {
    err := s.SetShallow(cs, Some(3 + 2));
  }

  /** Draining a module's references with a callback that never fails visits every
      row of the module once and ends without error; for an empty module that is
      no call at all. */
  method VisitAll(s: Storage, cb: Option<Reference> -> Outcome) returns (err: Outcome, ghost calls: seq<Option<Reference>>)
    requires forall r :: cb(r).Pass?
    ensures err == Pass && |calls| == CountRefs(s.db.refs, s.moduleName)
  {
    var it := s.IterReferences();
    err, calls := it.ForEach(cb);
  }
}
