/** The two persisted tables as values, and every statement the store runs against
    them as a function of the old table. Every row carries its module, and every
    statement filters on it. */
module Tables {
  import opened Errors
  import opened Hex
  import opened Refs

  /** Primary key of the `reference` table: (module, name). */
  type Key = (string, string)

  type RefTable = map<Key, Row>

  /** The `shallow` table: its primary key (module, hash) is the whole row. */
  type ShallowTable = set<(string, string)>

  /** `xs` lists every element of `s` exactly once. */
  ghost predicate Enumerates<T(!new)>(xs: seq<T>, s: set<T>) {
    && (forall x :: x in xs <==> x in s)
    && (forall i, j :: 0 <= i < j < |xs| ==> xs[i] != xs[j])
  }

  // ---------------------------------------------------------------------------
  // The `reference` table

  /** INSERT OR REPLACE of the reference's row under (m, ref.name). */
  function SetRef(t: RefTable, m: string, ref: Reference): (t': RefTable)
    ensures (m, ref.name) in t' && t'[(m, ref.name)] == EncodeRow(ref)
    ensures forall k :: k != (m, ref.name) ==> (k in t' <==> k in t)
    ensures forall k :: k != (m, ref.name) && k in t ==> t'[k] == t[k]
  {
    t[(m, ref.name) := EncodeRow(ref)]
  }

  /** SELECT of the row (m, name), decoded; no row is ReferenceNotFound. */
  function Lookup(t: RefTable, m: string, name: string): (r: Result<Reference>)
    ensures r == Err(ReferenceNotFound) <==> (m, name) !in t
    ensures r.Ok? ==> r.value.name == name
  {
    if (m, name) in t then DecodeRow(name, t[(m, name)]) else Err(ReferenceNotFound)
  }

  /** DELETE of the row (m, name), whether or not it exists. */
  function RemoveRef(t: RefTable, m: string, name: string): (t': RefTable)
    ensures (m, name) !in t'
    ensures forall k :: k != (m, name) ==> (k in t' <==> k in t)
    ensures forall k :: k != (m, name) && k in t ==> t'[k] == t[k]
  {
    t - {(m, name)}
  }

  function ModuleKeys(t: RefTable, m: string): set<Key> {
    set k | k in t && k.0 == m
  }

  /** SELECT COUNT(name) of the rows of module m. */
  function CountRefs(t: RefTable, m: string): (n: nat)
    ensures n == 0 <==> forall k :: k in t ==> k.0 != m
  {
    ModuleKeysEmpty(t, m);
    |ModuleKeys(t, m)|
  }

  lemma ModuleKeysEmpty(t: RefTable, m: string)
    ensures ModuleKeys(t, m) == {} <==> forall k :: k in t ==> k.0 != m
  {
    if exists k :: k in t && k.0 == m {
      var k :| k in t && k.0 == m;
      assert k in ModuleKeys(t, m);
    }
  }

  /** The check CheckAndSetReference makes before it writes: with an expected
      reference, the stored one of that name must exist and carry the same hash. */
  function CasGuard(t: RefTable, m: string, expected: Option<Reference>): (r: Outcome)
    ensures expected.None? ==> r == Pass
    ensures expected.Some? && (m, expected.value.name) !in t ==> r == Fail(ReferenceNotFound)
    ensures r.Pass? ==> expected.None? || (m, expected.value.name) in t
    ensures expected.Some? ==>
      (r.Pass? <==> Lookup(t, m, expected.value.name).Ok? &&
                    Lookup(t, m, expected.value.name).value.hash == expected.value.hash)
    ensures expected.Some? && Lookup(t, m, expected.value.name).Ok? &&
            Lookup(t, m, expected.value.name).value.hash != expected.value.hash ==>
      r == Fail(ConcurrentModification)
    ensures expected.Some? && Lookup(t, m, expected.value.name).Err? ==>
      r == Fail(Lookup(t, m, expected.value.name).error)
  {
    if expected.None? then Pass
    else match Lookup(t, m, expected.value.name)
      case Err(e) => Fail(e)
      case Ok(current) =>
        if current.hash != expected.value.hash then Fail(ConcurrentModification) else Pass
  }

  /** Set then lookup: the name now reads back as the reference that was written
      (its hash for a hash reference, its target for a symbolic one); a reference of
      another type was stored with the tag "invalid" and reads back as an error. */
  lemma SetThenLookup(t: RefTable, m: string, ref: Reference)
    ensures ref.typ == HashReference ==>
      Lookup(SetRef(t, m, ref), m, ref.name) == Ok(NewHashReference(ref.name, ref.hash))
    ensures ref.typ == SymbolicReference ==>
      Lookup(SetRef(t, m, ref), m, ref.name) == Ok(NewSymbolicReference(ref.name, ref.target))
    ensures ref.typ == InvalidReference ==>
      Lookup(SetRef(t, m, ref), m, ref.name) == Err(InvalidType)
  {
    RowRoundTrip(ref);
  }

  /** A write or delete of one (module, name) row changes what no other key reads,
      in particular nothing any other module reads. */
  lemma WritesAreLocal(t: RefTable, m: string, ref: Reference, name: string, m2: string, n2: string)
    ensures (m2, n2) != (m, ref.name) ==> Lookup(SetRef(t, m, ref), m2, n2) == Lookup(t, m2, n2)
    ensures (m2, n2) != (m, name) ==> Lookup(RemoveRef(t, m, name), m2, n2) == Lookup(t, m2, n2)
  {
  }

  lemma RemoveThenLookup(t: RefTable, m: string, name: string)
    ensures Lookup(RemoveRef(t, m, name), m, name) == Err(ReferenceNotFound)
    ensures RemoveRef(RemoveRef(t, m, name), m, name) == RemoveRef(t, m, name)
  {
  }

  lemma CountAfterSet(t: RefTable, m: string, ref: Reference)
    ensures CountRefs(SetRef(t, m, ref), m) == CountRefs(t, m) + (if (m, ref.name) in t then 0 else 1)
  {
    var t' := SetRef(t, m, ref);
    assert ModuleKeys(t', m) == ModuleKeys(t, m) + {(m, ref.name)};
  }

  lemma CountAfterRemove(t: RefTable, m: string, name: string)
    ensures CountRefs(RemoveRef(t, m, name), m) == CountRefs(t, m) - (if (m, name) in t then 1 else 0)
  {
    var t' := RemoveRef(t, m, name);
    assert ModuleKeys(t', m) == ModuleKeys(t, m) - {(m, name)};
  }

  lemma CountIsModuleLocal(t: RefTable, m: string, ref: Reference, name: string, m2: string)
    requires m2 != m
    ensures CountRefs(SetRef(t, m, ref), m2) == CountRefs(t, m2)
    ensures CountRefs(RemoveRef(t, m, name), m2) == CountRefs(t, m2)
  {
    assert ModuleKeys(SetRef(t, m, ref), m2) == ModuleKeys(t, m2);
    assert ModuleKeys(RemoveRef(t, m, name), m2) == ModuleKeys(t, m2);
  }

  /** Compare-and-set against a stored reference of the same name: it passes
      exactly when the expected hash is the hash the stored reference reads back
      with (the zero hash for a symbolic reference). */
  lemma CasAgainstStored(t: RefTable, m: string, stored: Reference, expected: Reference)
    requires expected.name == stored.name
    ensures stored.typ == HashReference ==>
      CasGuard(SetRef(t, m, stored), m, Some(expected)) ==
        (if expected.hash == stored.hash then Pass else Fail(ConcurrentModification))
    ensures stored.typ == SymbolicReference ==>
      CasGuard(SetRef(t, m, stored), m, Some(expected)) ==
        (if expected.hash == ZeroHash then Pass else Fail(ConcurrentModification))
    ensures stored.typ == InvalidReference ==>
      CasGuard(SetRef(t, m, stored), m, Some(expected)) == Fail(InvalidType)
  {
    SetThenLookup(t, m, stored);
  }

  // ---------------------------------------------------------------------------
  // The `shallow` table

  /** SELECT hash of the rows of module m. */
  function ModuleShallow(s: ShallowTable, m: string): set<string> {
    set r | r in s && r.0 == m :: r.1
  }

  /** The hex text of every commit in `cs`; repeated commits give one string. */
  function ShallowText(cs: seq<Hash>): set<string> {
    set c | c in cs :: Hash2Str(c)
  }

  /** The committed effect of SetShallow: DELETE the module's rows, then INSERT OR
      REPLACE one row per commit. */
  function ReplaceShallow(s: ShallowTable, m: string, cs: seq<Hash>): (s': ShallowTable)
    ensures ModuleShallow(s', m) == ShallowText(cs)
    ensures forall m2 :: m2 != m ==> ModuleShallow(s', m2) == ModuleShallow(s, m2)
  {
    var kept := set r | r in s && r.0 != m;
    var added := set c | c in cs :: (m, Hash2Str(c));
    assert ModuleShallow(kept + added, m) == ShallowText(cs) by {
      forall x | x in ShallowText(cs) ensures x in ModuleShallow(kept + added, m) {
        var c :| c in cs && x == Hash2Str(c);
        assert (m, Hash2Str(c)) in added;
      }
    }
    forall m2 | m2 != m ensures ModuleShallow(kept + added, m2) == ModuleShallow(s, m2) {
      forall x | x in ModuleShallow(s, m2) ensures x in ModuleShallow(kept + added, m2) {
        assert (m2, x) in kept;
      }
    }
    kept + added
  }

  /** Each replacement discards the previous one of the same module. */
  lemma ReplaceLastWins(s: ShallowTable, m: string, a: seq<Hash>, b: seq<Hash>)
    ensures ReplaceShallow(ReplaceShallow(s, m, a), m, b) == ReplaceShallow(s, m, b)
  {
    var s1 := ReplaceShallow(s, m, a);
    var l, r := ReplaceShallow(s1, m, b), ReplaceShallow(s, m, b);
    forall x | x in l ensures x in r {
      if x.0 != m {
        assert x.1 in ModuleShallow(l, x.0);
        assert x.1 in ModuleShallow(s, x.0);
      } else {
        assert x.1 in ModuleShallow(r, m);
      }
    }
    forall x | x in r ensures x in l {
      if x.0 != m {
        assert x.1 in ModuleShallow(r, x.0);
        assert x.1 in ModuleShallow(s1, x.0);
      } else {
        assert x.1 in ModuleShallow(l, m);
      }
    }
  }

  /** Every stored text decodes, and decodes to one of the commits it came from. */
  lemma ShallowTextDecodes(cs: seq<Hash>, x: string)
    requires x in ShallowText(cs)
    ensures Str2Hash(x).Ok? && Str2Hash(x).value in cs && Hash2Str(Str2Hash(x).value) == x
  {
    var c :| c in cs && x == Hash2Str(c);
    StrHashRoundTrip(c);
  }

  /** Reading back a replacement: decoding the module's rows, in whatever order the
      cursor lists them, gives each commit of `cs` exactly once. */
  lemma ShallowReadBack(cs: seq<Hash>, order: seq<string>, hs: seq<Hash>)
    requires Enumerates(order, ShallowText(cs))
    requires |hs| == |order| && forall i :: 0 <= i < |order| ==> Str2Hash(order[i]) == Ok(hs[i])
    ensures forall h :: h in hs <==> h in cs
    ensures forall i, j :: 0 <= i < j < |hs| ==> hs[i] != hs[j]
  {
    forall i | 0 <= i < |order| ensures hs[i] in cs && Hash2Str(hs[i]) == order[i] {
      ShallowTextDecodes(cs, order[i]);
    }
    forall c | c in cs ensures c in hs {
      assert Hash2Str(c) in order;
      var i :| 0 <= i < |order| && order[i] == Hash2Str(c);
      StrHashRoundTrip(c);
    }
  }
}
