/** References as go-git represents them, the row a reference is stored as in the
    `reference` table, and what the reference cursor makes of such rows. */
module Refs {
  import opened Errors
  import opened Hex

  datatype RefType = InvalidReference | HashReference | SymbolicReference

  /** plumbing.Reference: a hash reference carries `hash` and an empty target; a
      symbolic reference carries `target` and the zero hash. */
  datatype Reference = Reference(typ: RefType, name: string, hash: Hash, target: string)

  function NewHashReference(name: string, h: Hash): Reference {
    Reference(HashReference, name, h, "")
  }

  function NewSymbolicReference(name: string, target: string): Reference {
    Reference(SymbolicReference, name, ZeroHash, target)
  }

  /** The non-key columns of a `reference` row: type, hash, target. */
  datatype Row = Row(typ: string, hash: string, target: string)

  /** A row as the cursor produces it: the name column followed by the others. */
  datatype Record = Record(name: string, row: Row)

  /** The row SetReference writes: the type tag, hash2str of the hash (the zero
      hash for a symbolic reference) and the target (empty for a hash reference). */
  function EncodeRow(ref: Reference): (row: Row)
    ensures row.typ == "hash" <==> ref.typ == HashReference
    ensures row.typ == "symbol" <==> ref.typ == SymbolicReference
    ensures row.typ == "invalid" <==> ref.typ == InvalidReference
    ensures |row.hash| == 2 * HashSize && row.target == ref.target
  {
    var typ := match ref.typ
      case HashReference => "hash"
      case SymbolicReference => "symbol"
      case InvalidReference => "invalid";
    Row(typ, Hash2Str(ref.hash), ref.target)
  }

  /** ReferenceIter.Next on one scanned row. */
  function DecodeRow(name: string, row: Row): (r: Result<Reference>)
    ensures r.Ok? ==> r.value.name == name && r.value.typ != InvalidReference
    ensures r.Ok? && r.value.typ == HashReference <==> row.typ == "hash" && Str2Hash(row.hash).Ok?
    ensures r.Ok? && r.value.typ == SymbolicReference <==> row.typ == "symbol"
    ensures r == Err(InvalidType) <==> row.typ != "hash" && row.typ != "symbol"
    ensures r.Err? ==> r.error == InvalidType || IsDecodeError(r.error)
    ensures row.typ == "symbol" ==> r == Ok(NewSymbolicReference(name, row.target))
    ensures row.typ == "hash" && Str2Hash(row.hash).Ok? ==>
      r == Ok(NewHashReference(name, Str2Hash(row.hash).value))
    ensures row.typ == "hash" && Str2Hash(row.hash).Err? ==> r == Err(Str2Hash(row.hash).error)
  {
    if row.typ == "hash" then
      match Str2Hash(row.hash)
      case Err(e) => Err(e)
      case Ok(h) => Ok(NewHashReference(name, h))
    else if row.typ == "symbol" then
      Ok(NewSymbolicReference(name, row.target))
    else
      Err(InvalidType)
  }

  /** Reading back the row of a reference: a hash reference keeps its hash, a
      symbolic one its target, and a reference of any other type is refused. */
  lemma RowRoundTrip(ref: Reference)
    ensures ref.typ == HashReference ==>
      DecodeRow(ref.name, EncodeRow(ref)) == Ok(NewHashReference(ref.name, ref.hash))
    ensures ref.typ == SymbolicReference ==>
      DecodeRow(ref.name, EncodeRow(ref)) == Ok(NewSymbolicReference(ref.name, ref.target))
    ensures ref.typ == InvalidReference ==>
      DecodeRow(ref.name, EncodeRow(ref)) == Err(InvalidType)
  {
    StrHashRoundTrip(ref.hash);
  }

  /** What ForEach hands its callback for a record: the decoded reference, or nil
      when Next reported an error other than io.EOF. */
  function CallbackArg(rec: Record): Option<Reference> {
    match DecodeRow(rec.name, rec.row)
    case Ok(ref) => Some(ref)
    case Err(_) => None
  }

  /** The index of the first record whose callback fails, if any. */
  function FirstFailure(recs: seq<Record>, cb: Option<Reference> -> Outcome): (r: Option<nat>)
    ensures r.None? <==> forall i :: 0 <= i < |recs| ==> cb(CallbackArg(recs[i])).Pass?
    ensures r.Some? ==>
      && r.value < |recs|
      && cb(CallbackArg(recs[r.value])).Fail?
      && forall i :: 0 <= i < r.value ==> cb(CallbackArg(recs[i])).Pass?
  {
    if recs == [] then None
    else if cb(CallbackArg(recs[0])).Fail? then Some(0)
    else match FirstFailure(recs[1..], cb)
      case None => None
      case Some(k) => Some(k + 1)
  }

  /** The first failure is the one index where the callback fails after passing everywhere before. */
  lemma {:induction false} FirstFailureAt(recs: seq<Record>, cb: Option<Reference> -> Outcome, k: nat)
    requires k < |recs| && cb(CallbackArg(recs[k])).Fail?
    requires forall i :: 0 <= i < k ==> cb(CallbackArg(recs[i])).Pass?
    ensures FirstFailure(recs, cb) == Some(k)
  {
    if k > 0 {
      assert cb(CallbackArg(recs[0])).Pass?;
      var rest := recs[1..];
      assert forall i :: 0 <= i < k - 1 ==> rest[i] == recs[i + 1];
      FirstFailureAt(rest, cb, k - 1);
    }
  }
}
