/** The hash codec: an object identifier (20 bytes) to and from its hexadecimal text.
    `EncodeToString` and `DecodeInto` follow the rules of Go's encoding/hex package,
    which `hash2str` and `str2hash` call. */
module Hex {
  import opened Errors

  type byte = b: int | 0 <= b < 256
  type nibble = n: int | 0 <= n < 16

  /** Width of an object identifier in bytes. */
  const HashSize: nat := 20

  function Zeros(n: nat): (z: seq<byte>)
    ensures |z| == n && forall i :: 0 <= i < n ==> z[i] == 0
  {
    seq(n, _ => 0)
  }

  type Hash = h: seq<byte> | |h| == HashSize witness Zeros(HashSize)

  /** The all-zero identifier (plumbing.ZeroHash). */
  const ZeroHash: Hash := Zeros(HashSize)

  /** The characters the encoder writes. */
  predicate IsLowerHex(c: char) {
    '0' <= c <= '9' || 'a' <= c <= 'f'
  }

  /** The characters the decoder accepts: both cases of the hex letters. */
  predicate IsHexChar(c: char) {
    '0' <= c <= '9' || 'a' <= c <= 'f' || 'A' <= c <= 'F'
  }

  function FromHexChar(c: char): (r: Option<nibble>)
    ensures r.Some? <==> IsHexChar(c)
  {
    if '0' <= c <= '9' then Some(c as int - '0' as int)
    else if 'a' <= c <= 'f' then Some(c as int - 'a' as int + 10)
    else if 'A' <= c <= 'F' then Some(c as int - 'A' as int + 10)
    else None
  }

  /** The lower-case digit the encoder writes for a nibble. */
  function Digit(v: nibble): (c: char)
    ensures IsLowerHex(c)
  {
    if v < 10 then ('0' as int + v) as char else ('a' as int + v - 10) as char
  }

  lemma DigitRoundTrip(v: nibble)
    ensures FromHexChar(Digit(v)) == Some(v)
  {
  }

  lemma CharRoundTrip(c: char)
    requires IsLowerHex(c)
    ensures FromHexChar(c).Some? && Digit(FromHexChar(c).value) == c
  {
  }

  /** hex.EncodeToString: two lower-case digits per byte, high nibble first. */
  function EncodeToString(bs: seq<byte>): (s: string)
    ensures |s| == 2 * |bs|
    ensures forall i :: 0 <= i < |s| ==> IsLowerHex(s[i])
  {
    if bs == [] then ""
    else [Digit(bs[0] / 16), Digit(bs[0] % 16)] + EncodeToString(bs[1..])
  }

  /** The errors decoding can report. */
  predicate IsDecodeError(e: Error) {
    e.InvalidByte? || e == ErrLength || e == IndexOutOfRange
  }

  /** hex.Decode into a destination with room for `room` more bytes: the decoded
      bytes, or the first error met scanning left to right. A pair beyond the
      destination is the runtime panic of an out-of-range index. */
  function DecodeInto(src: string, room: nat): (r: Result<seq<byte>>)
    ensures r.Ok? <==>
      |src| % 2 == 0 && |src| <= 2 * room && forall i :: 0 <= i < |src| ==> IsHexChar(src[i])
    ensures r.Ok? ==> 2 * |r.value| == |src|
    ensures r.Err? ==> IsDecodeError(r.error)
    decreases |src|
  {
    if |src| == 0 then Ok([])
    else if |src| == 1 then
      if !IsHexChar(src[0]) then Err(InvalidByte(src[0])) else Err(ErrLength)
    else if !IsHexChar(src[0]) then Err(InvalidByte(src[0]))
    else if !IsHexChar(src[1]) then Err(InvalidByte(src[1]))
    else if room == 0 then Err(IndexOutOfRange)
    else
      match DecodeInto(src[2..], room - 1)
      case Err(e) => Err(e)
      case Ok(rest) => Ok([FromHexChar(src[0]).value * 16 + FromHexChar(src[1]).value] + rest)
  }

  /** hash2str: the 40-character lower-case hex form of an identifier. */
  function Hash2Str(h: Hash): (s: string)
    ensures |s| == 2 * HashSize
    ensures forall i :: 0 <= i < |s| ==> IsLowerHex(s[i])
  {
    EncodeToString(h)
  }

  /** str2hash: decode into a zero-initialised identifier. A shorter even-length
      input leaves the trailing bytes zero; any decoding error is returned. */
  function Str2Hash(s: string): (r: Result<Hash>)
    ensures r.Ok? <==>
      |s| % 2 == 0 && |s| <= 2 * HashSize && forall i :: 0 <= i < |s| ==> IsHexChar(s[i])
    ensures r.Ok? ==> forall i :: |s| / 2 <= i < HashSize ==> r.value[i] == 0
    ensures r.Err? ==> IsDecodeError(r.error)
  {
    match DecodeInto(s, HashSize)
    case Err(e) => Err(e)
    case Ok(bs) => Ok(bs + Zeros(HashSize - |bs|))
  }

  lemma SplitByte(b: byte)
    ensures b / 16 * 16 + b % 16 == b
  {
  }

  lemma JoinNibbles(a: nibble, b: nibble)
    ensures (a * 16 + b) / 16 == a && (a * 16 + b) % 16 == b
  {
  }

  /** One step of the decoder: a valid pair in front of a decodable rest. */
  lemma DecodeStep(src: string, room: nat)
    requires |src| >= 2 && room > 0 && IsHexChar(src[0]) && IsHexChar(src[1])
    requires DecodeInto(src[2..], room - 1).Ok?
    ensures DecodeInto(src, room) ==
      Ok([FromHexChar(src[0]).value * 16 + FromHexChar(src[1]).value] + DecodeInto(src[2..], room - 1).value)
  {
  }

  lemma {:induction false} DecodeEncode(bs: seq<byte>, room: nat)
    requires |bs| <= room
    ensures DecodeInto(EncodeToString(bs), room) == Ok(bs)
  {
    if bs != [] {
      var s := EncodeToString(bs);
      var hi: nibble, lo: nibble := bs[0] / 16, bs[0] % 16;
      assert s[0] == Digit(hi) && s[1] == Digit(lo) && s[2..] == EncodeToString(bs[1..]);
      DigitRoundTrip(hi);
      DigitRoundTrip(lo);
      DecodeEncode(bs[1..], room - 1);
      DecodeStep(s, room);
      SplitByte(bs[0]);
      assert FromHexChar(s[0]).value * 16 + FromHexChar(s[1]).value == bs[0];
      assert DecodeInto(s[2..], room - 1).value == bs[1..];
      assert [bs[0]] + bs[1..] == bs;
      assert DecodeInto(s, room) == Ok(bs);
    }
  }

  lemma {:induction false} EncodeDecode(src: string, room: nat)
    requires |src| % 2 == 0 && |src| <= 2 * room
    requires forall i :: 0 <= i < |src| ==> IsLowerHex(src[i])
    ensures DecodeInto(src, room).Ok? && EncodeToString(DecodeInto(src, room).value) == src
  {
    if |src| > 0 {
      CharRoundTrip(src[0]);
      CharRoundTrip(src[1]);
      var a, b := FromHexChar(src[0]).value, FromHexChar(src[1]).value;
      EncodeDecode(src[2..], room - 1);
      var rest := DecodeInto(src[2..], room - 1).value;
      DecodeStep(src, room);
      var bs: seq<byte> := [a as int * 16 + b] + rest;
      JoinNibbles(a, b);
      assert bs[1..] == rest;
      assert EncodeToString(bs) == [Digit(a), Digit(b)] + EncodeToString(rest);
      assert src == [src[0], src[1]] + src[2..];
    }
  }

  /** Round trip required of the codec: decoding the text of an identifier gives it back. */
  lemma StrHashRoundTrip(h: Hash)
    ensures Str2Hash(Hash2Str(h)) == Ok(h)
  {
    DecodeEncode(h, HashSize);
    assert h + Zeros(0) == h;
  }

  /** The converse: 40 lower-case digits are the text of exactly the identifier they decode to. */
  lemma HashStrRoundTrip(s: string)
    requires |s| == 2 * HashSize && forall i :: 0 <= i < |s| ==> IsLowerHex(s[i])
    ensures Str2Hash(s).Ok? && Hash2Str(Str2Hash(s).value) == s
  {
    EncodeDecode(s, HashSize);
    var bs := DecodeInto(s, HashSize).value;
    assert bs + Zeros(0) == bs;
  }

  lemma Hash2StrInjective(h1: Hash, h2: Hash)
    ensures Hash2Str(h1) == Hash2Str(h2) ==> h1 == h2
  {
    StrHashRoundTrip(h1);
    StrHashRoundTrip(h2);
  }
}
