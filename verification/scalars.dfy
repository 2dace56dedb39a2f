/** The one-byte codecs: the char types (`pack_byte` / `unpack_byte`) and bool. */
module Scalars {
  import opened Wire
  import opened IntCodec
  import opened Codec

  // The char types: one byte each, plain char signed as on x86 Linux.
  const Char := IntType("char", 1, true)
  const SignedChar := IntType("signed char", 1, true)
  const UnsignedChar := IntType("unsigned char", 1, false)

  /** A one-byte type. */
  predicate CharType(t: IntType) {
    ValidType(t) && t.width == 1
  }

  /** `pack_byte`: the value's eight bits, written as they are. */
  function EncodeByte(t: IntType, c: int): (bs: Bytes)
    requires CharType(t) && InRange(t, c)
    ensures |bs| == 1
    ensures bs[0] == c || bs[0] == c + 256
  {
    [c % 256]
  }

  /** `unpack_byte` and the throw of its wrapper: the next byte, read as a
      value of `t`, or an error at the end of the stream. */
  function DecodeByte(t: IntType, s: Bytes): (r: Result<(int, Bytes)>)
    requires CharType(t)
    ensures r.Ok? <==> 1 <= |s|
    ensures r.Ok? ==> InRange(t, r.value.0) && r.value.0 % 256 == s[0] && r.value.1 == s[1..]
    ensures r.Err? ==> r.msg == ReadError(t)
  {
    if |s| == 0 then Err(ReadError(t)) else Ok((Wrap(t, s[0]), s[1..]))
  }

  lemma ByteRoundTrip(t: IntType, c: int, rest: Bytes)
    requires CharType(t) && InRange(t, c)
    ensures DecodeByte(t, EncodeByte(t, c) + rest) == Ok((c, rest))
  {
    var s := EncodeByte(t, c) + rest;
    assert s[1..] == rest;
    assert Wrap(t, c % 256) == c;
  }

  const One: byte := '1' as int
  const Zero: byte := '0' as int

  /** A bool is the single character '1' or '0'. */
  function EncodeBool(b: bool): (bs: Bytes)
    ensures |bs| == 1 && (bs[0] == One || bs[0] == Zero)
    ensures bs[0] == One <==> b
  {
    if b then [One] else [Zero]
  }

  function BoolReadError(): string {
    "Error deserializing object of type bool"
  }

  /** '1' reads as true and '0' as false; any other byte, or the end of the
      stream, is an error. */
  function DecodeBool(s: Bytes): (r: Result<(bool, Bytes)>)
    ensures r.Ok? <==> 1 <= |s| && (s[0] == One || s[0] == Zero)
    ensures r.Ok? ==> r.value.0 == (s[0] == One) && r.value.1 == s[1..]
    ensures r.Err? ==> r.msg == BoolReadError()
  {
    if |s| == 0 then Err(BoolReadError())
    else if s[0] == One then Ok((true, s[1..]))
    else if s[0] == Zero then Ok((false, s[1..]))
    else Err(BoolReadError())
  }

  lemma BoolRoundTrip(b: bool, rest: Bytes)
    ensures DecodeBool(EncodeBool(b) + rest) == Ok((b, rest))
  {
    assert (EncodeBool(b) + rest)[1..] == rest;
  }

  /** A one-byte integer as an element of a container (`std::vector<signed
      char>`, a map key of type `char`, ...). */
  function ByteElement(t: IntType): Codec<int, int>
    requires CharType(t)
  {
    Codec(c requires InRange(t, c) => Ok(EncodeByte(t, c)), s => DecodeByte(t, s), c => InRange(t, c), c => c)
  }

  lemma ByteElementSound(t: IntType)
    requires CharType(t)
    ensures Sound(ByteElement(t))
  {
    var c := ByteElement(t);
    forall v, rest | c.valid(v) ensures DecodesBack(c, v, rest) {
      ByteRoundTrip(t, v, rest);
    }
  }

  function BoolElement(): Codec<bool, bool> {
    Codec(b => Ok(EncodeBool(b)), DecodeBool, b => true, b => b)
  }

  lemma BoolElementSound()
    ensures Sound(BoolElement())
  {
    var c := BoolElement();
    forall b, rest | c.valid(b) ensures DecodesBack(c, b, rest) {
      BoolRoundTrip(b, rest);
    }
  }
}
