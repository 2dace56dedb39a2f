/** The length-prefixed byte and code-unit buffers: `std::vector<char>` and
    `std::vector<unsigned char>` (bulk read), `std::vector<bool>` (stored as
    the characters '1' and '0'), `std::string`, `std::wstring` and `ustring`.
    Every one writes its size as an `unsigned long`, then its contents. */
module Buffers {
  import opened Wire
  import opened IntCodec
  import opened Codec
  import opened Scalars
  import opened Containers

  /** `s` cut or padded with zero bytes to length `n`, as `resize` does. */
  function Resize(s: Bytes, n: nat): (r: Bytes)
    ensures |r| == n
    ensures forall i | 0 <= i < n :: r[i] == (if i < |s| then s[i] else 0)
  {
    if n <= |s| then s[..n] else s + seq(n - |s|, _ => 0)
  }

  function Min(a: nat, b: nat): nat {
    if a <= b then a else b
  }

  // -------------------------------------------------------------------------
  // std::vector<char> and std::vector<unsigned char>

  /** The size, then the bytes as they are. */
  function EncodeRawBytes(bs: Bytes): (r: Bytes)
    requires Countable(bs)
    ensures DecodeInt(ULong, r) == Ok((|bs|, bs))
  {
    LengthRoundTrip(|bs|, bs);
    LengthPrefix(|bs|) + bs
  }

  /** Reads into a vector whose contents were `prior`: the vector is resized
      to the size read and as many bytes as the stream still holds are
      copied over its front. Only a failed size read is an error; a stream
      that ends early leaves the tail of the resized vector in place and
      is not reported. */
  function DecodeRawBytes(prior: Bytes, s: Bytes): (r: Result<(Bytes, Bytes)>)
    ensures r.Ok? <==> DecodeInt(ULong, s).Ok?
    ensures r.Err? ==> r.msg == ReadError(ULong) + "\n   while " + VectorContext
    ensures r.Ok? ==>
              var (n, t) := DecodeInt(ULong, s).value;
              && |r.value.0| == n
              && (forall i | 0 <= i < n :: r.value.0[i] == (if i < |t| then t[i] else if i < |prior| then prior[i] else 0))
              && r.value.1 == t[Min(n, |t|)..]
  {
    match DecodeInt(ULong, s)
    case Err(m) => Err(m + "\n   while " + VectorContext)
    case Ok((n, t)) =>
      var k := Min(n, |t|);
      Ok((t[..k] + Resize(prior, n)[k..], t[k..]))
  }

  lemma RawBytesRoundTrip(bs: Bytes, prior: Bytes, rest: Bytes)
    requires Countable(bs)
    ensures DecodeRawBytes(prior, EncodeRawBytes(bs) + rest) == Ok((bs, rest))
  {
    LengthRoundTrip(|bs|, bs + rest);
    assert EncodeRawBytes(bs) + rest == LengthPrefix(|bs|) + (bs + rest);
    assert (bs + rest)[..|bs|] == bs;
    assert (bs + rest)[|bs|..] == rest;
    assert Resize(prior, |bs|)[|bs|..] == [];
    assert bs + [] == bs;
  }

  /** An empty vector is written as its size alone, and reading that size
      gives back an empty vector whatever the target held. */
  lemma EmptyRawBytes(prior: Bytes, rest: Bytes)
    ensures EncodeRawBytes([]) == [0x01, 0x00]
    ensures DecodeRawBytes(prior, [0x01, 0x00] + rest) == Ok(([], rest))
  {
    OneByteCount(0, rest);
  }

  /** A size larger than what remains still reads "successfully": the
      missing bytes are zeros (or what the vector held before) and the
      stream is left empty. */
  lemma RawBytesShortReadPads()
    ensures DecodeRawBytes([], [0x01, 0x03, 0x41]) == Ok(([0x41, 0, 0], []))
    ensures DecodeRawBytes([7, 7, 7, 7], [0x01, 0x03, 0x41]) == Ok(([0x41, 7, 7], []))
  {
    var s: Bytes := [0x01, 0x03, 0x41];
    var t: Bytes := [0x41];
    OneByteCount(3, t);
    assert [0x01, 0x03] + t == s;
    assert t[..1] == [0x41] && t[1..] == [];
    var z := Resize([], 3);
    assert z[1] == 0 && z[2] == 0;
    assert z[1..] == [z[1], z[2]];
    var y := Resize([7, 7, 7, 7], 3);
    assert y[1] == 7 && y[2] == 7;
    assert y[1..] == [y[1], y[2]];
    assert DecodeRawBytes([], s) == Ok(([0x41] + [0, 0], []));
    assert DecodeRawBytes([7, 7, 7, 7], s) == Ok(([0x41] + [7, 7], []));
    assert [0x41] + [0, 0] == [0x41, 0, 0] && [0x41] + [7, 7] == [0x41, 7, 7];
  }

  // -------------------------------------------------------------------------
  // std::vector<bool>: a vector<unsigned char> of '1' and '0'

  function BoolByte(b: bool): byte {
    EncodeBool(b)[0]
  }

  function ByteBool(c: byte): bool {
    c == One
  }

  /** The size, then '1' for each true element and '0' for each false one. */
  function EncodeBoolVector(bs: seq<bool>): (r: Bytes)
    requires Countable(bs)
    ensures DecodeInt(ULong, r).Ok?
    ensures var (n, t) := DecodeInt(ULong, r).value;
            n == |t| == |bs| && forall i | 0 <= i < |bs| :: t[i] == (if bs[i] then One else Zero)
  {
    EncodeRawBytes(MapSeq(BoolByte, bs))
  }

  /** Reads the characters into a fresh vector, then takes '1' as true and
      every other byte, and every zero byte padding a short read, as false. */
  function DecodeBoolVector(s: Bytes): (r: Result<(seq<bool>, Bytes)>)
    ensures r.Ok? <==> DecodeInt(ULong, s).Ok?
    ensures r.Err? ==> r.msg == ReadError(ULong) + "\n   while " + VectorContext
    ensures r.Ok? ==>
              var (n, t) := DecodeInt(ULong, s).value;
              && |r.value.0| == n
              && (forall i | 0 <= i < n :: r.value.0[i] <==> i < |t| && t[i] == One)
              && r.value.1 == t[Min(n, |t|)..]
  {
    match DecodeRawBytes([], s)
    case Err(m) => Err(m)
    case Ok((cs, t)) => Ok((MapSeq(ByteBool, cs), t))
  }

  lemma BoolVectorRoundTrip(bs: seq<bool>, rest: Bytes)
    requires Countable(bs)
    ensures DecodeBoolVector(EncodeBoolVector(bs) + rest) == Ok((bs, rest))
  {
    var cs := MapSeq(BoolByte, bs);
    RawBytesRoundTrip(cs, [], rest);
    assert MapSeq(ByteBool, cs) == bs;
  }

  /** Any byte vector reads as a bool vector, without error: '1' is true and
      everything else, '0' or not, is false. */
  lemma BoolVectorLenient(cs: Bytes, rest: Bytes)
    requires Countable(cs)
    ensures DecodeBoolVector(EncodeRawBytes(cs) + rest).Ok?
    ensures var bs := DecodeBoolVector(EncodeRawBytes(cs) + rest).value.0;
            |bs| == |cs| && forall i | 0 <= i < |cs| :: bs[i] <==> cs[i] == One
  {
    RawBytesRoundTrip(cs, [], rest);
  }

  // -------------------------------------------------------------------------
  // std::string: the same bytes as a vector<char>, but a short read fails

  const StringContext := "deserializing object of type std::string"

  function StringReadError(): string {
    "Error deserializing object of type std::string"
  }

  /** The size, then the string's bytes. */
  function EncodeString(x: Bytes): (bs: Bytes)
    requires Countable(x)
    ensures DecodeInt(ULong, bs) == Ok((|x|, x))
  {
    LengthRoundTrip(|x|, x);
    LengthPrefix(|x|) + x
  }

  /** A string and a vector<char> with the same contents are written alike. */
  lemma StringWrittenAsCharVector(x: Bytes)
    requires Countable(x)
    ensures EncodeString(x) == EncodeRawBytes(x)
  {
  }

  /** Reads the size, then exactly that many bytes; fewer is an error. */
  function DecodeString(s: Bytes): (r: Result<(Bytes, Bytes)>)
    ensures r.Ok? <==> DecodeInt(ULong, s).Ok? && DecodeInt(ULong, s).value.0 <= |DecodeInt(ULong, s).value.1|
    ensures DecodeInt(ULong, s).Err? ==> r.Err? && r.msg == ReadError(ULong) + "\n   while " + StringContext
    ensures DecodeInt(ULong, s).Ok? && r.Err? ==> r.msg == StringReadError()
    ensures r.Ok? ==> var (n, t) := DecodeInt(ULong, s).value; r.value.0 + r.value.1 == t && |r.value.0| == n
  {
    match DecodeInt(ULong, s)
    case Err(m) => Err(m + "\n   while " + StringContext)
    case Ok((n, t)) =>
      if |t| < n then Err(StringReadError())
      else Ok((t[..n], t[n..]))
  }

  lemma StringRoundTrip(x: Bytes, rest: Bytes)
    requires Countable(x)
    ensures DecodeString(EncodeString(x) + rest) == Ok((x, rest))
  {
    LengthRoundTrip(|x|, x + rest);
    assert EncodeString(x) + rest == LengthPrefix(|x|) + (x + rest);
    assert (x + rest)[..|x|] == x;
  }

  /** The same truncated stream: a vector<char> reads it, padded, while a
      string reports it. */
  lemma StringShortReadFails()
    ensures DecodeString([0x01, 0x03, 0x41]) == Err(StringReadError())
    ensures DecodeRawBytes([], [0x01, 0x03, 0x41]).Ok?
  {
    OneByteCount(3, [0x41]);
    assert [0x01, 0x03] + [0x41] == [0x01, 0x03, 0x41];
  }

  // -------------------------------------------------------------------------
  // std::wstring and ustring: the size, then each code unit as an integer

  /** A string of integer code units: its unit type and its name in messages. */
  datatype TextType = TextType(unit: IntType, name: string)

  const WString := TextType(WChar, "std::wstring")
  const UString := TextType(UInt, "ustring")

  predicate ValidText(tt: TextType) {
    ValidType(tt.unit)
  }

  predicate Units(tt: TextType, us: seq<int>)
    requires ValidText(tt)
  {
    Countable(us) && forall i | 0 <= i < |us| :: Encodable(tt.unit, us[i])
  }

  /** Never fails: every unit of the string is in range for its type. The
      size comes first, then each unit as an integer of the unit type. */
  function EncodeUnits(tt: TextType, us: seq<int>): (bs: Bytes)
    requires ValidText(tt) && Units(tt, us)
    ensures EncodeAll(IntElement(tt.unit).enc, us).Ok?
    ensures DecodeInt(ULong, bs) == Ok((|us|, EncodeAll(IntElement(tt.unit).enc, us).value))
  {
    EncodeCounted(IntElement(tt.unit).enc, us).value
  }

  /** Only a failed size read is wrapped with the string's name; a unit that
      cannot be read raises the unit type's own error, as is. */
  function DecodeUnits(tt: TextType, s: Bytes): (r: Result<(seq<int>, Bytes)>)
    requires ValidText(tt)
    ensures DecodeInt(ULong, s).Err? ==> r == Err(ReadError(ULong) + "\n   while deserializing object of type " + tt.name)
    ensures DecodeInt(ULong, s).Ok? && r.Err? ==> r.msg == ReadError(tt.unit)
    ensures r.Ok? ==> |r.value.0| == DecodeInt(ULong, s).value.0
                      && forall i | 0 <= i < |r.value.0| :: InRange(tt.unit, r.value.0[i])
  {
    match DecodeInt(ULong, s)
    case Err(m) => Err(m + "\n   while deserializing object of type " + tt.name)
    case Ok((n, t)) =>
      var r := DecodeN(IntElement(tt.unit).dec, n, t);
      DecodeNErrorFrom(IntElement(tt.unit).dec, ReadError(tt.unit), n, t);
      DecodeNEach(IntElement(tt.unit).dec, (x: int) => InRange(tt.unit, x), n, t);
      r
  }

  lemma UnitsRoundTrip(tt: TextType, us: seq<int>, rest: Bytes)
    requires ValidText(tt) && Units(tt, us)
    ensures DecodeUnits(tt, EncodeUnits(tt, us) + rest) == Ok((us, rest))
  {
    var c := IntElement(tt.unit);
    IntElementSound(tt.unit);
    CountedRoundTrip(c, us, rest);
    var b := EncodeAll(c.enc, us).value;
    LengthRoundTrip(|us|, b + rest);
    assert EncodeUnits(tt, us) + rest == LengthPrefix(|us|) + (b + rest);
    assert MapSeq(c.abs, us) == us;
  }

  /** A missing size is reported with the string's name; a code unit too wide
      for `wchar_t` is reported with no mention of the string at all. */
  lemma UnitErrorNotWrapped()
    ensures DecodeUnits(WString, []) ==
              Err(ReadError(ULong) + "\n   while deserializing object of type std::wstring")
    ensures DecodeUnits(WString, [0x01, 0x01, 0x05, 1, 2, 3, 4, 5]) == Err(ReadError(WChar))
  {
    assert DecodeInt(ULong, []) == Err(ReadError(ULong));
    var t: Bytes := [0x05, 1, 2, 3, 4, 5];
    OneByteCount(1, t);
    assert [0x01, 0x01] + t == [0x01, 0x01, 0x05, 1, 2, 3, 4, 5];
    assert Count(WChar, 0x05) == 5;
    assert DecodeInt(WChar, t) == Err(ReadError(WChar));
    assert DecodeN(IntElement(WChar).dec, 1, t) == Err(ReadError(WChar));
  }

  // -------------------------------------------------------------------------
  // The buffers as elements of other containers

  /** A `std::vector<char>` element, read into a vector that held `prior`.
      A fresh vector holds nothing; a vector reused from the previous read
      holds that read's bytes. */
  function RawBytesElement(prior: Bytes): Codec<Bytes, Bytes> {
    Codec(
      (bs: Bytes) requires Countable(bs) => Ok(EncodeRawBytes(bs)),
      s => DecodeRawBytes(prior, s),
      (bs: Bytes) => Countable(bs),
      (bs: Bytes) => bs)
  }

  lemma RawBytesElementSound(prior: Bytes)
    ensures Sound(RawBytesElement(prior))
  {
    var c := RawBytesElement(prior);
    forall bs, rest | c.valid(bs) ensures DecodesBack(c, bs, rest) {
      RawBytesRoundTrip(bs, prior, rest);
    }
  }

  function BoolVectorElement(): Codec<seq<bool>, seq<bool>> {
    Codec(
      (bs: seq<bool>) requires Countable(bs) => Ok(EncodeBoolVector(bs)),
      DecodeBoolVector,
      (bs: seq<bool>) => Countable(bs),
      (bs: seq<bool>) => bs)
  }

  lemma BoolVectorElementSound()
    ensures Sound(BoolVectorElement())
  {
    var c := BoolVectorElement();
    forall bs, rest | c.valid(bs) ensures DecodesBack(c, bs, rest) {
      BoolVectorRoundTrip(bs, rest);
    }
  }

  function StringElement(): Codec<Bytes, Bytes> {
    Codec(
      (x: Bytes) requires Countable(x) => Ok(EncodeString(x)),
      DecodeString,
      (x: Bytes) => Countable(x),
      (x: Bytes) => x)
  }

  lemma StringElementSound()
    ensures Sound(StringElement())
  {
    var c := StringElement();
    forall x, rest | c.valid(x) ensures DecodesBack(c, x, rest) {
      StringRoundTrip(x, rest);
    }
  }

  function UnitsElement(tt: TextType): Codec<seq<int>, seq<int>>
    requires ValidText(tt)
  {
    Codec(
      (us: seq<int>) requires Units(tt, us) => Ok(EncodeUnits(tt, us)),
      s => DecodeUnits(tt, s),
      (us: seq<int>) => Units(tt, us),
      (us: seq<int>) => us)
  }

  lemma UnitsElementSound(tt: TextType)
    requires ValidText(tt)
    ensures Sound(UnitsElement(tt))
  {
    var c := UnitsElement(tt);
    forall us, rest | c.valid(us) ensures DecodesBack(c, us, rest) {
      UnitsRoundTrip(tt, us, rest);
    }
  }

  /** Containers of buffers: a vector of strings, and a map from strings to
      `int`, read back what was written. */
  lemma NestedBuffersSound()
    ensures Sound(VectorCodec(StringElement()))
    ensures Sound(MapCodec(StringElement(), IntElement(Int)))
  {
    StringElementSound();
    IntElementSound(Int);
    VectorSound(StringElement());
    MapSound(StringElement(), IntElement(Int));
  }
}
