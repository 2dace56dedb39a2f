/** The variable-length integer format of `ser_helper::pack_int` / `unpack_int`.

    A record is a control byte followed by the magnitude in little-endian
    order. The control byte's high bit is set for a negative number and its
    low four bits count the magnitude bytes that follow. One codec serves every
    integral type; a type is described by its C++ name (which appears in the
    error message), its width in bytes and its signedness.
 */
module IntCodec {
  import opened Wire

  datatype IntType = IntType(name: string, width: nat, signed: bool)

  // The integral types that use this format (LP64: long and size_t are 8 bytes,
  // wchar_t is a signed 4-byte type). The char types use the byte codec instead.
  const Short := IntType("short", 2, true)
  const Int := IntType("int", 4, true)
  const Long := IntType("long", 8, true)
  const UShort := IntType("unsigned short", 2, false)
  const UInt := IntType("unsigned int", 4, false)
  const ULong := IntType("unsigned long", 8, false)
  const UInt64 := IntType("uint64", 8, false)
  const Int64 := IntType("int64", 8, true)
  const WChar := IntType("wchar_t", 4, true)

  /** The codec only handles types of at most 8 bytes. */
  predicate ValidType(t: IntType) {
    1 <= t.width <= 8
  }

  /** 2^(8W-1): the magnitude of the most negative value of a signed type. */
  function Half(t: IntType): nat
    requires ValidType(t)
  {
    128 * Pow256(t.width - 1)
  }

  function MinValue(t: IntType): int
    requires ValidType(t)
  {
    if t.signed then 0 - Half(t) else 0
  }

  function MaxValue(t: IntType): int
    requires ValidType(t)
  {
    if t.signed then Half(t) - 1 else Pow256(t.width) - 1
  }

  /** `v` is a value of type `t`. */
  predicate InRange(t: IntType, v: int)
    requires ValidType(t)
  {
    MinValue(t) <= v <= MaxValue(t)
  }

  /** `v` can be packed: a value of `t`, other than the most negative value of
      a signed type at least as wide as `int`, whose negation `item *= -1`
      overflows. A narrower type is negated in `int`; the product converts
      back to the same most negative value, whose shifted-out bytes are those
      of its magnitude 2^(8W-1). */
  predicate Encodable(t: IntType, v: int)
    requires ValidType(t)
  {
    InRange(t, v) && (t.signed && 4 <= t.width ==> v != MinValue(t))
  }

  function Abs(v: int): nat {
    if v < 0 then -v else v
  }

  /** Two's-complement (signed) or modular (unsigned) conversion of `x` into
      type `t`: what storing an out-of-range result in a `t` does. */
  function Wrap(t: IntType, x: int): (r: int)
    requires ValidType(t)
    ensures InRange(t, r)
  {
    if t.signed then (x + Half(t)) % Pow256(t.width) - Half(t) else x % Pow256(t.width)
  }

  /** The value `Wrap` gives differs from `x` by a multiple of 2^(8W): it is
      `x` reduced into the type's range. */
  lemma WrapCongruent(t: IntType, x: int)
    requires ValidType(t)
    ensures (x - Wrap(t, x)) % Pow256(t.width) == 0
  {
    var p := Pow256(t.width);
    var a := if t.signed then x + Half(t) else x;
    var q := a / p;
    assert a == q * p + a % p;
    assert x - Wrap(t, x) == q * p;
    MultipleMod(q, p);
  }

  lemma {:induction false} MulAtLeast(k: int, p: nat)
    requires 1 <= k
    ensures p <= k * p
    decreases k
  {
    if 1 < k {
      MulAtLeast(k - 1, p);
      assert k * p == (k - 1) * p + p;
    }
  }

  /** A multiple of `p` leaves no remainder. */
  lemma MultipleMod(q: int, p: nat)
    requires 0 < p
    ensures (q * p) % p == 0
  {
    var r := (q * p) % p;
    var d := (q * p) / p;
    assert (q - d) * p == r by {
      assert q * p == d * p + r;
      assert (q - d) * p == q * p - d * p;
    }
    if 1 <= q - d {
      MulAtLeast(q - d, p);
    } else if q - d <= -1 {
      MulAtLeast(d - q, p);
    }
  }

  lemma WrapInRange(t: IntType, x: int)
    requires ValidType(t) && InRange(t, x)
    ensures Wrap(t, x) == x
  {
    assert Pow256(t.width) == 2 * Half(t);
    if t.signed {
      ModOfSmall(x + Half(t), Pow256(t.width));
    } else {
      ModOfSmall(x, Pow256(t.width));
    }
  }

  lemma ModOfSmall(a: int, b: int)
    requires 0 <= a < b
    ensures a % b == a
  {
  }

  /** The magnitude bytes produced by the loop of `pack_int`: the low byte of
      what is left, repeated until nothing is left, so at least one byte. */
  function Magnitude(m: nat): (bs: Bytes)
    ensures 1 <= |bs|
    ensures FromLE(bs) == m
    ensures |bs| == 1 || bs[|bs| - 1] != 0
    decreases m
  {
    [m % 256] + (if m / 256 == 0 then [] else Magnitude(m / 256))
  }

  lemma DivideBound(m: nat, p: nat)
    ensures m / 256 < p <==> m < 256 * p
  {
  }

  /** `w` bytes are enough for the magnitude exactly when `m` is below 256^w. */
  lemma {:induction false} MagnitudeFits(m: nat, w: nat)
    requires 1 <= w
    ensures |Magnitude(m)| <= w <==> m < Pow256(w)
    decreases m
  {
    Pow256Monotonic(1, w);
    if 256 <= m {
      var q := m / 256;
      assert q != 0;
      assert |Magnitude(m)| == 1 + |Magnitude(q)|;
      if 1 < w {
        MagnitudeFits(q, w - 1);
        DivideBound(m, Pow256(w - 1));
      }
    }
  }

  /** The magnitude of a value below 256^w takes between 1 and w bytes, and
      no fewer than it needs. */
  lemma MagnitudeShape(m: nat, w: nat)
    requires 1 <= w && m < Pow256(w)
    ensures |Magnitude(m)| <= w
    ensures m < Pow256(|Magnitude(m)|)
    ensures |Magnitude(m)| == 1 || Pow256(|Magnitude(m)| - 1) <= m
  {
    MagnitudeFits(m, w);
    if 2 <= |Magnitude(m)| {
      MagnitudeFits(m, |Magnitude(m)| - 1);
    }
  }

  /** `pack_int`: the control byte (count, plus 0x80 for a negative value)
      followed by the fewest little-endian bytes that hold the magnitude. */
  function EncodeInt(t: IntType, v: int): (bs: Bytes)
    requires ValidType(t) && Encodable(t, v)
    ensures 2 <= |bs| <= t.width + 1
    ensures bs[0] == (|bs| - 1) + (if v < 0 then 0x80 else 0)
    ensures FromLE(bs[1..]) == Abs(v)
    ensures Abs(v) < Pow256(|bs| - 1)
    ensures |bs| == 2 || Pow256(|bs| - 2) <= Abs(v)
  {
    var mag := Magnitude(Abs(v));
    InRangeMagnitude(t, v);
    MagnitudeShape(Abs(v), t.width);
    var control: byte := |mag| + (if v < 0 then 0x80 else 0);
    RecordLayout(control, mag);
    [control] + mag
  }

  lemma RecordLayout(control: byte, mag: Bytes)
    ensures |[control] + mag| - 1 == |mag| && ([control] + mag)[0] == control && ([control] + mag)[1..] == mag
  {
  }

  /** The byte count a decoder reads from a control byte. The signed decoder
      masks with 0x0F; the unsigned one with 0x8F, keeping the sign bit so
      that a negative record reads as a count of at least 128. */
  function Count(t: IntType, control: byte): (n: nat)
    ensures n == control % 16 || n == 128 + control % 16
    ensures 128 <= n <==> !t.signed && 0x80 <= control
  {
    if t.signed then control % 16 else (control / 128) * 128 + control % 16
  }

  function ReadError(t: IntType): string {
    "Error deserializing object of type " + t.name
  }

  /** `unpack_int` followed by the throw of its `deserialize` wrapper.
      A count of zero passes the source's checks and then starts its
      reassembly loop at index 255 of an 8-byte buffer; the model makes
      that input an error instead. */
  function DecodeInt(t: IntType, s: Bytes): (r: Result<(int, Bytes)>)
    requires ValidType(t)
    ensures r.Ok? <==> 1 <= |s| && 1 <= Count(t, s[0]) <= t.width && Count(t, s[0]) < |s|
    ensures r.Ok? ==> InRange(t, r.value.0) && r.value.1 == s[1 + Count(t, s[0])..]
    ensures r.Err? ==> r.msg == ReadError(t)
  {
    if |s| == 0 then Err(ReadError(t))
    else
      var n := Count(t, s[0]);
      if n > t.width then Err(ReadError(t))
      else if |s| - 1 < n then Err(ReadError(t))
      else if n == 0 then Err(ReadError(t))
      else
        var item := Wrap(t, FromLE(s[1..1 + n]));
        Ok((if t.signed && s[0] >= 0x80 then Wrap(t, -item) else item, s[1 + n..]))
  }

  /** A signed type's 2^(8W-1) does not fit and wraps to its most negative value. */
  lemma WrapHalf(t: IntType)
    requires ValidType(t) && t.signed
    ensures Wrap(t, Half(t)) == MinValue(t)
  {
    var p := Pow256(t.width);
    assert p == Half(t) + Half(t);
    assert p % p == 0;
  }

  /** The value `unpack_int` reassembles from magnitude `Abs(v)` and the sign
      of `v` is `v` itself whenever `v` is in the target's range. For a signed
      target this includes its most negative value: the magnitude already
      converts to that value, and the model takes the two's-complement result
      of negating it. For a target at least as wide as `int` the C++ negation
      `item *= -1` overflows there, which is undefined behaviour. */
  lemma ReassembledValue(dst: IntType, v: int)
    requires ValidType(dst) && InRange(dst, v)
    ensures var item := Wrap(dst, Abs(v));
            (if dst.signed && v < 0 then Wrap(dst, -item) else item) == v
  {
    var m := Abs(v);
    assert Pow256(dst.width) == 2 * Half(dst);
    if !dst.signed || v >= 0 {
      WrapInRange(dst, m);
    } else if m < Half(dst) {
      WrapInRange(dst, m);
      WrapInRange(dst, -m);
    } else {
      assert m == Half(dst);
      WrapHalf(dst);
    }
  }

  /** A decoder reads back the count a control byte was written with, and an
      unsigned decoder does so only when the sign bit is clear. */
  lemma ControlCount(t: IntType, n: nat, negative: bool)
    requires n <= 8
    ensures Count(t, n + (if negative then 0x80 else 0)) == n <==> t.signed || !negative
  {
    if negative {
      assert (n + 0x80) / 128 == 1;
    } else {
      assert n / 128 == 0;
    }
  }

  /** What `DecodeInt` returns on a record whose count is acceptable. */
  lemma DecodeAccepted(t: IntType, s: Bytes, n: nat)
    requires ValidType(t) && 1 <= |s| && Count(t, s[0]) == n && 1 <= n <= t.width && n < |s|
    ensures var item := Wrap(t, FromLE(s[1..1 + n]));
            DecodeInt(t, s) == Ok((if t.signed && s[0] >= 0x80 then Wrap(t, -item) else item, s[1 + n..]))
  {
  }

  /** A value in a type's range has a magnitude that fits the type's width. */
  lemma InRangeMagnitude(t: IntType, v: int)
    requires ValidType(t) && InRange(t, v)
    ensures Abs(v) < Pow256(t.width)
  {
    assert Pow256(t.width) == 2 * Half(t);
  }

  /** A record's count fits a width exactly when the magnitude does, because
      the count is the smallest that holds the magnitude. */
  lemma CountFitsIffMagnitudeFits(src: IntType, v: int, w: nat)
    requires ValidType(src) && Encodable(src, v) && 1 <= w
    ensures |EncodeInt(src, v)| - 1 <= w <==> Abs(v) < Pow256(w)
  {
    var n := |EncodeInt(src, v)| - 1;
    if n > w {
      Pow256Monotonic(w, n - 1);
    } else {
      Pow256Monotonic(n, w);
    }
  }

  /** The parts of a record followed by other bytes. */
  lemma RecordParts(e: Bytes, rest: Bytes, n: nat)
    requires |e| == n + 1
    ensures (e + rest)[0] == e[0] && (e + rest)[1..1 + n] == e[1..] && (e + rest)[1 + n..] == rest
  {
  }

  /** Any value packed from any integral type reads back, from exactly its own
      bytes, into any integral type whose range holds it. */
  lemma IntRoundTrip(src: IntType, dst: IntType, v: int, rest: Bytes)
    requires ValidType(src) && ValidType(dst)
    requires Encodable(src, v) && InRange(dst, v)
    ensures DecodeInt(dst, EncodeInt(src, v) + rest) == Ok((v, rest))
  {
    var e := EncodeInt(src, v);
    var n := |e| - 1;
    InRangeMagnitude(dst, v);
    CountFitsIffMagnitudeFits(src, v, dst.width);
    RecordParts(e, rest, n);
    ControlCount(dst, n, v < 0);
    DecodeAccepted(dst, e + rest, n);
    ReassembledValue(dst, v);
  }

  /** When the decoder reads back the count the record was written with, it
      accepts the record exactly when that count fits its width. */
  lemma AcceptsIffCountFits(src: IntType, dst: IntType, v: int, rest: Bytes)
    requires ValidType(src) && ValidType(dst) && Encodable(src, v) && (dst.signed || 0 <= v)
    ensures DecodeInt(dst, EncodeInt(src, v) + rest).Ok? <==> |EncodeInt(src, v)| - 1 <= dst.width
  {
    var e := EncodeInt(src, v);
    var n := |e| - 1;
    RecordParts(e, rest, n);
    ControlCount(dst, n, v < 0);
    assert Count(dst, (e + rest)[0]) == n;
    assert n < |e + rest|;
  }

  /** An unsigned target accepts a packed value exactly when the value is in
      its range: too many magnitude bytes, or the sign bit (kept by the 0x8F
      mask, so the count reads as 128 or more), make it fail. */
  lemma UnsignedTargetAcceptsIffInRange(src: IntType, dst: IntType, v: int, rest: Bytes)
    requires ValidType(src) && ValidType(dst) && !dst.signed
    requires Encodable(src, v)
    ensures DecodeInt(dst, EncodeInt(src, v) + rest).Ok? <==> InRange(dst, v)
  {
    var e := EncodeInt(src, v);
    if v < 0 {
      RecordParts(e, rest, |e| - 1);
      ControlCount(dst, |e| - 1, true);
      assert Count(dst, e[0]) >= 128;
    } else {
      AcceptsIffCountFits(src, dst, v, rest);
      CountFitsIffMagnitudeFits(src, v, dst.width);
    }
  }

  /** A signed target only compares the byte count with its width: it accepts
      a packed value exactly when the magnitude fits in its width, even when
      the value itself is outside its range. */
  lemma SignedTargetAcceptsIffMagnitudeFits(src: IntType, dst: IntType, v: int, rest: Bytes)
    requires ValidType(src) && ValidType(dst) && dst.signed
    requires Encodable(src, v)
    ensures DecodeInt(dst, EncodeInt(src, v) + rest).Ok? <==> Abs(v) < Pow256(dst.width)
  {
    AcceptsIffCountFits(src, dst, v, rest);
    CountFitsIffMagnitudeFits(src, v, dst.width);
  }

  /** The consequence: 40000 packed from an `unsigned short` is read by a
      `short` as -25536, without an error. */
  lemma SignedTargetWraps()
    ensures EncodeInt(UShort, 40000) == [0x02, 0x40, 0x9C]
    ensures DecodeInt(Short, [0x02, 0x40, 0x9C]) == Ok((-25536, []))
  {
    assert Magnitude(40000) == [0x40, 0x9C];
    var m: Bytes := [0x40, 0x9C];
    assert FromLE(m) == 40000 by {
      assert m[1..] == [0x9C];
      assert FromLE([0x9C]) == 0x9C;
    }
    ControlThenRecord(Short, 0x02, m, 2);
    assert [0x02] + m == [0x02, 0x40, 0x9C] && m[..2] == m && m[2..] == [];
    assert Wrap(Short, 40000) == -25536;
  }

  /** The most negative `short` is packed as count 2, sign set, magnitude
      0x8000, and reads back as itself. */
  lemma ShortMinimumRoundTrip()
    ensures Encodable(Short, -32768)
    ensures EncodeInt(Short, -32768) == [0x82, 0x00, 0x80]
    ensures DecodeInt(Short, [0x82, 0x00, 0x80]) == Ok((-32768, []))
  {
    assert Magnitude(32768) == [0x00, 0x80];
    var m: Bytes := [0x00, 0x80];
    assert FromLE(m) == 32768 by {
      assert m[1..] == [0x80];
      assert FromLE([0x80]) == 0x80;
    }
    ControlThenRecord(Short, 0x82, m, 2);
    assert [0x82] + m == [0x82, 0x00, 0x80] && m[..2] == m && m[2..] == [];
    WrapHalf(Short);
  }

  /** `long` writes -2^31 as a count of four and the bytes of 2^31. */
  lemma LongRecordOfIntMinimum()
    ensures EncodeInt(Long, -0x8000_0000) == [0x84, 0x00, 0x00, 0x00, 0x80]
  {
    assert Magnitude(0x80) == [0x80];
    assert Magnitude(0x8000) == [0x00, 0x80];
    assert Magnitude(0x80_0000) == [0x00, 0x00, 0x80];
    assert Magnitude(0x8000_0000) == [0x00, 0x00, 0x00, 0x80];
  }

  /** That record read by `int` gives its most negative value: the model takes
      the two's-complement result of the overflowing `item *= -1`. */
  lemma IntMinimumRead()
    ensures DecodeInt(Int, [0x84, 0x00, 0x00, 0x00, 0x80]) == Ok((MinValue(Int), []))
  {
    var m: Bytes := [0x00, 0x00, 0x00, 0x80];
    assert FromLE(m) == 0x8000_0000 by {
      assert m[1..] == [0x00, 0x00, 0x80] && m[2..] == [0x00, 0x80] && m[3..] == [0x80];
      assert FromLE([0x80]) == 0x80;
      assert FromLE([0x00, 0x80]) == 0x8000;
      assert FromLE([0x00, 0x00, 0x80]) == 0x80_0000;
    }
    ControlThenRecord(Int, 0x84, m, 4);
    assert [0x84] + m == [0x84, 0x00, 0x00, 0x00, 0x80] && m[..4] == m && m[4..] == [];
    WrapHalf(Int);
  }

  /** Both decoders ignore the three reserved bits 4-6 of the control byte. */
  lemma ReservedBitsIgnored(t: IntType, c1: byte, c2: byte, s: Bytes)
    requires ValidType(t)
    requires c1 % 16 == c2 % 16 && c1 / 128 == c2 / 128
    ensures DecodeInt(t, [c1] + s) == DecodeInt(t, [c2] + s)
  {
    var n := Count(t, c1);
    assert Count(t, c2) == n;
    assert (c1 >= 0x80) == (c2 >= 0x80);
    if 1 <= n <= t.width && n <= |s| {
      ControlThenRecord(t, c1, s, n);
      ControlThenRecord(t, c2, s, n);
    }
  }

  /** `DecodeInt` on a control byte `c` followed by `s`, when the count fits. */
  lemma ControlThenRecord(t: IntType, c: byte, s: Bytes, n: nat)
    requires ValidType(t) && Count(t, c) == n && 1 <= n <= t.width && n <= |s|
    ensures var item := Wrap(t, FromLE(s[..n]));
            DecodeInt(t, [c] + s) == Ok((if t.signed && c >= 0x80 then Wrap(t, -item) else item, s[n..]))
  {
    assert ([c] + s)[0] == c;
    assert ([c] + s)[1..1 + n] == s[..n];
    assert ([c] + s)[1 + n..] == s[n..];
    DecodeAccepted(t, [c] + s, n);
  }

  /** Decoding fails on an empty stream, on a record with fewer magnitude
      bytes than its count, on a count above the target's width, on a count of
      zero, and, for an unsigned target, on a set sign bit. */
  lemma DecodeIntErrors(t: IntType, s: Bytes)
    requires ValidType(t)
    ensures |s| == 0 ==> DecodeInt(t, s).Err?
    ensures 1 <= |s| && |s| - 1 < Count(t, s[0]) ==> DecodeInt(t, s).Err?
    ensures 1 <= |s| && t.width < Count(t, s[0]) ==> DecodeInt(t, s).Err?
    ensures 1 <= |s| && Count(t, s[0]) == 0 ==> DecodeInt(t, s).Err?
    ensures 1 <= |s| && !t.signed && 0x80 <= s[0] ==> DecodeInt(t, s).Err?
  {
  }

  /** The layout on small values: zero and 255 take one magnitude byte, the
      sign is only in the control byte, and 256 needs two bytes. */
  lemma EncodingExamples()
    ensures EncodeInt(UInt, 0) == [0x01, 0x00]
    ensures EncodeInt(UInt, 255) == [0x01, 0xFF]
    ensures EncodeInt(Int, -1) == [0x81, 0x01]
    ensures EncodeInt(UInt, 256) == [0x02, 0x00, 0x01]
  {
    assert Magnitude(0) == [0];
    assert Magnitude(255) == [255];
    assert Magnitude(1) == [1];
    assert Magnitude(256) == [0, 1];
  }
}
