/** What every codec in this model has in common, and the two loops the
    counted containers share: "write the count, then each element" and "read
    the count, then that many elements".
 */
module Codec {
  import opened Wire
  import opened IntCodec

  /** The `serialize` / `deserialize` overloads for one C++ type.
      `enc` writes a `T`; `dec` reads a `U`; `valid` says which values of `T`
      the pair is specified on; `abs` is the value reading is expected to
      rebuild. `abs` is the identity except where the written form and the
      read form differ, as for a map written from its entries in iteration
      order and read back as a map. */
  datatype Codec<!T, U> = Codec(
    enc: T --> Result<Bytes>,
    dec: Bytes -> Result<(U, Bytes)>,
    valid: T -> bool,
    abs: T -> U)

  /** Reading what was written for `v`, followed by anything, gives back
      `abs(v)` and leaves exactly what followed. */
  ghost predicate DecodesBack<T, U>(c: Codec<T, U>, v: T, rest: Bytes) {
    c.enc.requires(v) && (c.enc(v).Ok? ==> c.dec(c.enc(v).value + rest) == Ok((c.abs(v), rest)))
  }

  /** The header's promise for a type: every value it is specified on can be
      written, `deserialize` returns a copy of what `serialize` wrote, and it
      reads those bytes "and no more". */
  ghost predicate Sound<T(!new), U>(c: Codec<T, U>) {
    && (forall v | c.valid(v) :: c.enc.requires(v) && c.enc(v).Ok?)
    && (forall v, rest | c.valid(v) :: DecodesBack(c, v, rest))
  }

  /** Two values written one after the other are read back one after the other. */
  lemma StreamConcatenation<A(!new), B, C(!new), D>(c1: Codec<A, B>, c2: Codec<C, D>, v1: A, v2: C, rest: Bytes)
    requires Sound(c1) && Sound(c2) && c1.valid(v1) && c2.valid(v2)
    ensures c1.enc(v1).Ok? && c2.enc(v2).Ok?
    ensures c1.dec(c1.enc(v1).value + c2.enc(v2).value + rest) == Ok((c1.abs(v1), c2.enc(v2).value + rest))
    ensures c2.dec(c2.enc(v2).value + rest) == Ok((c2.abs(v2), rest))
  {
    var b1, b2 := c1.enc(v1).value, c2.enc(v2).value;
    assert DecodesBack(c1, v1, b2 + rest);
    assert DecodesBack(c2, v2, rest);
    assert b1 + b2 + rest == b1 + (b2 + rest);
  }

  /** Each element written in turn; the first element that cannot be written
      aborts the whole. */
  function EncodeAll<T>(enc: T --> Result<Bytes>, xs: seq<T>): (r: Result<Bytes>)
    requires forall i | 0 <= i < |xs| :: enc.requires(xs[i])
    ensures r.Ok? <==> forall i | 0 <= i < |xs| :: enc(xs[i]).Ok?
    ensures r.Err? ==> exists i | 0 <= i < |xs| :: enc(xs[i]) == r && forall j | 0 <= j < i :: enc(xs[j]).Ok?
  {
    if |xs| == 0 then Ok([])
    else
      match enc(xs[0])
      case Err(m) => Err(m)
      case Ok(b) =>
        var tail := EncodeAll(enc, xs[1..]);
        assert tail.Err? ==> exists i | 1 <= i < |xs| :: enc(xs[i]) == tail && forall j | 0 <= j < i :: enc(xs[j]).Ok? by {
          if tail.Err? {
            var i :| 0 <= i < |xs| - 1 && enc(xs[1..][i]) == tail && forall j | 0 <= j < i :: enc(xs[1..][j]).Ok?;
            assert forall j | 1 <= j < i + 1 :: enc(xs[j]).Ok? by {
              forall j | 1 <= j < i + 1 ensures enc(xs[j]).Ok? {
                assert xs[j] == xs[1..][j - 1];
              }
            }
            assert enc(xs[i + 1]) == tail;
          }
        }
        match tail
        case Err(m) => Err(m)
        case Ok(bs) => Ok(b + bs)
  }

  /** `n` elements read in turn; the first element that cannot be read
      aborts the whole. */
  function DecodeN<U>(dec: Bytes -> Result<(U, Bytes)>, n: nat, s: Bytes): (r: Result<(seq<U>, Bytes)>)
    ensures r.Ok? ==> |r.value.0| == n
    ensures n == 0 ==> r == Ok(([], s))
  {
    if n == 0 then Ok(([], s))
    else
      match dec(s)
      case Err(m) => Err(m)
      case Ok((x, t)) =>
        match DecodeN(dec, n - 1, t)
        case Err(m) => Err(m)
        case Ok((xs, u)) => Ok(([x] + xs, u))
  }

  /** When every failure of the element reader carries one message, a failed
      run of reads carries that message too, with nothing added. */
  lemma {:induction false} DecodeNErrorFrom<U>(dec: Bytes -> Result<(U, Bytes)>, m: string, n: nat, s: Bytes)
    requires forall t :: dec(t).Err? ==> dec(t).msg == m
    ensures DecodeN(dec, n, s).Err? ==> DecodeN(dec, n, s).msg == m
    decreases n
  {
    if n > 0 && dec(s).Ok? {
      DecodeNErrorFrom(dec, m, n - 1, dec(s).value.1);
    }
  }

  /** When every element the reader returns has property `p`, so does every
      element of a successful run of reads. */
  lemma {:induction false} DecodeNEach<U>(dec: Bytes -> Result<(U, Bytes)>, p: U -> bool, n: nat, s: Bytes)
    requires forall t :: dec(t).Ok? ==> p(dec(t).value.0)
    ensures DecodeN(dec, n, s).Ok? ==> forall i | 0 <= i < |DecodeN(dec, n, s).value.0| :: p(DecodeN(dec, n, s).value.0[i])
    decreases n
  {
    if n > 0 && dec(s).Ok? {
      var (x, t) := dec(s).value;
      DecodeNEach(dec, p, n - 1, t);
      var r := DecodeN(dec, n - 1, t);
      if r.Ok? {
        var xs := [x] + r.value.0;
        assert DecodeN(dec, n, s) == Ok((xs, r.value.1));
        assert p(x);
        assert forall i | 1 <= i < |xs| :: xs[i] == r.value.0[i - 1];
      }
    }
  }

  /** Reading the elements written for `xs` rebuilds each element's `abs` and
      stops where they end. */
  lemma {:induction false} ElementsRoundTrip<T(!new), U>(c: Codec<T, U>, xs: seq<T>, rest: Bytes)
    requires Sound(c) && forall i | 0 <= i < |xs| :: c.valid(xs[i])
    ensures EncodeAll(c.enc, xs).Ok?
    ensures DecodeN(c.dec, |xs|, EncodeAll(c.enc, xs).value + rest) == Ok((MapSeq(c.abs, xs), rest))
  {
    if |xs| > 0 {
      var b := c.enc(xs[0]).value;
      var bs := EncodeAll(c.enc, xs[1..]).value;
      assert EncodeAll(c.enc, xs).value == b + bs;
      ElementsRoundTrip(c, xs[1..], rest);
      assert DecodeN(c.dec, |xs| - 1, bs + rest) == Ok((MapSeq(c.abs, xs[1..]), rest));
      assert DecodesBack(c, xs[0], bs + rest);
      assert b + bs + rest == b + (bs + rest);
      assert c.dec(b + bs + rest) == Ok((c.abs(xs[0]), bs + rest));
      assert MapSeq(c.abs, xs) == [c.abs(xs[0])] + MapSeq(c.abs, xs[1..]);
    } else if |xs| == 0 {
      assert EncodeAll(c.enc, xs).value + rest == rest;
      assert MapSeq(c.abs, xs) == [];
    }
  }

  /** A container's size has to fit the `unsigned long` it is written as. */
  predicate Countable<T>(xs: seq<T>) {
    |xs| < Pow256(8)
  }

  /** Container sizes are written as `unsigned long`, after the
      `static_cast<unsigned long>` of the container's size. */
  function LengthPrefix(n: nat): (bs: Bytes)
    ensures 2 <= |bs| <= 9 && bs[0] == |bs| - 1
    ensures FromLE(bs[1..]) == n % Pow256(8)
  {
    EncodeInt(ULong, n % Pow256(8))
  }

  lemma LengthRoundTrip(n: nat, rest: Bytes)
    requires n < Pow256(8)
    ensures DecodeInt(ULong, LengthPrefix(n) + rest) == Ok((n, rest))
  {
    IntRoundTrip(ULong, ULong, n, rest);
  }

  /** A count below 256 is written as the two bytes `0x01, n`. */
  lemma OneByteCount(n: byte, rest: Bytes)
    ensures LengthPrefix(n) == [0x01, n]
    ensures DecodeInt(ULong, [0x01, n] + rest) == Ok((n, rest))
  {
    Pow256Monotonic(1, 8);
    ModOfSmall(n, Pow256(8));
    assert Magnitude(n) == [n];
    assert EncodeInt(ULong, n) == [0x01, n];
    var s := [n] + rest;
    ControlThenRecord(ULong, 0x01, s, 1);
    assert s[..1] == [n] && s[1..] == rest;
    assert FromLE([n]) == n;
    WrapInRange(ULong, n);
    assert [0x01, n] + rest == [0x01] + s;
  }

  /** The count, then each element: the body shared by the vector, set, map,
      enumerable and C array serializers. */
  function EncodeCounted<T>(enc: T --> Result<Bytes>, xs: seq<T>): (r: Result<Bytes>)
    requires forall i | 0 <= i < |xs| :: enc.requires(xs[i])
    ensures r.Ok? <==> forall i | 0 <= i < |xs| :: enc(xs[i]).Ok?
    ensures r.Err? ==> r == EncodeAll(enc, xs)
    ensures r.Ok? && Countable(xs) ==> DecodeInt(ULong, r.value) == Ok((|xs|, EncodeAll(enc, xs).value))
  {
    match EncodeAll(enc, xs)
    case Err(m) => Err(m)
    case Ok(b) =>
      if Countable(xs) then
        LengthRoundTrip(|xs|, b);
        Ok(LengthPrefix(|xs|) + b)
      else Ok(LengthPrefix(|xs|) + b)
  }

  /** The count, then that many elements: the body shared by the vector, set
      and map deserializers. */
  function DecodeCounted<U>(dec: Bytes -> Result<(U, Bytes)>, s: Bytes): (r: Result<(seq<U>, Bytes)>)
    ensures DecodeInt(ULong, s).Err? ==> r == Err(ReadError(ULong))
    ensures r.Ok? ==> DecodeInt(ULong, s).Ok? && |r.value.0| == DecodeInt(ULong, s).value.0
  {
    match DecodeInt(ULong, s)
    case Err(m) => Err(m)
    case Ok((n, t)) => DecodeN(dec, n, t)
  }

  lemma CountedRoundTrip<T(!new), U>(c: Codec<T, U>, xs: seq<T>, rest: Bytes)
    requires Sound(c) && Countable(xs) && forall i | 0 <= i < |xs| :: c.valid(xs[i])
    ensures EncodeCounted(c.enc, xs).Ok?
    ensures DecodeCounted(c.dec, EncodeCounted(c.enc, xs).value + rest) == Ok((MapSeq(c.abs, xs), rest))
  {
    ElementsRoundTrip(c, xs, rest);
    var b := EncodeAll(c.enc, xs).value;
    LengthRoundTrip(|xs|, b + rest);
    assert LengthPrefix(|xs|) + b + rest == LengthPrefix(|xs|) + (b + rest);
  }

  /** The integral types as elements of a container. */
  function IntElement(t: IntType): Codec<int, int>
    requires ValidType(t)
  {
    Codec(v requires Encodable(t, v) => Ok(EncodeInt(t, v)), s => DecodeInt(t, s), v => Encodable(t, v), v => v)
  }

  lemma IntElementSound(t: IntType)
    requires ValidType(t)
    ensures Sound(IntElement(t))
  {
    var c := IntElement(t);
    forall v, rest | c.valid(v) ensures DecodesBack(c, v, rest) {
      IntRoundTrip(t, t, v, rest);
    }
  }
}
