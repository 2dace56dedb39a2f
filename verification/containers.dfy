/** The composite codecs: std::pair, std::vector, std::set, std::map,
    C arrays, std::complex, and the write-only enumerable and map_pair.
    Each delegates to its element codecs and, when one of them raises,
    re-raises with a line naming the container.
 */
module Containers {
  import opened Wire
  import opened IntCodec
  import opened Codec

  // -------------------------------------------------------------------------
  // Two values one after the other: pair, map entries, map_pair, complex

  function EncodeBoth<A, B>(ea: A --> Result<Bytes>, eb: B --> Result<Bytes>, a: A, b: B): (r: Result<Bytes>)
    requires ea.requires(a) && eb.requires(b)
    ensures r.Ok? <==> ea(a).Ok? && eb(b).Ok?
    ensures r.Err? ==> r == (if ea(a).Err? then ea(a) else eb(b))
  {
    match ea(a)
    case Err(m) => Err(m)
    case Ok(x) =>
      match eb(b)
      case Err(m) => Err(m)
      case Ok(y) => Ok(x + y)
  }

  function DecodeBoth<A, B>(da: Bytes -> Result<(A, Bytes)>, db: Bytes -> Result<(B, Bytes)>, s: Bytes): (r: Result<((A, B), Bytes)>)
    ensures r.Ok? <==> da(s).Ok? && db(da(s).value.1).Ok?
    ensures r.Ok? ==> r.value == ((da(s).value.0, db(da(s).value.1).value.0), db(da(s).value.1).value.1)
    ensures r.Err? ==> r.msg == if da(s).Err? then da(s).msg else db(da(s).value.1).msg
  {
    match da(s)
    case Err(m) => Err(m)
    case Ok((a, t)) =>
      match db(t)
      case Err(m) => Err(m)
      case Ok((b, u)) => Ok(((a, b), u))
  }

  function BothEncoder<A, B>(ea: A --> Result<Bytes>, eb: B --> Result<Bytes>): ((A, B)) --> Result<Bytes> {
    (p: (A, B)) requires ea.requires(p.0) && eb.requires(p.1) => EncodeBoth(ea, eb, p.0, p.1)
  }

  function BothDecoder<A, B>(da: Bytes -> Result<(A, Bytes)>, db: Bytes -> Result<(B, Bytes)>): Bytes -> Result<((A, B), Bytes)> {
    s => DecodeBoth(da, db, s)
  }

  /** Both halves in order, with no context of their own. */
  function Both<A, A', B, B'>(ca: Codec<A, A'>, cb: Codec<B, B'>): Codec<(A, B), (A', B')> {
    Codec(
      BothEncoder(ca.enc, cb.enc),
      BothDecoder(ca.dec, cb.dec),
      (p: (A, B)) => ca.valid(p.0) && cb.valid(p.1),
      (p: (A, B)) => (ca.abs(p.0), cb.abs(p.1)))
  }

  /** Two valid halves are written one after the other and read back in turn. */
  lemma BothDecodesBack<A(!new), A', B(!new), B'>(ca: Codec<A, A'>, cb: Codec<B, B'>, p: (A, B), rest: Bytes)
    requires Sound(ca) && Sound(cb) && ca.valid(p.0) && cb.valid(p.1)
    ensures Both(ca, cb).enc.requires(p) && Both(ca, cb).enc(p).Ok?
    ensures DecodesBack(Both(ca, cb), p, rest)
  {
    var x, y := ca.enc(p.0).value, cb.enc(p.1).value;
    assert DecodesBack(ca, p.0, y + rest);
    assert DecodesBack(cb, p.1, rest);
    assert x + y + rest == x + (y + rest);
  }

  lemma BothSound<A(!new), A', B(!new), B'>(ca: Codec<A, A'>, cb: Codec<B, B'>)
    requires Sound(ca) && Sound(cb)
    ensures Sound(Both(ca, cb))
  {
    var c := Both(ca, cb);
    forall p: (A, B) | c.valid(p) ensures c.enc.requires(p) && c.enc(p).Ok? && forall rest :: DecodesBack(c, p, rest) {
      BothDecodesBack(ca, cb, p, []);
      forall rest ensures DecodesBack(c, p, rest) {
        BothDecodesBack(ca, cb, p, rest);
      }
    }
  }

  /** A composite whose elements may fail re-raises with its own context. */
  lemma WithinSound<T(!new), U>(c: Codec<T, U>, c': Codec<T, U>, readContext: string)
    requires Sound(c)
    requires c'.valid == c.valid && c'.abs == c.abs
    requires forall v | c.valid(v) :: c'.enc.requires(v) && c.enc.requires(v) && c'.enc(v).Ok? == c.enc(v).Ok?
    requires forall v | c.valid(v) && c.enc(v).Ok? :: c'.enc(v) == c.enc(v)
    requires forall s :: c'.dec(s) == Within(c.dec(s), readContext)
    ensures Sound(c')
  {
    forall v, rest | c'.valid(v) ensures DecodesBack(c', v, rest) {
      assert DecodesBack(c, v, rest);
    }
  }

  // -------------------------------------------------------------------------
  // std::pair

  const PairWriteContext := "serializing object of type std::pair"
  const PairContext := "deserializing object of type std::pair"

  /** The first member, then the second, with nothing between them. */
  function EncodePair<A, B>(ea: A --> Result<Bytes>, eb: B --> Result<Bytes>, p: (A, B)): (r: Result<Bytes>)
    requires ea.requires(p.0) && eb.requires(p.1)
    ensures r.Ok? <==> ea(p.0).Ok? && eb(p.1).Ok?
    ensures r.Ok? ==> r.value == ea(p.0).value + eb(p.1).value
    ensures r.Err? ==> r.msg == (if ea(p.0).Err? then ea(p.0).msg else eb(p.1).msg) + "\n   while " + PairWriteContext
  {
    Within(EncodeBoth(ea, eb, p.0, p.1), PairWriteContext)
  }

  function DecodePair<A, B>(da: Bytes -> Result<(A, Bytes)>, db: Bytes -> Result<(B, Bytes)>, s: Bytes): (r: Result<((A, B), Bytes)>)
    ensures r.Ok? <==> da(s).Ok? && db(da(s).value.1).Ok?
    ensures r.Ok? ==> r.value == ((da(s).value.0, db(da(s).value.1).value.0), db(da(s).value.1).value.1)
    ensures r.Err? ==> r.msg == (if da(s).Err? then da(s).msg else db(da(s).value.1).msg) + "\n   while " + PairContext
  {
    Within(DecodeBoth(da, db, s), PairContext)
  }

  function PairCodec<A, A', B, B'>(ca: Codec<A, A'>, cb: Codec<B, B'>): Codec<(A, B), (A', B')> {
    Codec(
      (p: (A, B)) requires ca.enc.requires(p.0) && cb.enc.requires(p.1) => EncodePair(ca.enc, cb.enc, p),
      s => DecodePair(ca.dec, cb.dec, s),
      (p: (A, B)) => ca.valid(p.0) && cb.valid(p.1),
      (p: (A, B)) => (ca.abs(p.0), cb.abs(p.1)))
  }

  /** A pair reads back as the pair of what its halves read back. */
  lemma PairSound<A(!new), A', B(!new), B'>(ca: Codec<A, A'>, cb: Codec<B, B'>)
    requires Sound(ca) && Sound(cb)
    ensures Sound(PairCodec(ca, cb))
  {
    BothSound(ca, cb);
    WithinSound(Both(ca, cb), PairCodec(ca, cb), PairContext);
  }

  // -------------------------------------------------------------------------
  // std::vector<T>

  const VectorWriteContext := "serializing object of type std::vector"
  const VectorContext := "deserializing object of type std::vector"

  /** The size as an `unsigned long`, then each element in order. */
  function EncodeVector<T>(enc: T --> Result<Bytes>, xs: seq<T>): (r: Result<Bytes>)
    requires forall i | 0 <= i < |xs| :: enc.requires(xs[i])
    ensures r.Ok? <==> forall i | 0 <= i < |xs| :: enc(xs[i]).Ok?
    ensures r.Ok? && Countable(xs) ==> DecodeInt(ULong, r.value) == Ok((|xs|, EncodeAll(enc, xs).value))
    ensures r.Err? ==> r.msg == EncodeAll(enc, xs).msg + "\n   while " + VectorWriteContext
  {
    Within(EncodeCounted(enc, xs), VectorWriteContext)
  }

  /** The size, then that many elements read in turn into the resized vector. */
  function DecodeVector<U>(dec: Bytes -> Result<(U, Bytes)>, s: Bytes): (r: Result<(seq<U>, Bytes)>)
    ensures DecodeInt(ULong, s).Err? ==> r == Err(ReadError(ULong) + "\n   while " + VectorContext)
    ensures DecodeInt(ULong, s).Ok? ==>
              var (n, t) := DecodeInt(ULong, s).value;
              && (r.Ok? ==> r == DecodeN(dec, n, t) && |r.value.0| == n)
              && (r.Err? ==> DecodeN(dec, n, t).Err? && r.msg == DecodeN(dec, n, t).msg + "\n   while " + VectorContext)
  {
    Within(DecodeCounted(dec, s), VectorContext)
  }

  function VectorCodec<T, U>(c: Codec<T, U>): Codec<seq<T>, seq<U>> {
    Codec(
      xs requires forall i | 0 <= i < |xs| :: c.enc.requires(xs[i]) => EncodeVector(c.enc, xs),
      s => DecodeVector(c.dec, s),
      xs => Countable(xs) && forall i | 0 <= i < |xs| :: c.valid(xs[i]),
      xs => MapSeq(c.abs, xs))
  }

  /** A vector reads back element by element, in order. */
  lemma VectorRoundTrip<T(!new), U>(c: Codec<T, U>, xs: seq<T>, rest: Bytes)
    requires Sound(c) && Countable(xs) && forall i | 0 <= i < |xs| :: c.valid(xs[i])
    ensures EncodeVector(c.enc, xs).Ok?
    ensures DecodeVector(c.dec, EncodeVector(c.enc, xs).value + rest) == Ok((MapSeq(c.abs, xs), rest))
  {
    CountedRoundTrip(c, xs, rest);
  }

  /** The vector codec on one valid vector: it writes, and reads back. */
  lemma VectorDecodesBack<T(!new), U>(c: Codec<T, U>, xs: seq<T>, rest: Bytes)
    requires Sound(c) && VectorCodec(c).valid(xs)
    ensures VectorCodec(c).enc.requires(xs) && VectorCodec(c).enc(xs).Ok?
    ensures DecodesBack(VectorCodec(c), xs, rest)
  {
    assert forall i | 0 <= i < |xs| :: c.valid(xs[i]);
    VectorRoundTrip(c, xs, rest);
  }

  lemma VectorSound<T(!new), U>(c: Codec<T, U>)
    requires Sound(c)
    ensures Sound(VectorCodec(c))
  {
    var vc := VectorCodec(c);
    forall xs | vc.valid(xs) ensures vc.enc.requires(xs) && vc.enc(xs).Ok? && forall rest :: DecodesBack(vc, xs, rest) {
      VectorDecodesBack(c, xs, []);
      forall rest ensures DecodesBack(vc, xs, rest) {
        VectorDecodesBack(c, xs, rest);
      }
    }
  }

  /** The root cause stays in front: when the count reads but the first
      element does not, the vector's error is the element's message plus one
      line naming the vector. */
  lemma VectorReportsElementError<U>(dec: Bytes -> Result<(U, Bytes)>, s: Bytes, n: nat, t: Bytes, m: string)
    requires DecodeInt(ULong, s) == Ok((n, t)) && 1 <= n && dec(t) == Err(m)
    ensures DecodeVector(dec, s) == Err(m + "\n   while " + VectorContext)
  {
    assert DecodeN(dec, n, t) == Err(m);
    assert DecodeCounted(dec, s) == Err(m);
  }

  /** Nested containers stack their lines: an `int` too wide for its type,
      inside a `vector<vector<int>>`, reports the `int` first and then each
      enclosing vector, innermost first. */
  lemma NestedErrorTrace()
    ensures DecodeVector(VectorCodec(IntElement(Int)).dec, [0x01, 0x01, 0x01, 0x01, 0x05, 1, 2, 3, 4, 5]) ==
              Err(ReadError(Int) + "\n   while " + VectorContext
                                 + "\n   while " + VectorContext)
  {
    var u: Bytes := [0x05, 1, 2, 3, 4, 5];
    var t: Bytes := [0x01, 0x01] + u;
    var s: Bytes := [0x01, 0x01] + t;
    assert s == [0x01, 0x01, 0x01, 0x01, 0x05, 1, 2, 3, 4, 5];
    OneByteCount(1, t);
    OneByteCount(1, u);
    assert Count(Int, 0x05) == 5;
    assert DecodeInt(Int, u) == Err(ReadError(Int));
    var inner := VectorCodec(IntElement(Int)).dec;
    VectorReportsElementError(IntElement(Int).dec, t, 1, u, ReadError(Int));
    assert inner(t) == Err(ReadError(Int) + "\n   while " + VectorContext);
    VectorReportsElementError(inner, s, 1, t, ReadError(Int) + "\n   while " + VectorContext);
  }

  // -------------------------------------------------------------------------
  // std::set

  /** The elements of `xs`, with duplicates merged: what inserting them one by
      one into an empty set gives. */
  function ToSet<U>(xs: seq<U>): (r: set<U>)
    ensures forall i | 0 <= i < |xs| :: xs[i] in r
    ensures forall u | u in r :: exists i | 0 <= i < |xs| :: xs[i] == u
  {
    set i | 0 <= i < |xs| :: xs[i]
  }

  /** Inserting `n` elements gives a set of at most `n` elements. */
  lemma {:induction false} ToSetSize<U>(xs: seq<U>)
    ensures |ToSet(xs)| <= |xs|
  {
    if |xs| > 0 {
      ToSetSize(xs[..|xs| - 1]);
      assert ToSet(xs) == ToSet(xs[..|xs| - 1]) + {xs[|xs| - 1]};
    }
  }

  const SetWriteContext := "serializing object of type std::set"
  const SetContext := "deserializing object of type std::set"

  /** `elems` is the set in iteration order: the size, then each element. */
  function EncodeSet<T>(enc: T --> Result<Bytes>, elems: seq<T>): (r: Result<Bytes>)
    requires forall i | 0 <= i < |elems| :: enc.requires(elems[i])
    ensures r.Ok? <==> forall i | 0 <= i < |elems| :: enc(elems[i]).Ok?
    ensures r.Ok? && Countable(elems) ==> DecodeInt(ULong, r.value) == Ok((|elems|, EncodeAll(enc, elems).value))
    ensures r.Err? ==> r.msg == EncodeAll(enc, elems).msg + "\n   while " + SetWriteContext
  {
    Within(EncodeCounted(enc, elems), SetWriteContext)
  }

  /** The set is cleared, then each element read is inserted. */
  function DecodeSet<U>(dec: Bytes -> Result<(U, Bytes)>, s: Bytes): (r: Result<(set<U>, Bytes)>)
    ensures DecodeInt(ULong, s).Err? ==> r == Err(ReadError(ULong) + "\n   while " + SetContext)
    ensures DecodeInt(ULong, s).Ok? ==>
              var (n, t) := DecodeInt(ULong, s).value;
              && (r.Ok? <==> DecodeN(dec, n, t).Ok?)
              && (r.Ok? ==> r.value == (ToSet(DecodeN(dec, n, t).value.0), DecodeN(dec, n, t).value.1) && |r.value.0| <= n)
              && (r.Err? ==> r.msg == DecodeN(dec, n, t).msg + "\n   while " + SetContext)
  {
    var r: Result<(seq<U>, Bytes)> := Within(DecodeCounted(dec, s), SetContext);
    match r
    case Err(m) => Err(m)
    case Ok((xs, t)) => ToSetSize(xs); Ok((ToSet(xs), t))
  }

  function SetCodec<T, U>(c: Codec<T, U>): Codec<seq<T>, set<U>> {
    Codec(
      xs requires forall i | 0 <= i < |xs| :: c.enc.requires(xs[i]) => EncodeSet(c.enc, xs),
      s => DecodeSet(c.dec, s),
      xs => Countable(xs) && forall i | 0 <= i < |xs| :: c.valid(xs[i]),
      xs => ToSet(MapSeq(c.abs, xs)))
  }

  /** A set written from its elements in iteration order reads back as the
      set of those elements. */
  lemma SetRoundTrip<T(!new), U>(c: Codec<T, U>, xs: seq<T>, rest: Bytes)
    requires Sound(c) && Countable(xs) && forall i | 0 <= i < |xs| :: c.valid(xs[i])
    ensures EncodeSet(c.enc, xs).Ok?
    ensures DecodeSet(c.dec, EncodeSet(c.enc, xs).value + rest) == Ok((ToSet(MapSeq(c.abs, xs)), rest))
  {
    CountedRoundTrip(c, xs, rest);
  }

  /** The set codec on one valid element sequence: it writes, and reads back. */
  lemma SetDecodesBack<T(!new), U>(c: Codec<T, U>, xs: seq<T>, rest: Bytes)
    requires Sound(c) && SetCodec(c).valid(xs)
    ensures SetCodec(c).enc.requires(xs) && SetCodec(c).enc(xs).Ok?
    ensures DecodesBack(SetCodec(c), xs, rest)
  {
    assert forall i | 0 <= i < |xs| :: c.valid(xs[i]);
    SetRoundTrip(c, xs, rest);
  }

  lemma SetSound<T(!new), U>(c: Codec<T, U>)
    requires Sound(c)
    ensures Sound(SetCodec(c))
  {
    var sc := SetCodec(c);
    forall xs | sc.valid(xs) ensures sc.enc.requires(xs) && sc.enc(xs).Ok? && forall rest :: DecodesBack(sc, xs, rest) {
      SetDecodesBack(c, xs, []);
      forall rest ensures DecodesBack(sc, xs, rest) {
        SetDecodesBack(c, xs, rest);
      }
    }
  }

  // -------------------------------------------------------------------------
  // std::map

  /** The map built by `item[d] = r` for each entry in turn, starting empty. */
  function BuildMap<K, V>(es: seq<(K, V)>): (r: map<K, V>)
    ensures forall i | 0 <= i < |es| :: es[i].0 in r
    ensures forall k | k in r :: exists i | 0 <= i < |es| :: es[i].0 == k
  {
    if |es| == 0 then map[] else BuildMap(es[..|es| - 1])[es[|es| - 1].0 := es[|es| - 1].1]
  }

  /** A later entry for a key overwrites every earlier one. */
  lemma {:induction false} LastEntryWins<K, V>(es: seq<(K, V)>, i: nat)
    requires i < |es|
    requires forall j | i < j < |es| :: es[j].0 != es[i].0
    ensures BuildMap(es)[es[i].0] == es[i].1
  {
    if i < |es| - 1 {
      LastEntryWins(es[..|es| - 1], i);
    }
  }

  /** With distinct keys, as a std::map has, each key maps to its own value. */
  lemma DistinctKeysKept<K, V>(es: seq<(K, V)>)
    requires forall i, j | 0 <= i < j < |es| :: es[i].0 != es[j].0
    ensures forall i | 0 <= i < |es| :: BuildMap(es)[es[i].0] == es[i].1
  {
    forall i | 0 <= i < |es| ensures BuildMap(es)[es[i].0] == es[i].1 {
      LastEntryWins(es, i);
    }
  }

  const MapWriteContext := "serializing object of type std::map"
  const MapContext := "deserializing object of type std::map"

  /** `entries` is the map in iteration order: the size, then each key
      followed by its value. */
  function EncodeMap<K, V>(ek: K --> Result<Bytes>, ev: V --> Result<Bytes>, entries: seq<(K, V)>): (r: Result<Bytes>)
    requires forall i | 0 <= i < |entries| :: ek.requires(entries[i].0) && ev.requires(entries[i].1)
    ensures r.Ok? <==> forall i | 0 <= i < |entries| :: ek(entries[i].0).Ok? && ev(entries[i].1).Ok?
    ensures r.Ok? && Countable(entries) ==>
              DecodeInt(ULong, r.value) == Ok((|entries|, EncodeAll(BothEncoder(ek, ev), entries).value))
    ensures r.Err? ==> r.msg == EncodeAll(BothEncoder(ek, ev), entries).msg + "\n   while " + MapWriteContext
  {
    var r := EncodeCounted(BothEncoder(ek, ev), entries);
    assert r.Ok? <==> forall i | 0 <= i < |entries| :: ek(entries[i].0).Ok? && ev(entries[i].1).Ok? by {
      assert forall i | 0 <= i < |entries| :: BothEncoder(ek, ev)(entries[i]) == EncodeBoth(ek, ev, entries[i].0, entries[i].1);
    }
    Within(r, MapWriteContext)
  }

  /** The map is cleared; each key and value read is then stored with `item[d] = r`. */
  function DecodeMap<K, V>(dk: Bytes -> Result<(K, Bytes)>, dv: Bytes -> Result<(V, Bytes)>, s: Bytes): (r: Result<(map<K, V>, Bytes)>)
    ensures DecodeInt(ULong, s).Err? ==> r == Err(ReadError(ULong) + "\n   while " + MapContext)
    ensures DecodeInt(ULong, s).Ok? ==>
              var (n, t) := DecodeInt(ULong, s).value;
              var es := DecodeN(BothDecoder(dk, dv), n, t);
              && (r.Ok? <==> es.Ok?)
              && (r.Ok? ==> r.value == (BuildMap(es.value.0), es.value.1))
              && (r.Err? ==> r.msg == es.msg + "\n   while " + MapContext)
  {
    var r: Result<(seq<(K, V)>, Bytes)> := Within(DecodeCounted(BothDecoder(dk, dv), s), MapContext);
    match r
    case Err(m) => Err(m)
    case Ok((es, t)) => Ok((BuildMap(es), t))
  }

  function MapCodec<K, K', V, V'>(ck: Codec<K, K'>, cv: Codec<V, V'>): Codec<seq<(K, V)>, map<K', V'>> {
    Codec(
      (es: seq<(K, V)>) requires forall i | 0 <= i < |es| :: ck.enc.requires(es[i].0) && cv.enc.requires(es[i].1)
        => EncodeMap(ck.enc, cv.enc, es),
      s => DecodeMap(ck.dec, cv.dec, s),
      (es: seq<(K, V)>) => Countable(es) && forall i | 0 <= i < |es| :: ck.valid(es[i].0) && cv.valid(es[i].1),
      (es: seq<(K, V)>) => BuildMap(MapSeq(Both(ck, cv).abs, es)))
  }

  /** A map written from its entries reads back as the map those entries
      build, key by key in the order written. */
  lemma MapRoundTrip<K(!new), K', V(!new), V'>(ck: Codec<K, K'>, cv: Codec<V, V'>, es: seq<(K, V)>, rest: Bytes)
    requires Sound(ck) && Sound(cv) && Countable(es)
    requires forall i | 0 <= i < |es| :: ck.valid(es[i].0) && cv.valid(es[i].1)
    ensures EncodeMap(ck.enc, cv.enc, es).Ok?
    ensures DecodeMap(ck.dec, cv.dec, EncodeMap(ck.enc, cv.enc, es).value + rest)
              == Ok((BuildMap(MapSeq(Both(ck, cv).abs, es)), rest))
  {
    var bc := Both(ck, cv);
    BothSound(ck, cv);
    assert forall i | 0 <= i < |es| :: bc.valid(es[i]);
    CountedRoundTrip(bc, es, rest);
  }

  /** The map codec on one valid sequence of entries: it writes, and reads
      back the map the entries build. */
  lemma MapDecodesBack<K(!new), K', V(!new), V'>(ck: Codec<K, K'>, cv: Codec<V, V'>, es: seq<(K, V)>, rest: Bytes)
    requires Sound(ck) && Sound(cv) && MapCodec(ck, cv).valid(es)
    ensures MapCodec(ck, cv).enc.requires(es) && MapCodec(ck, cv).enc(es).Ok?
    ensures DecodesBack(MapCodec(ck, cv), es, rest)
  {
    var mc := MapCodec(ck, cv);
    assert forall i | 0 <= i < |es| :: ck.enc.requires(es[i].0) && cv.enc.requires(es[i].1);
    assert mc.enc(es) == EncodeMap(ck.enc, cv.enc, es);
    MapRoundTrip(ck, cv, es, rest);
    var b := EncodeMap(ck.enc, cv.enc, es).value;
    assert mc.dec(b + rest) == DecodeMap(ck.dec, cv.dec, b + rest);
  }

  lemma MapSound<K(!new), K', V(!new), V'>(ck: Codec<K, K'>, cv: Codec<V, V'>)
    requires Sound(ck) && Sound(cv)
    ensures Sound(MapCodec(ck, cv))
  {
    var mc := MapCodec(ck, cv);
    forall es: seq<(K, V)> | mc.valid(es) ensures mc.enc.requires(es) && mc.enc(es).Ok? && forall rest :: DecodesBack(mc, es, rest) {
      MapDecodesBack(ck, cv, es, []);
      forall rest ensures DecodesBack(mc, es, rest) {
        MapDecodesBack(ck, cv, es, rest);
      }
    }
  }

  // -------------------------------------------------------------------------
  // C arrays

  const ArrayWriteContext := "serializing a C style array"

  /** The array's length (a `size_t`), then each element. */
  function EncodeArray<T>(enc: T --> Result<Bytes>, xs: seq<T>): (r: Result<Bytes>)
    requires forall i | 0 <= i < |xs| :: enc.requires(xs[i])
    ensures r.Ok? <==> forall i | 0 <= i < |xs| :: enc(xs[i]).Ok?
    ensures r.Ok? && Countable(xs) ==> DecodeInt(ULong, r.value) == Ok((|xs|, EncodeAll(enc, xs).value))
    ensures r.Err? ==> r.msg == EncodeAll(enc, xs).msg + "\n   while " + ArrayWriteContext
  {
    Within(EncodeCounted(enc, xs), ArrayWriteContext)
  }

  const ArrayReadContext := "deserializing a C style array"

  function LengthMismatch(): string {
    "Error deserializing a C style array, lengths do not match"
  }

  /** Reads into an array of `length` elements: the elements are read only
      when the count read equals `length`, otherwise nothing more is read and
      the lengths are reported as not matching. */
  function DecodeArray<U>(dec: Bytes -> Result<(U, Bytes)>, length: nat, s: Bytes): (r: Result<(seq<U>, Bytes)>)
    ensures r.Ok? ==> |r.value.0| == length
    ensures DecodeInt(ULong, s).Err? ==> r == Err(ReadError(ULong) + "\n   while " + ArrayReadContext)
    ensures DecodeInt(ULong, s).Ok? && DecodeInt(ULong, s).value.0 != length ==> r == Err(LengthMismatch())
  {
    var r: Result<(int, Bytes)> := Within(DecodeInt(ULong, s), ArrayReadContext);
    match r
    case Err(m) => Err(m)
    case Ok((n, t)) =>
      if n == length then Within(DecodeN(dec, length, t), ArrayReadContext)
      else Err(LengthMismatch())
  }

  /** An array record read into an array of `length` elements: the count
      read is the array's own size, so the elements are read exactly when
      that size is `length`. */
  lemma ArrayFromElements<T, U>(enc: T --> Result<Bytes>, dec: Bytes -> Result<(U, Bytes)>, xs: seq<T>, length: nat, rest: Bytes)
    requires Countable(xs) && forall i | 0 <= i < |xs| :: enc.requires(xs[i])
    requires EncodeAll(enc, xs).Ok?
    ensures EncodeArray(enc, xs).Ok?
    ensures var b := EncodeAll(enc, xs).value;
            DecodeArray(dec, length, EncodeArray(enc, xs).value + rest) ==
              if |xs| == length then Within(DecodeN(dec, length, b + rest), ArrayReadContext) else Err(LengthMismatch())
  {
    ArrayWritten(enc, xs, rest);
    ArrayRecordRead(dec, length, |xs|, EncodeAll(enc, xs).value + rest);
  }

  /** A record whose count is `n`, read into an array of `length` elements. */
  lemma ArrayRecordRead<U>(dec: Bytes -> Result<(U, Bytes)>, length: nat, n: nat, t: Bytes)
    requires n < Pow256(8)
    ensures DecodeArray(dec, length, LengthPrefix(n) + t) ==
              if n == length then Within(DecodeN(dec, length, t), ArrayReadContext) else Err(LengthMismatch())
  {
    LengthRoundTrip(n, t);
  }

  /** An array whose elements all write is written as its size, then its elements. */
  lemma ArrayWritten<T>(enc: T --> Result<Bytes>, xs: seq<T>, rest: Bytes)
    requires forall i | 0 <= i < |xs| :: enc.requires(xs[i])
    requires EncodeAll(enc, xs).Ok?
    ensures EncodeArray(enc, xs) == Ok(LengthPrefix(|xs|) + EncodeAll(enc, xs).value)
    ensures EncodeArray(enc, xs).value + rest == LengthPrefix(|xs|) + (EncodeAll(enc, xs).value + rest)
  {
    var h, b := LengthPrefix(|xs|), EncodeAll(enc, xs).value;
    Regroup(h, b, rest);
    assert EncodeArray(enc, xs) == Ok(h + b);
  }

  function ArrayCodec<T, U>(c: Codec<T, U>, length: nat): Codec<seq<T>, seq<U>> {
    Codec(
      (xs: seq<T>) requires forall i | 0 <= i < |xs| :: c.enc.requires(xs[i]) => EncodeArray(c.enc, xs),
      s => DecodeArray(c.dec, length, s),
      (xs: seq<T>) => |xs| == length && Countable(xs) && forall i | 0 <= i < |xs| :: c.valid(xs[i]),
      xs => MapSeq(c.abs, xs))
  }

  /** An array reads back into an array of its own length. */
  lemma ArrayRoundTrip<T(!new), U>(c: Codec<T, U>, xs: seq<T>, rest: Bytes)
    requires Sound(c) && Countable(xs)
    requires forall i | 0 <= i < |xs| :: c.valid(xs[i])
    ensures EncodeArray(c.enc, xs).Ok?
    ensures DecodeArray(c.dec, |xs|, EncodeArray(c.enc, xs).value + rest) == Ok((MapSeq(c.abs, xs), rest))
  {
    ElementsRoundTrip(c, xs, rest);
    ArrayFromElements(c.enc, c.dec, xs, |xs|, rest);
  }

  /** The array codec on one valid array: it writes, and reads back. */
  lemma ArrayDecodesBack<T(!new), U>(c: Codec<T, U>, length: nat, xs: seq<T>, rest: Bytes)
    requires Sound(c) && ArrayCodec(c, length).valid(xs)
    ensures ArrayCodec(c, length).enc.requires(xs) && ArrayCodec(c, length).enc(xs).Ok?
    ensures DecodesBack(ArrayCodec(c, length), xs, rest)
  {
    assert forall i | 0 <= i < |xs| :: c.valid(xs[i]);
    ArrayRoundTrip(c, xs, rest);
  }

  lemma ArraySound<T(!new), U>(c: Codec<T, U>, length: nat)
    requires Sound(c)
    ensures Sound(ArrayCodec(c, length))
  {
    var ac := ArrayCodec(c, length);
    forall xs | ac.valid(xs) ensures ac.enc.requires(xs) && ac.enc(xs).Ok? && forall rest :: DecodesBack(ac, xs, rest) {
      ArrayDecodesBack(c, length, xs, []);
      forall rest ensures DecodesBack(ac, xs, rest) {
        ArrayDecodesBack(c, length, xs, rest);
      }
    }
  }

  /** An array written with one length and read into an array of another
      length fails, whatever its elements. */
  lemma ArrayLengthEnforced<T(!new), U>(c: Codec<T, U>, xs: seq<T>, length: nat, rest: Bytes)
    requires Sound(c) && Countable(xs) && |xs| != length
    requires forall i | 0 <= i < |xs| :: c.valid(xs[i])
    ensures EncodeArray(c.enc, xs).Ok?
    ensures DecodeArray(c.dec, length, EncodeArray(c.enc, xs).value + rest) == Err(LengthMismatch())
  {
    assert forall i | 0 <= i < |xs| :: c.enc(xs[i]).Ok?;
    ArrayFromElements(c.enc, c.dec, xs, length, rest);
  }

  // -------------------------------------------------------------------------
  // std::complex<T>: real part, then imaginary part

  datatype Complex<T> = Complex(re: T, im: T)

  const ComplexWriteContext := "serializing an object of type std::complex"
  const ComplexContext := "deserializing an object of type std::complex"

  function EncodeComplex<T>(enc: T --> Result<Bytes>, z: Complex<T>): (r: Result<Bytes>)
    requires enc.requires(z.re) && enc.requires(z.im)
    ensures r.Ok? <==> enc(z.re).Ok? && enc(z.im).Ok?
    ensures r.Ok? ==> r.value == enc(z.re).value + enc(z.im).value
    ensures r.Err? ==> r.msg == (if enc(z.re).Err? then enc(z.re).msg else enc(z.im).msg) + "\n   while " + ComplexWriteContext
  {
    Within(EncodeBoth(enc, enc, z.re, z.im), ComplexWriteContext)
  }

  /** The real part, then the imaginary part; the result is built only when both read. */
  function DecodeComplex<U>(dec: Bytes -> Result<(U, Bytes)>, s: Bytes): (r: Result<(Complex<U>, Bytes)>)
    ensures r.Ok? <==> dec(s).Ok? && dec(dec(s).value.1).Ok?
    ensures r.Ok? ==> r.value == (Complex(dec(s).value.0, dec(dec(s).value.1).value.0), dec(dec(s).value.1).value.1)
    ensures r.Err? ==> r.msg == (if dec(s).Err? then dec(s).msg else dec(dec(s).value.1).msg) + "\n   while " + ComplexContext
  {
    var r: Result<((U, U), Bytes)> := Within(DecodeBoth(dec, dec, s), ComplexContext);
    match r
    case Err(m) => Err(m)
    case Ok((p, t)) => Ok((Complex(p.0, p.1), t))
  }

  function ComplexCodec<T, U>(c: Codec<T, U>): Codec<Complex<T>, Complex<U>> {
    Codec(
      (z: Complex<T>) requires c.enc.requires(z.re) && c.enc.requires(z.im) => EncodeComplex(c.enc, z),
      s => DecodeComplex(c.dec, s),
      (z: Complex<T>) => c.valid(z.re) && c.valid(z.im),
      (z: Complex<T>) => Complex(c.abs(z.re), c.abs(z.im)))
  }

  lemma ComplexSound<T(!new), U>(c: Codec<T, U>)
    requires Sound(c)
    ensures Sound(ComplexCodec(c))
  {
    var cc := ComplexCodec(c);
    var bc := Both(c, c);
    BothSound(c, c);
    forall z, rest | cc.valid(z) ensures DecodesBack(cc, z, rest) {
      assert DecodesBack(bc, (z.re, z.im), rest);
    }
  }

  // -------------------------------------------------------------------------
  // Write-only codecs: enumerable and map_pair are read back by other types

  const EnumerableWriteContext := "serializing object of type enumerable"

  /** An enumerable container, as the sequence its cursor visits: its size,
      then each element. */
  function EncodeEnumerable<T>(enc: T --> Result<Bytes>, xs: seq<T>): (r: Result<Bytes>)
    requires forall i | 0 <= i < |xs| :: enc.requires(xs[i])
    ensures r.Ok? <==> forall i | 0 <= i < |xs| :: enc(xs[i]).Ok?
    ensures r.Ok? && Countable(xs) ==> DecodeInt(ULong, r.value) == Ok((|xs|, EncodeAll(enc, xs).value))
    ensures r.Err? ==> r.msg == EncodeAll(enc, xs).msg + "\n   while " + EnumerableWriteContext
  {
    Within(EncodeCounted(enc, xs), EnumerableWriteContext)
  }

  /** What an enumerable writes reads back as a std::vector of its elements. */
  lemma EnumerableReadsAsVector<T(!new), U>(c: Codec<T, U>, xs: seq<T>, rest: Bytes)
    requires Sound(c) && Countable(xs) && forall i | 0 <= i < |xs| :: c.valid(xs[i])
    ensures EncodeEnumerable(c.enc, xs).Ok?
    ensures DecodeVector(c.dec, EncodeEnumerable(c.enc, xs).value + rest) == Ok((MapSeq(c.abs, xs), rest))
  {
    CountedRoundTrip(c, xs, rest);
  }

  const MapPairWriteContext := "serializing object of type map_pair"

  /** The key, then the value. */
  function EncodeMapPair<K, V>(ek: K --> Result<Bytes>, ev: V --> Result<Bytes>, key: K, value: V): (r: Result<Bytes>)
    requires ek.requires(key) && ev.requires(value)
    ensures r.Ok? <==> ek(key).Ok? && ev(value).Ok?
    ensures r.Ok? ==> r.value == ek(key).value + ev(value).value
    ensures r.Err? ==> r.msg == (if ek(key).Err? then ek(key).msg else ev(value).msg) + "\n   while " + MapPairWriteContext
  {
    Within(EncodeBoth(ek, ev, key, value), MapPairWriteContext)
  }

  /** What a map_pair writes reads back as a std::pair of its key and value. */
  lemma MapPairReadsAsPair<K(!new), K', V(!new), V'>(ck: Codec<K, K'>, cv: Codec<V, V'>, key: K, value: V, rest: Bytes)
    requires Sound(ck) && Sound(cv) && ck.valid(key) && cv.valid(value)
    ensures EncodeMapPair(ck.enc, cv.enc, key, value).Ok?
    ensures DecodePair(ck.dec, cv.dec, EncodeMapPair(ck.enc, cv.enc, key, value).value + rest)
              == Ok(((ck.abs(key), cv.abs(value)), rest))
  {
    BothSound(ck, cv);
    assert DecodesBack(Both(ck, cv), (key, value), rest);
  }
}
