/** Byte streams, results and little-endian numbers shared by every codec.

    A stream is modelled as the immutable sequence of bytes that remain to be
    read; a decoder returns the value it read together with the bytes it left.
    A raised `serialization_error` becomes `Err` carrying the error's text.
 */
module Wire {

  /** One octet of the stream. */
  type byte = x: int | 0 <= x < 256

  type Bytes = seq<byte>

  datatype Option<+T> = None | Some(value: T)

  /** Outcome of a codec: a value, or the message of the `serialization_error` it raised. */
  datatype Result<+T> = Ok(value: T) | Err(msg: string)

  /** The catch block of a composite codec: an error raised inside it is
      re-raised with one more line naming what was being (de)serialized. */
  function Within<T>(r: Result<T>, context: string): (w: Result<T>)
    ensures w.Ok? <==> r.Ok?
    ensures r.Ok? ==> w == r
    ensures r.Err? ==> w.msg == r.msg + "\n   while " + context
  {
    match r
    case Ok(_) => r
    case Err(m) => Err(m + "\n   while " + context)
  }

  /** 256 to the power `n`: the number of values `n` bytes can hold. */
  function Pow256(n: nat): (p: nat)
    ensures p >= 1
  {
    if n == 0 then 1 else 256 * Pow256(n - 1)
  }

  lemma {:induction false} Pow256Monotonic(a: nat, b: nat)
    requires a <= b
    ensures Pow256(a) <= Pow256(b)
    decreases b
  {
    if a < b {
      Pow256Monotonic(a, b - 1);
    }
  }

  /** The number whose little-endian byte representation is `bs`. */
  function FromLE(bs: Bytes): (v: nat)
    ensures v < Pow256(|bs|)
  {
    if |bs| == 0 then 0 else bs[0] + 256 * FromLE(bs[1..])
  }

  /** The `n`-byte little-endian representation of `v`. */
  function ToLE(v: nat, n: nat): (bs: Bytes)
    requires v < Pow256(n)
    ensures |bs| == n
    ensures FromLE(bs) == v
  {
    if n == 0 then [] else [v % 256] + ToLE(v / 256, n - 1)
  }

  lemma Regroup<T>(a: seq<T>, b: seq<T>, c: seq<T>)
    ensures a + b + c == a + (b + c)
  {
  }

  function MapSeq<T, U>(f: T -> U, xs: seq<T>): (ys: seq<U>)
    ensures |ys| == |xs|
    ensures forall i | 0 <= i < |xs| :: ys[i] == f(xs[i])
  {
    seq(|xs|, i requires 0 <= i < |xs| => f(xs[i]))
  }
}
