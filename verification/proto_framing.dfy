/** Framing of Google Protocol Buffer messages. A message does not record
    its own length, so it is written as a 4-byte little-endian length and
    then the message's bytes. The message's own serializer and parser are
    parameters: `toBytes` (`SerializeToString`, `None` when it fails) and
    `parse` (`ParseFromString`, `None` when it rejects its input). */
module ProtoFraming {
  import opened Wire
  import opened Codec

  /** The largest length the 4-byte prefix holds (`uint32` max). */
  const MaxFrame: nat := 0xFFFF_FFFF

  lemma FrameFits()
    ensures Pow256(4) == MaxFrame + 1
  {
  }

  function WriteError(): string {
    "Error while serializing a Google Protocol Buffer object."
  }

  function TooLargeError(): string {
    "Error while serializing a Google Protocol Buffer object, message too large."
  }

  function ReadError(): string {
    "Error while deserializing a Google Protocol Buffer object."
  }

  /** The length as four little-endian bytes, then the message's bytes; a
      message that cannot be serialized, or whose bytes do not fit the
      length field, is an error. */
  function EncodeFramed<M>(toBytes: M -> Option<Bytes>, m: M): (r: Result<Bytes>)
    ensures r.Ok? <==> toBytes(m).Some? && |toBytes(m).value| <= MaxFrame
    ensures toBytes(m).None? ==> r == Err(WriteError())
    ensures toBytes(m).Some? && MaxFrame < |toBytes(m).value| ==> r == Err(TooLargeError())
    ensures r.Ok? ==> |r.value| == 4 + |toBytes(m).value|
                      && FromLE(r.value[..4]) == |toBytes(m).value|
                      && r.value[4..] == toBytes(m).value
  {
    match toBytes(m)
    case None => Err(WriteError())
    case Some(p) =>
      if MaxFrame < |p| then Err(TooLargeError())
      else
        FrameFits();
        var bs := ToLE(|p|, 4) + p;
        assert bs[..4] == ToLE(|p|, 4);
        Ok(bs)
  }

  /** The framed message as the code reads it: a missing length, a length
      of zero, fewer bytes than the length, or bytes the parser rejects are
      all the same error. */
  function DecodeFramed<M>(parse: Bytes -> Option<M>, s: Bytes): (r: Result<(M, Bytes)>)
    ensures r.Ok? <==> && 4 <= |s|
                       && 0 < FromLE(s[..4]) <= |s| - 4
                       && parse(s[4..4 + FromLE(s[..4])]).Some?
    ensures r.Ok? ==> r == Ok((parse(s[4..4 + FromLE(s[..4])]).value, s[4 + FromLE(s[..4])..]))
    ensures r.Err? ==> r.msg == ReadError()
  {
    if |s| < 4 then Err(ReadError())
    else
      var size := FromLE(s[..4]);
      if size == 0 || |s| - 4 < size then Err(ReadError())
      else
        match parse(s[4..4 + size])
        case None => Err(ReadError())
        case Some(m) => Ok((m, s[4 + size..]))
  }

  /** The same reader without the rejection of a zero length. */
  function DecodeFramedAllowEmpty<M>(parse: Bytes -> Option<M>, s: Bytes): (r: Result<(M, Bytes)>)
    ensures r.Ok? <==> && 4 <= |s|
                       && FromLE(s[..4]) <= |s| - 4
                       && parse(s[4..4 + FromLE(s[..4])]).Some?
    ensures r.Ok? ==> r == Ok((parse(s[4..4 + FromLE(s[..4])]).value, s[4 + FromLE(s[..4])..]))
    ensures r.Err? ==> r.msg == ReadError()
  {
    if |s| < 4 then Err(ReadError())
    else
      var size := FromLE(s[..4]);
      if |s| - 4 < size then Err(ReadError())
      else
        match parse(s[4..4 + size])
        case None => Err(ReadError())
        case Some(m) => Ok((m, s[4 + size..]))
  }

  /** The message library's own promise: what `toBytes` writes, `parse`
      reads back as the same message. */
  ghost predicate Faithful<M>(toBytes: M -> Option<Bytes>, parse: Bytes -> Option<M>, m: M) {
    toBytes(m).Some? && |toBytes(m).value| <= MaxFrame && parse(toBytes(m).value) == Some(m)
  }

  /** The two readers agree on every stream whose length field is not zero. */
  lemma ReadersAgreeOnNonEmpty<M>(parse: Bytes -> Option<M>, s: Bytes)
    requires 4 <= |s| && FromLE(s[..4]) != 0
    ensures DecodeFramed(parse, s) == DecodeFramedAllowEmpty(parse, s)
  {
  }

  /** The parts of a frame followed by other bytes. */
  lemma FrameParts(h: Bytes, p: Bytes, rest: Bytes)
    requires |h| == 4
    ensures var s := h + p + rest;
            s[..4] == h && s[4..4 + |p|] == p && s[4 + |p|..] == rest
  {
    var s := h + p + rest;
    assert s == h + (p + rest);
    assert s[4..] == p + rest;
  }

  lemma FrameRead<M>(toBytes: M -> Option<Bytes>, m: M, rest: Bytes)
    requires EncodeFramed(toBytes, m).Ok?
    ensures var s := EncodeFramed(toBytes, m).value + rest;
            && 4 <= |s| && FromLE(s[..4]) == |toBytes(m).value| <= |s| - 4
            && s[4..4 + |toBytes(m).value|] == toBytes(m).value
            && s[4 + |toBytes(m).value|..] == rest
  {
    var p := toBytes(m).value;
    FrameFits();
    var h := ToLE(|p|, 4);
    assert EncodeFramed(toBytes, m).value == h + p;
    FrameParts(h, p, rest);
  }

  /** Round trip through the corrected reader, empty messages included. */
  lemma FramedRoundTrip<M>(toBytes: M -> Option<Bytes>, parse: Bytes -> Option<M>, m: M, rest: Bytes)
    requires Faithful(toBytes, parse, m)
    ensures EncodeFramed(toBytes, m).Ok?
    ensures DecodeFramedAllowEmpty(parse, EncodeFramed(toBytes, m).value + rest) == Ok((m, rest))
  {
    FrameRead(toBytes, m, rest);
  }

  /** Round trip through the reader as written, for a message whose bytes
      are not empty. */
  lemma FramedRoundTripAsWritten<M>(toBytes: M -> Option<Bytes>, parse: Bytes -> Option<M>, m: M, rest: Bytes)
    requires Faithful(toBytes, parse, m) && |toBytes(m).value| > 0
    ensures EncodeFramed(toBytes, m).Ok?
    ensures DecodeFramed(parse, EncodeFramed(toBytes, m).value + rest) == Ok((m, rest))
  {
    FrameRead(toBytes, m, rest);
  }

  lemma EmptyFrame<M>(toBytes: M -> Option<Bytes>, m: M)
    requires toBytes(m) == Some([])
    ensures EncodeFramed(toBytes, m) == Ok([0, 0, 0, 0])
  {
    var z: Bytes := [0, 0, 0, 0];
    assert ToLE(0, 4) == z;
    assert z + [] == z;
  }

  /** A message whose serialization is empty (one with every field at its
      default) is written as four zero bytes, which the reader as written
      refuses. */
  lemma EmptyMessageDoesNotRoundTrip<M>(toBytes: M -> Option<Bytes>, parse: Bytes -> Option<M>, m: M, rest: Bytes)
    requires toBytes(m) == Some([]) && parse([]) == Some(m)
    ensures EncodeFramed(toBytes, m) == Ok([0, 0, 0, 0])
    ensures DecodeFramed(parse, EncodeFramed(toBytes, m).value + rest) == Err(ReadError())
    ensures DecodeFramedAllowEmpty(parse, EncodeFramed(toBytes, m).value + rest) == Ok((m, rest))
  {
    EmptyFrame(toBytes, m);
    FrameRead(toBytes, m, rest);
    var s := EncodeFramed(toBytes, m).value + rest;
    assert s[4..4] == [];
  }

  /** The framing as an element codec, read with the corrected reader. */
  function ProtoCodec<M(==)>(toBytes: M -> Option<Bytes>, parse: Bytes -> Option<M>): Codec<M, M> {
    Codec(
      (m: M) => EncodeFramed(toBytes, m),
      s => DecodeFramedAllowEmpty(parse, s),
      (m: M) => toBytes(m).Some? && |toBytes(m).value| <= MaxFrame && parse(toBytes(m).value) == Some(m),
      (m: M) => m)
  }

  lemma ProtoSound<M(!new)>(toBytes: M -> Option<Bytes>, parse: Bytes -> Option<M>)
    ensures Sound(ProtoCodec(toBytes, parse))
  {
    var c := ProtoCodec(toBytes, parse);
    forall m, rest | c.valid(m) ensures DecodesBack(c, m, rest) {
      FramedRoundTrip(toBytes, parse, m, rest);
    }
  }

  /** The framing as the code reads it: on the values it reads back, those
      whose bytes are not empty. */
  function ProtoCodecAsWritten<M(==)>(toBytes: M -> Option<Bytes>, parse: Bytes -> Option<M>): Codec<M, M> {
    Codec(
      (m: M) => EncodeFramed(toBytes, m),
      s => DecodeFramed(parse, s),
      (m: M) => && toBytes(m).Some? && 0 < |toBytes(m).value| <= MaxFrame
                && parse(toBytes(m).value) == Some(m),
      (m: M) => m)
  }

  lemma ProtoSoundAsWritten<M(!new)>(toBytes: M -> Option<Bytes>, parse: Bytes -> Option<M>)
    ensures Sound(ProtoCodecAsWritten(toBytes, parse))
  {
    var c := ProtoCodecAsWritten(toBytes, parse);
    forall m, rest | c.valid(m) ensures DecodesBack(c, m, rest) {
      FramedRoundTripAsWritten(toBytes, parse, m, rest);
    }
  }
}
