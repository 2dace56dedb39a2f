# dlib serialization format, modelled in Dafny

This project models the binary format of dlib's `serialize` / `deserialize`
overloads in `dlib/serialize.h`, and proves what the header promises about it.
The header promises that `deserialize` rebuilds a copy of what `serialize` wrote.
It also promises that `deserialize` reads that object's bytes "and no more", so
that objects written one after another can be read back one after another.

A stream is an immutable `seq<byte>`. Each encoder is a pure function from a
value to bytes. Each decoder is a pure function from bytes to a `Result`: either
the value read together with the bytes left over, or `Err` with the text of the
`serialization_error` the C++ code would throw.

Modules, in dependency order:

- `Wire` (wire.dfy): bytes, `Result`, little-endian numbers, and `Within`. `Within` is
  the `catch` block that appends "\n   while …" to a message.
- `IntCodec` (int_codec.dfy): `pack_int` / `unpack_int`. One codec covers every
  integral type. A type is described by its name, its byte width (1..8) and its
  signedness.
- `Scalars` (scalars.dfy): `pack_byte` / `unpack_byte` for the char types, and
  `bool`.
- `Codec` (codec.dfy): the `Codec` record, which pairs an encoder with a decoder.
  It also defines `Sound`, the header's promise for a type: every value the
  codec is specified on can be written, and reads back from exactly its own
  bytes. The module holds the two loops all counted containers share.
- `Containers` (containers.dfy): `std::pair`, `std::vector<T>`, `std::set`,
  `std::map`, C arrays, `std::complex`, `enumerable` and `map_pair`. Each
  container is built on its element codecs, and each comes with a lemma saying
  that it is sound whenever its elements are.
- `Buffers` (buffers.dfy): `std::vector<char>`, `std::vector<unsigned char>`,
  `std::vector<bool>`, `std::string`, `std::wstring` and `ustring`.
- `ProtoFraming` (proto_framing.dfy): the 4-byte length framing around Google
  Protocol Buffer messages. The message library's serializer and parser are
  function parameters.

The platform is LP64 Linux:

- `long`, `unsigned long` and `size_t` are 8 bytes.
- `wchar_t` is a signed 4-byte type.
- Plain `char` is signed.
- `unichar` is `uint32`, i.e. `unsigned int`. Its error messages name that type.

Two details of the code shape the format:

- `pack_int` writes a magnitude byte before it tests for zero
  (dlib/serialize.h:186-191). So zero is written as `[0x01, 0x00]`, a count of
  one and a zero byte.
- A C array reads its elements only when the stored length equals the
  array's length (dlib/serialize.h:1140-1152). Otherwise only the count is
  consumed before the "lengths do not match" error.

## Model

| member | source | states |
|---|---|---|
| Wire.Within | dlib/serialize.h:697-710 | The wrapped error fails exactly when the inner one does. The inner message stays as a prefix, followed by "\n   while " and the context. A success passes through unchanged. |
| Wire.ToLE | dlib/serialize.h:1248-1251 | n little-endian bytes whose value is v, for any v below 256^n. |
| IntCodec.EncodeInt | dlib/serialize.h:155-202 | For every value of the type except the minimum of a 4- or 8-byte signed type: control byte = count + 0x80 if negative. Then the count bytes hold abs(v) little-endian. The count is at least 1 and at most the width, and it is the smallest count that holds abs(v). |
| IntCodec.Magnitude | dlib/serialize.h:186-191 | At least one byte, so zero is one zero byte. The bytes read back little-endian as the value, and the last one is nonzero unless it is the only one. MagnitudeShape adds that the count is the least that holds the value. |
| IntCodec.MagnitudeShape | dlib/serialize.h:186-191 | For a value below 256^w, the loop stops within w bytes, and the number of bytes it writes is the least that holds the value. |
| IntCodec.LongRecordOfIntMinimum | dlib/serialize.h:174-191 | `long` writes -2^31 as `[0x84, 0x00, 0x00, 0x00, 0x80]`: count four, sign bit, then the bytes of 2^31. |
| IntCodec.IntMinimumRead | dlib/serialize.h:264-274 | `int` reads that record as its most negative value, the two's-complement result of the overflowing negation. |
| IntCodec.ShortMinimumRoundTrip | dlib/serialize.h:174-191 | -32768 as `short` is negated in `int` and converted back. It is written as `[0x82, 0x00, 0x80]`, which reads back as -32768. |
| IntCodec.MagnitudeFits | dlib/serialize.h:186-191 | The magnitude loop emits at most w bytes exactly when the value is below 256^w. |
| IntCodec.CountFitsIffMagnitudeFits | dlib/serialize.h:186-194 | A record's count fits a width exactly when the value's magnitude is below 256^width. |
| IntCodec.DecodeInt | dlib/serialize.h:207-278 | Succeeds exactly when a control byte is present, its count (mask 0x0F signed, 0x8F unsigned) is between 1 and the width, and that many bytes follow. The value is in the type's range. Exactly 1 + count bytes are consumed. Every failure carries "Error deserializing object of type <T>". |
| IntCodec.Count | dlib/serialize.h:246-250 | The count a signed reader takes is the control byte's low four bits. The unsigned reader (line 364, mask 0x8F) adds 128 exactly when the sign bit is set, so every count it takes from a negative record exceeds any width. |
| IntCodec.Wrap | dlib/serialize.h:264-274 | Storing a value into an integral type gives a value in that type's range. WrapCongruent fixes which one. |
| IntCodec.WrapCongruent | dlib/serialize.h:264-274 | The stored value differs from the computed one by a multiple of 256^width. Together with Wrap's range, this is the unique two's-complement (or modular) conversion. |
| IntCodec.ControlCount | dlib/serialize.h:360-368 | A decoder reads the count back from the control byte exactly when the decoder is signed or the value was non-negative. |
| IntCodec.AcceptsIffCountFits | dlib/serialize.h:246-262 | When the decoder reads back the count written, it accepts the record exactly when that count is at most its width. |
| IntCodec.IntRoundTrip | dlib/serialize.h:224-278 | A value packed from any integral type reads back unchanged from exactly its own bytes into any type whose range holds it. |
| IntCodec.UnsignedTargetAcceptsIffInRange | dlib/serialize.h:360-368 | An unsigned target accepts a packed value exactly when the value is in its range. Negative values and too-wide values are both rejected. |
| IntCodec.SignedTargetAcceptsIffMagnitudeFits | dlib/serialize.h:250-256 | A signed target accepts a packed value exactly when abs(v) fits in its byte width. This is a byte-count check, not a range check. |
| IntCodec.SignedTargetWraps | dlib/serialize.h:264-274 | 40000 written as `unsigned short` reads as `short` -25536. |
| IntCodec.ReservedBitsIgnored | dlib/serialize.h:244-250 | Two control bytes that differ only in the reserved bits 4-6 decode identically, for both signed and unsigned types. |
| IntCodec.DecodeIntErrors | dlib/serialize.h:235-262 | Empty input, a count over the width, too few magnitude bytes, a zero count, and an unsigned target with the sign bit set are all errors. |
| IntCodec.EncodingExamples | dlib/serialize.h:171-202 | 0 → [1,0], 255 → [1,0xFF], -1 → [0x81,1], 256 → [2,0,1]. |
| Scalars.EncodeByte | dlib/serialize.h:398-406 | One byte holding the value's low eight bits. |
| Scalars.DecodeByte | dlib/serialize.h:408-431 | Succeeds exactly when a byte is present. The value is in the char type's range and agrees with that byte mod 256. Exactly one byte is consumed. An empty stream is an error naming the type. |
| Scalars.ByteRoundTrip | dlib/serialize.h:427-431 | Any char-type value reads back from its one byte. |
| Scalars.EncodeBool | dlib/serialize.h:645-657 | One byte: '1' exactly when the value is true, else '0'. |
| Scalars.DecodeBool | dlib/serialize.h:659-678 | Succeeds exactly on '1' or '0', consuming one byte. Any other byte or the end of input is "Error deserializing object of type bool". |
| Scalars.BoolRoundTrip | dlib/serialize.h:645-678 | Both bools read back, consuming only their own byte. |
| Codec.StreamConcatenation | dlib/serialize.h:33-38 | Two values written back to back are read back in turn. The first read leaves exactly the second value's bytes. |
| Codec.EncodeAll | dlib/serialize.h:857-861 | Writing the elements succeeds exactly when every element writes. On failure, the error is that of the first failing element. |
| Codec.DecodeN | dlib/serialize.h:872-877 | Reading n elements yields n values. Reading zero elements consumes nothing. |
| Codec.DecodeNErrorFrom | dlib/serialize.h:1016-1017 | A failed run of element reads carries the element reader's message unchanged. |
| Codec.DecodeNEach | dlib/serialize.h:1016-1017 | If every element the reader returns has a property, then every element of a successful run of reads has it. |
| Codec.ElementsRoundTrip | dlib/serialize.h:857-877 | Reading back the bytes written for a sequence of elements rebuilds each element, and the read stops where they end. |
| Codec.LengthRoundTrip | dlib/serialize.h:852-856 | A container size written as `unsigned long` reads back as itself. |
| Codec.LengthPrefix | dlib/serialize.h:856-858 | A container size is written in 2 to 9 bytes. The first byte is the number of magnitude bytes that follow, and those hold the size reduced mod 2^64 by the `static_cast<unsigned long>`. LengthRoundTrip reads it back. |
| Codec.OneByteCount | dlib/serialize.h:856-858 | A size below 256 is written as `[0x01, n]` and reads back as n. |
| Codec.EncodeCounted | dlib/serialize.h:848-864 | Count then elements. The write succeeds exactly when every element writes, and a failure is the first element's failure. |
| Codec.DecodeCounted | dlib/serialize.h:866-882 | A failed count read is the `unsigned long` read error. On success, as many elements as the count read are returned. |
| Codec.CountedRoundTrip | dlib/serialize.h:848-882 | Count-then-elements reads back as the elements, leaving what followed. |
| Codec.IntElementSound | dlib/serialize.h:392-396 | Every integral type is a sound element codec. |
| Scalars.ByteElementSound | dlib/serialize.h:398-431 | A char type as an element of a container is sound: every value writes and reads back from its one byte. |
| Scalars.BoolElementSound | dlib/serialize.h:645-678 | A bool as an element of a container is sound. |
| Containers.EncodeBoth | dlib/serialize.h:682-695 | The first half, then the second. It fails exactly when either half fails, and the first failing half's error is reported. |
| Containers.DecodeBoth | dlib/serialize.h:697-710 | Reads the first half, then the second from what the first left. It succeeds exactly when both reads succeed, and the error is that of the first read that fails. BothSound is its round trip. |
| Containers.BothDecodesBack | dlib/serialize.h:682-710 | Two sound codecs in sequence write any valid pair and read it back, leaving exactly what followed. |
| Containers.EncodePair | dlib/serialize.h:682-695 | `first`, then `second`, with nothing between. It fails exactly when one of them fails, with that member's error plus "while serializing object of type std::pair". PairSound is its round trip. |
| Containers.DecodePair | dlib/serialize.h:697-710 | Reads `first`, then `second`. It succeeds exactly when both do, and an error is the failing member's message plus "while deserializing object of type std::pair". |
| Containers.BothSound | dlib/serialize.h:682-710 | Two sound codecs in sequence form a sound codec. |
| Containers.WithinSound | dlib/serialize.h:697-710 | Adding an error context to a sound codec keeps it sound. |
| Containers.PairSound | dlib/serialize.h:682-710 | A `std::pair` of sound halves reads back as the pair. |
| Containers.VectorRoundTrip | dlib/serialize.h:848-882 | A `std::vector` reads back as its elements, in order, leaving exactly what followed. |
| Containers.EncodeVector | dlib/serialize.h:848-864 | Succeeds exactly when every element writes. The output begins with the size, which reads back as the element count and is followed by the elements' bytes. An error is the first failing element's, plus "while serializing object of type std::vector". VectorRoundTrip is its round trip. |
| Containers.DecodeVector | dlib/serialize.h:866-882 | A failed size read is the `unsigned long` error wrapped with the vector context. Otherwise the result is exactly that many elements read in turn from what follows the size. An element's error is wrapped with the vector context. |
| Containers.VectorDecodesBack | dlib/serialize.h:848-882 | A vector of valid elements writes, and reads back leaving exactly what followed. |
| Containers.VectorSound | dlib/serialize.h:848-882 | A `std::vector` of sound elements reads back element by element, in order. |
| Containers.VectorReportsElementError | dlib/serialize.h:866-882 | An element's error inside a vector becomes that message plus "\n   while deserializing object of type std::vector". |
| Containers.NestedErrorTrace | dlib/serialize.h:866-882 | A too-wide `int` inside `vector<vector<int>>` reports the `int` error, then one vector line per level. |
| Containers.ToSet | dlib/serialize.h:786-807 | The set read holds exactly the elements read. |
| Containers.SetRoundTrip | dlib/serialize.h:763-807 | A `std::set` written in iteration order reads back as the set of its elements, leaving exactly what followed. |
| Containers.EncodeSet | dlib/serialize.h:764-785 | Succeeds exactly when every element writes. The size reads back as the element count and is followed by the elements' bytes. An error is wrapped with "while serializing object of type std::set". SetRoundTrip is its round trip. |
| Containers.DecodeSet | dlib/serialize.h:786-807 | A failed size read is wrapped with the set context. Otherwise it succeeds exactly when the size's worth of elements read. The set is the set of those elements, so it has at most that many. An element's error is wrapped with the set context. |
| Containers.ToSetSize | dlib/serialize.h:794-803 | Inserting n elements into a cleared set leaves at most n elements. |
| Containers.SetDecodesBack | dlib/serialize.h:764-807 | A set written from valid elements reads back as the set of their values. |
| Containers.SetSound | dlib/serialize.h:763-807 | A `std::set` written in iteration order reads back as the set of its elements. |
| Containers.BuildMap | dlib/serialize.h:737-760 | The map built from a cleared map by `item[d] = r` has exactly the keys that were read. |
| Containers.LastEntryWins | dlib/serialize.h:750-756 | A later entry for a key overwrites earlier ones. |
| Containers.DistinctKeysKept | dlib/serialize.h:737-760 | With distinct keys, every key maps to its own value. |
| Containers.MapRoundTrip | dlib/serialize.h:713-760 | A `std::map` written key-before-value reads back as the map its entries build, leaving exactly what followed. |
| Containers.EncodeMap | dlib/serialize.h:714-735 | Succeeds exactly when every key and every value writes. The size reads back as the entry count and is followed by each key then its value. An error is wrapped with "while serializing object of type std::map". MapRoundTrip is its round trip. |
| Containers.DecodeMap | dlib/serialize.h:737-760 | A failed size read is wrapped with the map context. Otherwise it succeeds exactly when the size's worth of key-value pairs read, and the map is the one `item[d] = r` builds from them. An entry's error is wrapped with the map context. |
| Containers.MapDecodesBack | dlib/serialize.h:714-760 | A map written from valid entries reads back as the map those entries build. |
| Containers.MapSound | dlib/serialize.h:713-760 | A `std::map` written key-before-value in iteration order reads back as the map its entries build. |
| Containers.DecodeArray | dlib/serialize.h:1129-1153 | The array read has the array's length. A failed count read is wrapped with "deserializing a C style array". A count different from the length is "lengths do not match", whatever follows. |
| Containers.ArrayRoundTrip | dlib/serialize.h:1106-1153 | A C array reads back into an array of its own length. |
| Containers.EncodeArray | dlib/serialize.h:1107-1123 | Succeeds exactly when every element writes. The length reads back as the element count and is followed by the elements' bytes. An error is wrapped with "while serializing a C style array". ArrayRoundTrip is its round trip. |
| Containers.ArrayRecordRead | dlib/serialize.h:1138-1152 | A record whose count is n reads into an array of n elements by reading them. For any other length, it is "lengths do not match". |
| Containers.ArrayFromElements | dlib/serialize.h:1107-1152 | An array record reads its elements exactly when the array's size equals the target length. Otherwise it fails with "lengths do not match". |
| Containers.ArrayDecodesBack | dlib/serialize.h:1107-1153 | An array of valid elements writes and reads back into an array of its length. |
| Containers.ArraySound | dlib/serialize.h:1106-1153 | C arrays of sound elements are sound. |
| Containers.ArrayLengthEnforced | dlib/serialize.h:1138-1152 | An array read into an array of another length fails with "lengths do not match". |
| Containers.ComplexSound | dlib/serialize.h:1158-1197 | A `std::complex` reads back its real part, then its imaginary part. |
| Containers.EncodeComplex | dlib/serialize.h:1159-1175 | The real part, then the imaginary part. It fails exactly when one of them fails, with that part's error plus "while serializing an object of type std::complex". ComplexSound is its round trip. |
| Containers.DecodeComplex | dlib/serialize.h:1180-1197 | Reads the real part, then the imaginary part. It succeeds exactly when both read, and the result is built from them. An error is the failing part's message plus "while deserializing an object of type std::complex". |
| Containers.EnumerableReadsAsVector | dlib/serialize.h:1060-1078 | What an `enumerable` writes reads back as a `std::vector` of its elements. |
| Containers.EncodeEnumerable | dlib/serialize.h:1060-1078 | Succeeds exactly when every element writes. The size reads back as the element count and is followed by the elements' bytes. An error is wrapped with "while serializing object of type enumerable". EnumerableReadsAsVector is its round trip. |
| Containers.MapPairReadsAsPair | dlib/serialize.h:1084-1100 | What a `map_pair` writes reads back as a `std::pair` of its key and value. |
| Containers.EncodeMapPair | dlib/serialize.h:1085-1100 | The key, then the value. It fails exactly when one of them fails, with that one's error plus "while serializing object of type map_pair". MapPairReadsAsPair is its round trip. |
| Buffers.DecodeRawBytes | dlib/serialize.h:902-917 | Fails only when the size cannot be read; that error is wrapped with the vector context. Otherwise the vector has the size read. Its front holds the bytes still available, and the rest is the prior contents or zero. The bytes copied are consumed. |
| Buffers.EncodeRawBytes | dlib/serialize.h:886-900 | The size, which reads back as the vector's length, followed by the bytes themselves. RawBytesRoundTrip is its round trip. |
| Buffers.RawBytesRoundTrip | dlib/serialize.h:885-917 | A byte vector reads back exactly, whatever the target held before. |
| Buffers.EmptyRawBytes | dlib/serialize.h:886-917 | An empty byte vector is written as its size alone, `[0x01, 0x00]`, and reading that record gives an empty vector, leaving exactly what followed. |
| Buffers.RawBytesShortReadPads | dlib/serialize.h:909-913 | A size of 3 with one byte left reads as that byte plus two zeros (or plus the prior bytes), with no error. |
| Buffers.RawBytesElementSound | dlib/serialize.h:886-917 | A `vector<char>` as an element of a container, read into a vector with given prior contents, is sound. |
| Buffers.EncodeBoolVector | dlib/serialize.h:811-826 | The size, which reads back as the vector's length, followed by one byte per element: '1' for true and '0' for false. BoolVectorRoundTrip is its round trip. |
| Buffers.DecodeBoolVector | dlib/serialize.h:828-844 | Fails exactly when the size cannot be read, and that error is the vector-context error. Otherwise it has the size read as its length. Element i is true exactly when byte i is present and is '1', and the bytes present are consumed. |
| Buffers.BoolVectorRoundTrip | dlib/serialize.h:811-844 | A `vector<bool>` reads back exactly. |
| Buffers.BoolVectorLenient | dlib/serialize.h:836-843 | Any byte vector reads as a bool vector without error. '1' becomes true, and every other byte becomes false. |
| Buffers.BoolVectorElementSound | dlib/serialize.h:811-844 | A `vector<bool>` as an element of a container is sound. |
| Buffers.EncodeString | dlib/serialize.h:955-968 | The size, which reads back as the string's length, followed by the string's bytes. StringRoundTrip is its round trip. |
| Buffers.StringWrittenAsCharVector | dlib/serialize.h:955-968 | A `std::string` is written exactly as a `vector<char>` with the same contents. |
| Buffers.DecodeString | dlib/serialize.h:970-987 | Succeeds exactly when the size reads and that many bytes follow, consuming exactly them. A failed size read is wrapped with the string context. A short read is "Error deserializing object of type std::string". |
| Buffers.StringRoundTrip | dlib/serialize.h:955-987 | A string reads back exactly. |
| Buffers.StringShortReadFails | dlib/serialize.h:980-986 | A truncated stream that a `vector<char>` accepts is an error for a `std::string`. |
| Buffers.StringElementSound | dlib/serialize.h:955-987 | A `std::string` as an element of a container is sound. |
| Buffers.EncodeUnits | dlib/serialize.h:989-1003 | Every unit writes. The size reads back as the number of units and is followed by each unit as an integer of the unit type. UnitsRoundTrip is its round trip. |
| Buffers.DecodeUnits | dlib/serialize.h:1005-1020 | Only a failed size read is wrapped with the string's name. A failed unit read is the unit type's own error, unwrapped. The units read are in the unit type's range, and there are as many as the size read. |
| Buffers.UnitsRoundTrip | dlib/serialize.h:989-1020 | A `std::wstring` or `ustring` reads back exactly. |
| Buffers.UnitErrorNotWrapped | dlib/serialize.h:1005-1020 | A missing size is reported with "std::wstring". A too-wide code unit is reported only as a `wchar_t` error. |
| Buffers.UnitsElementSound | dlib/serialize.h:989-1054 | A `std::wstring` or `ustring` as an element of a container is sound. |
| Buffers.NestedBuffersSound | dlib/serialize.h:848-987 | A vector of strings, and a map from strings to `int`, read back what was written. |
| ProtoFraming.EncodeFramed | dlib/serialize.h:1230-1253 | Succeeds exactly when the message serializes to at most 0xFFFFFFFF bytes. Output: 4 little-endian length bytes, then the payload. The two failures carry their own messages. |
| ProtoFraming.DecodeFramed | dlib/serialize.h:1255-1283 | Succeeds exactly when 4 length bytes are present, the length is nonzero, that many bytes follow, and the parser accepts them. Exactly those bytes are consumed. Every failure is the same error. |
| ProtoFraming.DecodeFramedAllowEmpty | dlib/serialize.h:1266-1282 | The same reader, with a zero length accepted. |
| ProtoFraming.ReadersAgreeOnNonEmpty | dlib/serialize.h:1266-1282 | The two readers agree on every stream whose length field is not zero. |
| ProtoFraming.FramedRoundTripAsWritten | dlib/serialize.h:1230-1283 | A message with a nonempty serialization reads back, consuming its frame exactly. |
| ProtoFraming.EmptyMessageDoesNotRoundTrip | dlib/serialize.h:1266-1271 | A message that serializes to no bytes is written as four zero bytes. The reader as written rejects them. The corrected reader accepts them. |
| ProtoFraming.FramedRoundTrip | dlib/serialize.h:1230-1283 | With the corrected reader, every serializable message reads back, including empty ones. |
| ProtoFraming.ProtoSound | dlib/serialize.h:1230-1283 | The framing with the corrected reader is a sound element codec. |
| ProtoFraming.ProtoSoundAsWritten | dlib/serialize.h:1230-1283 | With the reader as written, the framing is a sound element codec on the messages whose serialization is not empty. |

## Left out

- Floating point (`float`, `double`, `long double`, and `std::complex` over them): their format relies on iostream decimal formatting and IEEE comparisons. `std::complex<T>` is modelled only over a generic element codec.
- Stream state (`setstate`, badbit, failbit, `rdbuf`): a stream is a byte sequence and every failure is an `Err`. After a short bulk read into a `vector<char>`, the model leaves the stream empty. It does not model the failbit that would make later reads fail.
- Write failures (`sputn`, `sputc` or `out.write` running short, and `if (!out)` checks): encoders of in-range values never fail in the model.
- `byte_orderer`: the 4-byte protocol-buffer length is written as explicit little-endian bytes.
- `SerializeToString` / `ParseFromString`: these are function parameters, and the library's own round trip is a precondition (`Faithful`).
- The `enumerable` cursor protocol (`reset` / `move_next` / `element`): an enumerable is the sequence its cursor visits.
- Overload and SFINAE dispatch (`enable_if`, `is_protocol_buffer`), and the MSVC `wchar_t` conditional: the caller picks the codec explicitly.
- Unicode meaning of `std::wstring` / `ustring`: these are sequences of integer code units.
- The contents of the target after a decode error, and `std::length_error` or `std::bad_alloc` from `resize` on a huge size.
- IntCodec.DecodeInt: a control byte whose count is zero makes the C++ loop index `buf[255]`, which is undefined behaviour. The model reports it as the type's read error instead.
- IntCodec.DecodeInt: a negative record whose magnitude is 2^(8W-1), read by a signed type of W >= 4 bytes (`int`, `long`, `wchar_t`, `int64`), leaves `item` at that type's most negative value before `item *= -1` (dlib/serialize.h:273-274). That negation overflows, which is undefined behaviour. The model takes its two's-complement result, the most negative value itself (IntMinimumRead). So IntRoundTrip's promise for that value, written by a wider type and read by such a type, rests on this choice.
- IntCodec.EncodeInt: the most negative value of a signed type at least as wide as `int` (`int`, `long`, `wchar_t`, `int64`) is excluded (`Encodable`). `item *= -1` overflows on it, which is undefined behaviour. A narrower type is negated in `int`, and its minimum is modelled (ShortMinimumRoundTrip).
- Buffers.EncodeRawBytes, Buffers.DecodeRawBytes: for an empty `vector<char>` or `vector<unsigned char>`, the writer and the reader both take `&item[0]` (dlib/serialize.h:896, 913, 931, 948). That dereferences the end of an empty vector, which is undefined behaviour. `vector<bool>` inherits it through its temporary `vector<unsigned char>` (dlib/serialize.h:817-825, 834-835). The model takes the evident result: only the size is written or read (EmptyRawBytes). RawBytesRoundTrip, BoolVectorRoundTrip and their element codecs rest on that choice for the empty vector.
- Buffers.RawBytesElement: the model reads each `vector<char>` element into a vector with fixed prior contents. In the C++, what the target already holds depends on the container:
  - a map reads every key and every value into the same two variables (dlib/serialize.h:749-755), and a set reads every element into one variable (dlib/serialize.h:798-802). So a short read pads with the previous element's bytes;
  - a vector is resized and read into the elements it already held (dlib/serialize.h:876-878);
  - a pair reads its members in place (dlib/serialize.h:705-706), and so does a C array (dlib/serialize.h:1142-1143). So a short read pads with the bytes the target held before.
- Buffers.EncodeRawBytes, Buffers.EncodeString, Buffers.EncodeUnits: the size is assumed to fit an `unsigned long` (`Countable`). That always holds on LP64, so the `static_cast` never truncates.

## Findings

| source | as written | input that shows it | evidently intended | confidence | as-written member | corrected member |
|---|---|---|---|---|---|---|
| dlib/serialize.h:1270 | The reader rejects a length field of zero (`size == 0`). The writer emits a zero length for any message whose serialization is empty. | A message with every field at its default serializes to no bytes. It is written as `00 00 00 00`, and reading that back throws "Error while deserializing a Google Protocol Buffer object." | Reading accepts a zero length and parses the empty payload, so every message that can be written reads back. | medium, not executed | ProtoFraming.EmptyMessageDoesNotRoundTrip | ProtoFraming.FramedRoundTrip |
