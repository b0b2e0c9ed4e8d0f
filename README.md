# Fstrm.NET codec in Dafny

Fstrm.NET implements the Frame Streams transport protocol of the farsightsec fstrm
library. This model covers its core, the incremental codec `FstrmCodec`, together with
the `Frame` value the codec produces.

The codec's state is a FIFO byte buffer and two optional 32-bit length markers:
- the data frame length;
- the control frame length, which is only known when the data frame length is 0.

Its operations, and what each one does in the model:
- `Append` adds bytes at the tail of the buffer.
- `Process` is the "frame complete?" probe. It reads each marker once from the head of
  the buffer and keeps it.
- `Decode` slices one frame body off the head and clears both markers. For a control
  frame it then parses the body: the frame type, then 9-byte content-type fields while
  more than 8 bytes remain.
- `Encode` serialises a frame. A data frame is its length and its payload. A control
  frame is a zero marker, a length, the type, and one field per content byte.
- `GetPendingNumberOfBytes`, the `Encode*` wrappers and the `Is*` helpers are built on
  these.

Files:
- `wrappers.dfy` holds `Option` and `Result`.
- `wire.dfy` holds the .NET primitives: bytes, `int` with unchecked wrap-around,
  little-endian `BitConverter`, and LINQ `Take`/`Skip`. A negative count takes or skips
  nothing, so the model keeps the source's signed integers.
- `frame.dfy` holds `Frame`.
- `codec.dfy` holds the codec.
  - The state is the datatype `CodecState`, and the `...Step` functions say what each
    operation does to it.
  - The class `Codec.FstrmCodec` keeps the same state in fields. Each of its methods is
    proved equal to the matching function: it gives the same result and leaves the same
    new state.
  - The `while` loop of `Decode` is the method `Codec.DecodeControlFrame`.
  - The `foreach` loop of `Encode` is the method `Codec.FstrmCodec.Encode`.
- `codec_properties.dfy` holds the properties that relate several operations.

Exceptions become values of `CodecError`:
- `MissingLengthMarker` is `.Value` on a null marker.
- `ShortField` is a 4-byte read from fewer than 4 bytes. The source does not guard this
  at `Decode`'s type read.
- `InvalidContentType` and `InvalidContentLength` are the two `FstrmException`s of the
  parse loop.
- `UnexpectedFrame(t)` is the exception of the `Is*` helpers.

The frame type enumeration is not part of this model, and any `int` can be cast to it, so
the frame type is an `int32` tag.
- The control types use the ordinals of the fstrm C library: ACCEPT 1, START 2, STOP 3,
  READY 4, FINISH 5.
- The data frame tag is 0, the enumeration's default value.

Where the code and the protocol description it follows disagree, the model follows the
code:
- **Field length.** The content length is read from the same four bytes as the content
  type (`FstrmCodec.cs:180-181`).
  - Once a field passes the type check, its length is 1 and it takes exactly 9 bytes.
  - The "content length invalid" error can never be raised (see `Codec.ParseFields`).
  - The decoder reads back exactly what the one-field-per-content-byte encoder writes.
- **Leftover payload.** After the loop, the payload of a control frame is the fewer than
  9 bytes that no field consumed.
- **Empty data frame.** A data frame with an empty payload encodes to four zero bytes,
  which `Process` reads as a control frame marker. It does not round-trip.
- **Repeated probe.** `Process` checks for 4 buffered bytes before it looks at a control
  length it already knows (`FstrmCodec.cs:108`). For a control length below 4, a second
  probe of the same state can answer differently from the first
  (`CodecProperties.RepeatedProbeCanDisagree`). Probing is idempotent only when the
  control length covers the frame type (`CodecProperties.ProcessIdempotent`).
- **Byte order.** Integers are little-endian, as `BitConverter` writes them on common
  hosts. The source's reads do not parse bytes at all (see Findings); the model reads
  them as the inverse of the writer.

## Model

| member | source | states |
|---|---|---|
| `Wire.WrapInt32` | src/Fstrm.NET/FstrmCodec.cs:220 | the result is congruent to the mathematical value modulo 2^32 and equals it when it fits in `int` |
| `Wire.Int32ToBytes` | src/Fstrm.NET/FstrmCodec.cs:208 | `BitConverter.GetBytes(int)` yields exactly four bytes |
| `Wire.BytesToInt32` | src/Fstrm.NET/FstrmCodec.cs:306 | the corrected read: the value is negative exactly when the top bit of the last byte is set, and its low byte is the first byte; `Int32RoundTrip` and `BytesRoundTrip` make it the inverse of the writer |
| `Wire.Int32RoundTrip` | src/Fstrm.NET/FstrmCodec.cs:222-223 | reading back the four bytes the encoder writes for any `int` gives that `int` |
| `Wire.BytesRoundTrip` | src/Fstrm.NET/FstrmCodec.cs:306 | every four bytes are the encoding of the `int` read from them, so the reader loses nothing |
| `Wire.ConvertToInt32AsWritten` | src/Fstrm.NET/FstrmCodec.cs:306 | `Convert.ToInt32` on a `byte[]` always fails |
| `Wire.ConvertToInt32AsWrittenNeverReadsMarker` | src/Fstrm.NET/FstrmCodec.cs:100 | no encoded marker is read back by the source's conversion |
| `Wire.Clamp` | src/Fstrm.NET/FstrmCodec.cs:151-152 | the effective LINQ count: an in-range count is kept, a negative count gives 0 and a count past the end gives the whole length |
| `Wire.Take` | src/Fstrm.NET/FstrmCodec.cs:151 | `Take(n)` is the prefix of the clamped length |
| `Wire.Skip` | src/Fstrm.NET/FstrmCodec.cs:152 | `Skip(n)` is the suffix after the clamped length |
| `Wire.TakeSkipSplit` | src/Fstrm.NET/FstrmCodec.cs:151-152 | `Take(n)` followed by `Skip(n)` is the whole sequence, in order |
| `Frames.NewFrame` | src/Fstrm.NET/Frame.cs:12-17 | the three-argument constructor stores type, content and payload unchanged |
| `Frames.NewFrameWithoutPayload` | src/Fstrm.NET/Frame.cs:19-21 | the two-argument constructor stores type and content, and the payload is empty |
| `Frames.Equals` | src/Fstrm.NET/Frame.cs:23 | `SequenceEqual` on the payloads: same length and equal bytes at every index |
| `Frames.OpEquality` | src/Fstrm.NET/Frame.cs:27-30 | `==` holds exactly when the payloads are equal |
| `Frames.OpInequality` | src/Fstrm.NET/Frame.cs:32-35 | `!=` holds exactly when the payloads differ |
| `Frames.EqualsIgnoresTypeAndContent` | src/Fstrm.NET/Frame.cs:23 | frames with the same payload are equal whatever their type and content |
| `Frames.EqualsIffSamePayload` | src/Fstrm.NET/Frame.cs:23 | `Equals` holds exactly when the payloads are the same byte sequence; payloads of different lengths are unequal |
| `Frames.EqualityIsCoarserThanIdentity` | src/Fstrm.NET/Frame.cs:23-30 | a READY frame and an ACCEPT frame with different content are distinct values, yet `==` holds between them |
| `Frames.EqualsIsEquivalence` | src/Fstrm.NET/Frame.cs:23-25 | `Equals` is reflexive, symmetric and transitive |
| `Frames.PayloadlessFramesAreEqual` | src/Fstrm.NET/Frame.cs:19-23 | any two frames built by the two-argument constructor compare equal |
| `Frames.OperatorsAgreeWithEquals` | src/Fstrm.NET/Frame.cs:27-35 | `==` is `Equals` and `!=` is its negation |
| `Codec.InitialState` | src/Fstrm.NET/FstrmCodec.cs:52-64 | a new codec holds the given bytes (none by default) and no markers |
| `Codec.UnpackInt` | src/Fstrm.NET/FstrmCodec.cs:306 | succeeds exactly when at least four bytes are given, and the value is the `int` those first four bytes encode |
| `Codec.ResetState` | src/Fstrm.NET/FstrmCodec.cs:66-70 | the buffer is untouched and both markers are cleared |
| `Codec.AppendState` | src/Fstrm.NET/FstrmCodec.cs:87 | the bytes go at the tail and both markers are unchanged |
| `Codec.PendingBytes` | src/Fstrm.NET/FstrmCodec.cs:72-85 | with a positive data length, the bytes still missing from it; else with a positive control length, the bytes missing from that; otherwise 4, one marker |
| `Codec.ProcessMarked` | src/Fstrm.NET/FstrmCodec.cs:104-134 | with the data length known: a data frame leaves the state unchanged; a control frame with 4 bytes buffered and no control length reads it from the next four bytes and drops them; the answer is whether the body is buffered, with the re-check of 4 bytes for a known control length |
| `Codec.ProcessStep` | src/Fstrm.NET/FstrmCodec.cs:89-135 | the data length is read as soon as 4 bytes are buffered, and the control length as soon as 4 more are there for a control frame; markers are read at most once and then kept; exactly 4 bytes per marker read are consumed from the head, at most 8 in all; with no marker and fewer than 4 bytes nothing happens; true exactly when the announced body is buffered, plus 4 bytes when the control length was already known; the marker invariant is kept |
| `Codec.CreateDataFrame` | src/Fstrm.NET/FstrmCodec.cs:308 | a DATA frame with empty content and the given bytes as payload |
| `Codec.CreateControlFrame` | src/Fstrm.NET/FstrmCodec.cs:310 | the frame holds the given type, content and payload |
| `Codec.ParseFields` | src/Fstrm.NET/FstrmCodec.cs:178-196 | the only failure is an invalid content type, so the content-length error is unreachable; on success each collected content byte stands for 9 consumed bytes, and the tail is the last fewer than 9 bytes of the input |
| `Codec.ControlFrameOf` | src/Fstrm.NET/FstrmCodec.cs:173-198 | fails short exactly when the body has fewer than 4 bytes, and otherwise only on a bad content type; the type is read from the first four bytes; the payload is the at most 8-byte tail; type, fields and tail account for every byte |
| `Codec.DecodeStep` | src/Fstrm.NET/FstrmCodec.cs:143-169 | fails, with nothing changed, exactly when a needed marker is missing; otherwise clears both markers and keeps a suffix of the buffer; once the body is buffered it removes exactly the body, and a data body becomes (DATA, empty, body) while a control body is parsed |
| `Codec.DecodeControlFrame` | src/Fstrm.NET/FstrmCodec.cs:171-198 | the parse loop gives exactly the frame (or error) `ControlFrameOf` describes |
| `Codec.FieldEncoding` | src/Fstrm.NET/FstrmCodec.cs:232-238 | one encoded field is 9 bytes: the content type 1, the length 4, then its content byte |
| `Codec.EncodeFields` | src/Fstrm.NET/FstrmCodec.cs:230-239 | the field region is 9 bytes per content byte |
| `Codec.EncodeFieldsSnoc` | src/Fstrm.NET/FstrmCodec.cs:230-239 | one more content byte appends exactly one field |
| `Codec.ControlLength` | src/Fstrm.NET/FstrmCodec.cs:220 | the control length is 4 + 9n modulo 2^32, and exactly 4 + 9n when that fits in `int` |
| `Codec.Encoded` | src/Fstrm.NET/FstrmCodec.cs:201-243 | a data frame is 4 + n bytes: its length, then the payload; a control frame is 12 + 9n bytes: a zero marker, a length equal (modulo 2^32) to the number of bytes after it, the type, then the field region |
| `Codec.ExpectStep` | src/Fstrm.NET/FstrmCodec.cs:253-290 | false with only the probe's effect when no frame is complete; otherwise exactly one frame is decoded, true for the expected type, the unexpected type reported for any other, and a decode error passed on |
| `Codec.IsDataStep` | src/Fstrm.NET/FstrmCodec.cs:292-304 | null with only the probe's effect when no frame is complete; a decode error is passed on; a frame other than ACCEPT is reported as unexpected |
| `Codec.IsDataIntendedStep` | src/Fstrm.NET/FstrmCodec.cs:292-304 | null with only the probe's effect when no frame is complete; otherwise one frame is decoded, a DATA frame yields its payload, any other type is reported as unexpected, and a decode error is passed on |
| `Codec.FstrmCodec.constructor` | src/Fstrm.NET/FstrmCodec.cs:52-57 | the new codec is empty and has no markers |
| `Codec.FstrmCodec.FromBytes` | src/Fstrm.NET/FstrmCodec.cs:59-64 | the new codec holds the given bytes and no markers |
| `Codec.FstrmCodec.Reset` | src/Fstrm.NET/FstrmCodec.cs:66-70 | clears both markers and leaves the buffer untouched |
| `Codec.FstrmCodec.GetPendingNumberOfBytes` | src/Fstrm.NET/FstrmCodec.cs:72-85 | the result is `PendingBytes` of the state, which `CodecProperties.PendingBytesIsExact` characterises |
| `Codec.FstrmCodec.Append` | src/Fstrm.NET/FstrmCodec.cs:87 | the buffer grows at its tail and the markers are unchanged |
| `Codec.FstrmCodec.Process` | src/Fstrm.NET/FstrmCodec.cs:89-135 | answer and new state are those of `ProcessStep` |
| `Codec.FstrmCodec.AppendAndProcess` | src/Fstrm.NET/FstrmCodec.cs:137-141 | the probe of the state after the append |
| `Codec.FstrmCodec.Decode` | src/Fstrm.NET/FstrmCodec.cs:143-199 | result and new state are those of `DecodeStep` |
| `Codec.FstrmCodec.Encode` | src/Fstrm.NET/FstrmCodec.cs:201-243 | the bytes the loop builds are `Encoded(frame)` |
| `Codec.FstrmCodec.EncodeReady` | src/Fstrm.NET/FstrmCodec.cs:245 | the encoding of a payload-less READY frame |
| `Codec.FstrmCodec.EncodeAccept` | src/Fstrm.NET/FstrmCodec.cs:247 | the encoding of a payload-less ACCEPT frame |
| `Codec.FstrmCodec.EncodeStart` | src/Fstrm.NET/FstrmCodec.cs:249 | the encoding of a payload-less START frame |
| `Codec.FstrmCodec.EncodeStop` | src/Fstrm.NET/FstrmCodec.cs:251 | the encoding of a payload-less STOP frame |
| `Codec.FstrmCodec.Expect` | src/Fstrm.NET/FstrmCodec.cs:253-264 | the shared body of the three helpers behaves as `ExpectStep` |
| `Codec.FstrmCodec.IsAccept` | src/Fstrm.NET/FstrmCodec.cs:253-264 | `ExpectStep` with ACCEPT |
| `Codec.FstrmCodec.IsReady` | src/Fstrm.NET/FstrmCodec.cs:266-277 | `ExpectStep` with READY |
| `Codec.FstrmCodec.IsStart` | src/Fstrm.NET/FstrmCodec.cs:279-290 | `ExpectStep` with START |
| `Codec.FstrmCodec.IsData` | src/Fstrm.NET/FstrmCodec.cs:292-304 | behaves as `IsDataStep`, the code as written |
| `Codec.FstrmCodec.IsDataIntended` | src/Fstrm.NET/FstrmCodec.cs:292-304 | behaves as `IsDataIntendedStep`, the corrected helper |
| `CodecProperties.ProcessMarkedThenAppend` | src/Fstrm.NET/FstrmCodec.cs:104-134 | with the data length known, probing before an append reaches the state that probing after it would, and the same answer when the control length covers the type |
| `CodecProperties.ProcessThenAppend` | src/Fstrm.NET/FstrmCodec.cs:89-135 | probing commutes with appending, for the state always and for the answer when the control length covers the type |
| `CodecProperties.ProcessIdempotent` | src/Fstrm.NET/FstrmCodec.cs:91-117 | a second probe without an append consumes nothing, and repeats the answer when the control length covers the type |
| `CodecProperties.RepeatedProbeCanDisagree` | src/Fstrm.NET/FstrmCodec.cs:105-123 | for a control length of 0 the first probe says complete and a repeated probe of the same state says incomplete |
| `CodecProperties.FeedMatchesSingleAppend` | src/Fstrm.NET/FstrmCodec.cs:137-141 | delivering bytes in any chunks with a probe after each ends in the state of one delivery of all the bytes, and with its answer for a sane control length |
| `CodecProperties.ParseFieldsOneField` | src/Fstrm.NET/FstrmCodec.cs:180-195 | a field with content type 1 contributes its ninth byte and the loop continues after it |
| `CodecProperties.ParseFieldsSucceedsIff` | src/Fstrm.NET/FstrmCodec.cs:178-187 | the loop succeeds exactly when every whole 9-byte field has content type 1 |
| `CodecProperties.ParseFieldsContent` | src/Fstrm.NET/FstrmCodec.cs:194-195 | a successful loop collects the ninth byte of each whole field, in order |
| `CodecProperties.ParseFieldsCharacterised` | src/Fstrm.NET/FstrmCodec.cs:173-198 | the loop in closed form: success exactly when every field is typed 1; then content byte i is byte 9i + 8, and the tail is what follows the last whole field |
| `CodecProperties.ParseEncodedFields` | src/Fstrm.NET/FstrmCodec.cs:230-239 | parsing the encoder's field region gives back the content exactly, with an empty tail |
| `CodecProperties.ControlProbe` | src/Fstrm.NET/FstrmCodec.cs:99-128 | probing a fresh codec holding an encoded control frame reads both markers and reports the frame complete |
| `CodecProperties.ControlDecode` | src/Fstrm.NET/FstrmCodec.cs:149-198 | decoding that probed state gives the control frame's type and content with an empty payload, and leaves exactly the further bytes |
| `CodecProperties.ControlRoundTrip` | src/Fstrm.NET/FstrmCodec.cs:220-239 | encode, append, probe and decode give back a control frame's type and content |
| `CodecProperties.DataRoundTrip` | src/Fstrm.NET/FstrmCodec.cs:206-216 | encode, append, probe and decode give back a non-empty data frame's payload |
| `CodecProperties.RoundTrip` | src/Fstrm.NET.Tests/CodecTests.cs:12-99 | every frame whose length field fits gives back `Decoded(f)`, with the same type and `Equals` to the original unless a control frame carried a payload; exactly the further bytes remain |
| `CodecProperties.TwoFramesInSequence` | src/Fstrm.NET/FstrmCodec.cs:149-162 | after the first of two back-to-back frames is decoded, the second is probed and decoded without appending, and the buffer ends empty |
| `CodecProperties.EncodedPrefixIncomplete` | src/Fstrm.NET/FstrmCodec.cs:89-134 | no strict prefix of an encoded frame is reported complete |
| `CodecProperties.ChunkedDeliveryIncomplete` | src/Fstrm.NET/FstrmCodec.cs:137-141 | with an encoded frame split into chunks, every probe before the last chunk says incomplete |
| `CodecProperties.ChunkedDeliveryComplete` | src/Fstrm.NET/FstrmCodec.cs:137-141 | after the last chunk the probe says complete and decoding gives the same frame as one delivery would |
| `CodecProperties.EmptyDataFrameReadsAsControlMarker` | src/Fstrm.NET.Tests/CodecTests.cs:102-117 | an empty data frame encodes to four zero bytes, which the probe takes for a control frame marker and never reports complete |
| `CodecProperties.ControlReadyScenario` | src/Fstrm.NET.Tests/CodecTests.cs:12-27 | the READY frame with content "protobuf:dnstap.Dnstap" is complete after one append and decodes to a READY frame |
| `CodecProperties.PendingBytesIsExact` | src/Fstrm.NET/FstrmCodec.cs:72-85 | once a positive data length, or a control length of at least 4, is known, the probe says complete exactly when at least the pending count of bytes has been appended |
| `CodecProperties.ExpectOnEncodedControlFrame` | src/Fstrm.NET/FstrmCodec.cs:253-290 | on an encoded control frame the helpers return true for the expected type and report any other type, consuming the frame either way |
| `CodecProperties.ExpectOnPrefix` | src/Fstrm.NET/FstrmCodec.cs:255-258 | on a strict prefix of an encoded frame the helpers return false |
| `CodecProperties.IsDataNeverYieldsPayload` | src/Fstrm.NET/FstrmCodec.cs:299-303 | `IsData` as written never returns a payload |
| `CodecProperties.IsDataRejectsDataFrame` | src/Fstrm.NET/FstrmCodec.cs:301 | `IsData` as written reports an encoded data frame as unexpected |
| `CodecProperties.IsDataIntendedYieldsPayload` | src/Fstrm.NET/FstrmCodec.cs:292-304 | the corrected helper returns the payload of an encoded data frame and consumes exactly that frame |
| `CodecProperties.WellFormedPreserved` | src/Fstrm.NET/FstrmCodec.cs:49-50 | append, reset, probe and decode keep a control length only alongside a zero data length |

## Left out

- Exception message strings are not modelled. Only the kind of failure is recorded, as a
  `CodecError`.
- `Frame.GetHashCode` is not modelled: it hashes the array reference, which has no value
  meaning.
- `Equals(object)` is not modelled beyond the `Frame` overload: there are no other
  objects in this model.
- List capacities and `TrimExcess` are not modelled, because they have no observable
  effect.
- Host byte-order detection is not modelled: the byte order is fixed to little-endian.
- Null arrays are not modelled, such as the null content or payload of `default(Frame)`;
  sequences are always present.
- .NET arrays and lists are bounded by `int`, but the model's sequences are unbounded.
  `Encode` of a data frame therefore requires the payload length to fit in an `int`, which
  the array type guarantees in .NET.
- `FstrmException.cs` is not part of this model; its exceptions are `CodecError` values.
- The frame type enumeration is not part of this model; see above for the tags chosen.
- The sockets, handshake driver and concurrency of the wider library are outside the
  codec and are not modelled.
- Codec.IsDataStep: its contract does not state the result after an ACCEPT frame, the
  second decode. That it never returns a payload is the separate lemma
  `CodecProperties.IsDataNeverYieldsPayload`.

## Findings

| source | as written | input that shows it | evidently intended | confidence | as-written member | corrected member |
|---|---|---|---|---|---|---|
| src/Fstrm.NET/FstrmCodec.cs:306 | every marker and field is read with `Convert.ToInt32(byte[])`, which does not parse bytes and throws `InvalidCastException` | any encoded frame, e.g. the data-frame marker `[5, 0, 0, 0]` | read the four bytes back as the `int` `BitConverter.GetBytes` wrote (little-endian) | not executed | `Wire.ConvertToInt32AsWrittenNeverReadsMarker` | `Wire.Int32RoundTrip` |
| src/Fstrm.NET/FstrmCodec.cs:292-304 | `IsData` demands an ACCEPT frame, then decodes a second time after `Reset` cleared both markers | an encoded data frame (rejected as unexpected) or an encoded ACCEPT frame (the second decode finds no marker) | return the payload of the data frame that completed | not executed | `CodecProperties.IsDataNeverYieldsPayload` | `CodecProperties.IsDataIntendedYieldsPayload` |
