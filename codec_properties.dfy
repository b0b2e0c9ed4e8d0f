/** Properties of the codec state machine: probing is insensitive to how the bytes were
    split into chunks, encoded frames decode back, the control field loop is characterised
    in closed form, and the helpers built on `Process` and `Decode` behave as stated. */
module CodecProperties {
  import opened Wrappers
  import opened Wire
  import opened Frames
  import opened Codec

  /** A known control frame length covers at least the 4-byte control frame type. Below
      that, `Process` can answer differently for the same state (see
      `RepeatedProbeCanDisagree`). */
  predicate ControlLengthCoversType(s: CodecState)
  {
    s.controlframeLength.Some? ==> s.controlframeLength.value >= 4
  }

  // ---------------------------------------------------------------------------------------
  // Process and Append commute

  lemma ProcessMarkedThenAppend(s: CodecState, q: seq<byte>)
    requires s.dataframeLength.Some?
    ensures ProcessMarked(AppendState(ProcessMarked(s).1, q)).1 == ProcessMarked(AppendState(s, q)).1
    ensures ControlLengthCoversType(ProcessMarked(s).1) ==>
              ProcessMarked(AppendState(ProcessMarked(s).1, q)).0 == ProcessMarked(AppendState(s, q)).0
  {
    if s.dataframeLength.value == 0 && |s.buffer| >= 4 && s.controlframeLength.None? {
      assert (s.buffer + q)[..4] == s.buffer[..4];
      assert (s.buffer + q)[4..] == s.buffer[4..] + q;
    }
  }

  /** Probing before more bytes arrive leaves the codec where probing afterwards would
      have: markers read early are the markers read late. */
  lemma ProcessThenAppend(s: CodecState, q: seq<byte>)
    ensures ProcessStep(AppendState(ProcessStep(s).1, q)).1 == ProcessStep(AppendState(s, q)).1
    ensures ControlLengthCoversType(ProcessStep(s).1) ==>
              ProcessStep(AppendState(ProcessStep(s).1, q)) == ProcessStep(AppendState(s, q))
  {
    if s.dataframeLength.None? {
      if |s.buffer| >= 4 {
        var s1 := s.(buffer := s.buffer[4..], dataframeLength := Some(BytesToInt32(s.buffer[..4])));
        assert (s.buffer + q)[..4] == s.buffer[..4];
        assert (s.buffer + q)[4..] == s.buffer[4..] + q;
        assert ProcessStep(AppendState(s, q)) == ProcessMarked(AppendState(s1, q));
        ProcessMarkedThenAppend(s1, q);
      }
    } else {
      ProcessMarkedThenAppend(s, q);
    }
  }

  /** Probing twice without appending consumes nothing more; the answer is repeated too
      once the control length covers the frame type. */
  lemma ProcessIdempotent(s: CodecState)
    ensures ProcessStep(ProcessStep(s).1).1 == ProcessStep(s).1
    ensures |ProcessStep(ProcessStep(s).1).1.buffer| == |ProcessStep(s).1.buffer|
    ensures ControlLengthCoversType(ProcessStep(s).1) ==> ProcessStep(ProcessStep(s).1) == ProcessStep(s)
  {
    ProcessThenAppend(s, []);
    assert AppendState(s, []) == s;
    assert AppendState(ProcessStep(s).1, []) == ProcessStep(s).1;
  }

  /** With a control length below 4, a first probe reports the frame complete and a second
      probe of the same state reports it incomplete: the check for 4 buffered bytes in
      `Process` comes before the control length is read. */
  lemma RepeatedProbeCanDisagree()
    ensures var first := ProcessStep(InitialState([0, 0, 0, 0, 0, 0, 0, 0]));
            first == (true, CodecState([], Some(0), Some(0))) &&
            ProcessStep(first.1) == (false, first.1)
  {
    var b: seq<byte> := [0, 0, 0, 0, 0, 0, 0, 0];
    assert b[..4] == [0, 0, 0, 0] && b[4..][..4] == [0, 0, 0, 0] && b[4..][4..] == [];
  }

  // ---------------------------------------------------------------------------------------
  // Chunked delivery

  function Concat(chunks: seq<seq<byte>>): seq<byte>
  {
    if chunks == [] then [] else chunks[0] + Concat(chunks[1..])
  }

  /** Append each chunk in turn and probe after each one; the last probe's answer. */
  function Feed(s: CodecState, chunks: seq<seq<byte>>): (bool, CodecState)
    requires |chunks| > 0
    decreases |chunks|
  {
    var r := ProcessStep(AppendState(s, chunks[0]));
    if |chunks| == 1 then r else Feed(r.1, chunks[1..])
  }

  /** A control length that covers the type after a probe already did before it. */
  lemma CoversTypeBeforeProbe(t: CodecState, q: seq<byte>)
    ensures ControlLengthCoversType(ProcessStep(AppendState(t, q)).1) ==> ControlLengthCoversType(t)
  {
  }

  /** Chunked delivery ends where delivering everything at once would. */
  predicate FeedAgrees(s: CodecState, chunks: seq<seq<byte>>)
    requires |chunks| > 0
  {
    var whole := ProcessStep(AppendState(s, Concat(chunks)));
    Feed(s, chunks).1 == whole.1 && (ControlLengthCoversType(whole.1) ==> Feed(s, chunks) == whole)
  }

  /** The bookkeeping of one induction step, on plain values. */
  lemma AgreementChains(feedRest: (bool, CodecState), viaT: (bool, CodecState), whole: (bool, CodecState), t: CodecState)
    requires feedRest.1 == viaT.1 && (ControlLengthCoversType(viaT.1) ==> feedRest == viaT)
    requires viaT.1 == whole.1 && (ControlLengthCoversType(t) ==> viaT == whole)
    requires ControlLengthCoversType(viaT.1) ==> ControlLengthCoversType(t)
    ensures feedRest.1 == whole.1 && (ControlLengthCoversType(whole.1) ==> feedRest == whole)
  {
  }

  lemma ConcatCons(s: CodecState, chunks: seq<seq<byte>>)
    requires |chunks| > 1
    ensures AppendState(AppendState(s, chunks[0]), Concat(chunks[1..])) == AppendState(s, Concat(chunks))
    ensures Feed(s, chunks) == Feed(ProcessStep(AppendState(s, chunks[0])).1, chunks[1..])
  {
    assert s.buffer + chunks[0] + Concat(chunks[1..]) == s.buffer + (chunks[0] + Concat(chunks[1..]));
  }

  /** One more chunk in front keeps the agreement. */
  lemma FeedAgreesCons(s: CodecState, chunks: seq<seq<byte>>)
    requires |chunks| > 1
    requires FeedAgrees(ProcessStep(AppendState(s, chunks[0])).1, chunks[1..])
    ensures FeedAgrees(s, chunks)
  {
    var s' := AppendState(s, chunks[0]);
    var t := ProcessStep(s').1;
    var rest := Concat(chunks[1..]);
    ConcatCons(s, chunks);
    ProcessThenAppend(s', rest);
    CoversTypeBeforeProbe(t, rest);
    AgreementChains(Feed(t, chunks[1..]), ProcessStep(AppendState(t, rest)),
                    ProcessStep(AppendState(s, Concat(chunks))), t);
  }

  /** Delivering bytes in any number of chunks, with a probe after each, ends in the state
      (and, for sane control lengths, with the answer) of one probe after all the bytes. */
  lemma {:induction false} FeedMatchesSingleAppend(s: CodecState, chunks: seq<seq<byte>>)
    requires |chunks| > 0
    ensures Feed(s, chunks).1 == ProcessStep(AppendState(s, Concat(chunks))).1
    ensures ControlLengthCoversType(ProcessStep(AppendState(s, Concat(chunks))).1) ==>
              Feed(s, chunks) == ProcessStep(AppendState(s, Concat(chunks)))
    decreases |chunks|
  {
    if |chunks| == 1 {
      assert Concat(chunks) == chunks[0] + [];
      assert chunks[0] + [] == chunks[0];
    } else {
      FeedMatchesSingleAppend(ProcessStep(AppendState(s, chunks[0])).1, chunks[1..]);
      FeedAgreesCons(s, chunks);
    }
  }

  lemma {:induction false} ConcatSplit(chunks: seq<seq<byte>>, i: nat)
    requires i <= |chunks|
    ensures Concat(chunks) == Concat(chunks[..i]) + Concat(chunks[i..])
    decreases i
  {
    if i == 0 {
      assert chunks[..0] == [] && chunks[0..] == chunks;
    } else {
      ConcatSplit(chunks[1..], i - 1);
      assert chunks[..i][0] == chunks[0] && chunks[..i][1..] == chunks[1..][..i - 1];
      assert chunks[1..][i - 1..] == chunks[i..];
    }
  }

  // ---------------------------------------------------------------------------------------
  // The content-type field loop

  /** The content-type value of the i-th 9-byte field. */
  function FieldType(p: seq<byte>, i: int): int32
    requires 0 <= i && 9 * i + 9 <= |p|
  {
    BytesToInt32(p[9 * i..9 * i + 4])
  }

  /** The content byte of the i-th 9-byte field. */
  function FieldByte(p: seq<byte>, i: int): byte
    requires 0 <= i && 9 * i + 9 <= |p|
  {
    p[9 * i + 8]
  }

  /** One turn of the loop on a field that passes the type check. */
  lemma ParseFieldsOneField(p: seq<byte>)
    requires |p| > 8 && BytesToInt32(p[..4]) == FSTRM_CONTROL_FIELD_CONTENT_TYPE
    ensures ParseFields(p) == PrependContent([p[8]], ParseFields(p[9..]))
  {
    var q := Skip(p, 8);
    assert Take(q, 1) == [p[8]] && Skip(q, 1) == p[9..];
  }

  /** Every whole 9-byte field starts with the content-type marker 1. */
  ghost predicate AllFieldsTyped(p: seq<byte>)
  {
    forall i :: 0 <= i && 9 * i + 9 <= |p| ==> FieldType(p, i) == FSTRM_CONTROL_FIELD_CONTENT_TYPE
  }

  /** Dropping the first field shifts the field numbering by one. */
  lemma FieldTypeShift(p: seq<byte>, i: nat)
    requires 9 * i + 18 <= |p|
    ensures FieldType(p[9..], i) == FieldType(p, i + 1)
  {
    assert p[9..][9 * i..9 * i + 4] == p[9 * (i + 1)..9 * (i + 1) + 4];
  }

  /** The fields are all typed exactly when the first one is and those after it are. */
  lemma AllFieldsTypedStep(p: seq<byte>)
    requires |p| > 8
    ensures AllFieldsTyped(p) <==>
              BytesToInt32(p[..4]) == FSTRM_CONTROL_FIELD_CONTENT_TYPE && AllFieldsTyped(p[9..])
  {
    assert FieldType(p, 0) == BytesToInt32(p[..4]);
    if AllFieldsTyped(p) {
      forall i | 0 <= i && 9 * i + 9 <= |p[9..]|
        ensures FieldType(p[9..], i) == FSTRM_CONTROL_FIELD_CONTENT_TYPE
      {
        FieldTypeShift(p, i);
      }
    }
    if BytesToInt32(p[..4]) == FSTRM_CONTROL_FIELD_CONTENT_TYPE && AllFieldsTyped(p[9..]) {
      forall i | 0 <= i && 9 * i + 9 <= |p|
        ensures FieldType(p, i) == FSTRM_CONTROL_FIELD_CONTENT_TYPE
      {
        if i > 0 {
          FieldTypeShift(p, i - 1);
        }
      }
    }
  }

  /** The loop succeeds exactly when every whole 9-byte field starts with the content-type
      marker 1. */
  lemma {:induction false} ParseFieldsSucceedsIff(p: seq<byte>)
    ensures ParseFields(p).Ok? <==> AllFieldsTyped(p)
    decreases |p|
  {
    if |p| <= 8 {
      return;
    }
    ParseFieldsSucceedsIff(p[9..]);
    AllFieldsTypedStep(p);
    if BytesToInt32(p[..4]) == FSTRM_CONTROL_FIELD_CONTENT_TYPE {
      ParseFieldsOneField(p);
    }
  }

  /** A successful loop over more than 8 bytes took the first field and then succeeded on
      the rest. */
  lemma ParseFieldsOkStep(p: seq<byte>)
    requires ParseFields(p).Ok? && |p| > 8
    ensures ParseFields(p[9..]).Ok?
    ensures ParseFields(p).value.0 == [p[8]] + ParseFields(p[9..]).value.0
  {
    assert BytesToInt32(p[..4]) == FSTRM_CONTROL_FIELD_CONTENT_TYPE;
    ParseFieldsOneField(p);
  }

  /** The last byte of each whole 9-byte field, in order. */
  function FieldBytes(p: seq<byte>): seq<byte>
    decreases |p|
  {
    if |p| <= 8 then [] else [p[8]] + FieldBytes(p[9..])
  }

  lemma {:induction false} FieldBytesAt(p: seq<byte>, i: nat)
    requires 9 * i + 9 <= |p|
    ensures |FieldBytes(p)| > i && FieldBytes(p)[i] == FieldByte(p, i)
    decreases i
  {
    if i > 0 {
      FieldBytesAt(p[9..], i - 1);
      assert p[9..][9 * (i - 1) + 8] == p[9 * i + 8];
    }
  }

  /** A successful loop collects exactly the last byte of each field. */
  lemma {:induction false} ParseFieldsContent(p: seq<byte>)
    requires ParseFields(p).Ok?
    ensures ParseFields(p).value.0 == FieldBytes(p)
    decreases |p|
  {
    if |p| > 8 {
      ParseFieldsOkStep(p);
      ParseFieldsContent(p[9..]);
    }
  }

  /** The loop, in closed form: it succeeds exactly when every whole 9-byte field starts
      with the content-type marker 1; it then collects the last byte of each field, and the
      tail is the fewer than 9 bytes after the last whole field. */
  lemma ParseFieldsCharacterised(p: seq<byte>)
    ensures ParseFields(p).Ok? <==> AllFieldsTyped(p)
    ensures ParseFields(p).Ok? ==>
              |ParseFields(p).value.1| < 9 &&
              ParseFields(p).value.1 == p[9 * |ParseFields(p).value.0|..] &&
              forall i :: 0 <= i < |ParseFields(p).value.0| ==>
                ParseFields(p).value.0[i] == FieldByte(p, i)
  {
    ParseFieldsSucceedsIff(p);
    if ParseFields(p).Ok? {
      var content := ParseFields(p).value.0;
      ParseFieldsContent(p);
      forall i | 0 <= i < |content|
        ensures content[i] == FieldByte(p, i)
      {
        FieldBytesAt(p, i);
      }
    }
  }

  /** The decoder reads back exactly the content the encoder writes, with nothing left over,
      because each encoded field is 9 bytes long and starts with the marker 1. */
  lemma {:induction false} ParseEncodedFields(content: seq<byte>)
    ensures ParseFields(EncodeFields(content)) == Ok((content, []))
    decreases |content|
  {
    if content != [] {
      var p := EncodeFields(content);
      var p' := EncodeFields(content[1..]);
      assert p == FieldEncoding(content[0]) + p';
      assert p[..4] == Int32ToBytes(FSTRM_CONTROL_FIELD_CONTENT_TYPE);
      Int32RoundTrip(FSTRM_CONTROL_FIELD_CONTENT_TYPE);
      var q := Skip(p, 8);
      assert q == [content[0]] + p';
      assert Take(q, 1) == [content[0]] && Skip(q, 1) == p';
      ParseEncodedFields(content[1..]);
      assert [content[0]] + content[1..] == content;
    }
  }

  // ---------------------------------------------------------------------------------------
  // Round trips

  /** The frames the encoder and decoder agree on: a data frame with a non-empty payload
      (an empty one starts like a control frame), or a control frame whose length field
      does not wrap around. */
  predicate RoundTrips(f: Frame)
  {
    if f.frameType == FSTRM_DATA_FRAME then 0 < |f.payload| <= INT32_MAX
    else 4 + 9 * |f.content| <= INT32_MAX
  }

  /** What decoding an encoded frame gives back: a data frame keeps only its payload, a
      control frame keeps its type and content and gets an empty payload. */
  function Decoded(f: Frame): Frame
  {
    if f.frameType == FSTRM_DATA_FRAME then Frame(FSTRM_DATA_FRAME, [], f.payload)
    else Frame(f.frameType, f.content, [])
  }

  /** Probing a fresh codec holding an encoded control frame reads both markers. */
  lemma ControlProbe(f: Frame, rest: seq<byte>)
    requires f.frameType != FSTRM_DATA_FRAME && RoundTrips(f)
    ensures ProcessStep(InitialState(Encoded(f) + rest)) ==
              (true, CodecState(Encoded(f)[8..] + rest, Some(0), Some(4 + 9 * |f.content|)))
  {
    var e := Encoded(f);
    var b := e + rest;
    assert b[..4] == e[..4] == [0, 0, 0, 0];
    assert b[4..][..4] == e[4..8];
    assert b[4..][4..] == e[8..] + rest;
  }

  /** Decoding the probed state gives back the control frame without payload. */
  lemma ControlDecode(f: Frame, rest: seq<byte>)
    requires f.frameType != FSTRM_DATA_FRAME && RoundTrips(f)
    ensures DecodeStep(CodecState(Encoded(f)[8..] + rest, Some(0), Some(4 + 9 * |f.content|))) ==
              (Ok(Decoded(f)), InitialState(rest))
  {
    var e := Encoded(f);
    var s2 := CodecState(e[8..] + rest, Some(0), Some(4 + 9 * |f.content|));
    assert s2.buffer[..BodyLength(s2)] == e[8..];
    assert s2.buffer[BodyLength(s2)..] == rest;
    var body := e[8..];
    assert body[..4] == e[8..12];
    assert Skip(body, 4) == e[12..] == EncodeFields(f.content);
    ParseEncodedFields(f.content);
  }

  lemma ControlRoundTrip(f: Frame, rest: seq<byte>)
    requires f.frameType != FSTRM_DATA_FRAME && RoundTrips(f)
    ensures var p := ProcessStep(InitialState(Encoded(f) + rest));
            p.0 && ControlLengthCoversType(p.1) && DecodeStep(p.1) == (Ok(Decoded(f)), InitialState(rest))
  {
    ControlProbe(f, rest);
    ControlDecode(f, rest);
  }

  lemma DataRoundTrip(f: Frame, rest: seq<byte>)
    requires f.frameType == FSTRM_DATA_FRAME && RoundTrips(f)
    ensures var p := ProcessStep(InitialState(Encoded(f) + rest));
            p.0 && ControlLengthCoversType(p.1) && DecodeStep(p.1) == (Ok(Decoded(f)), InitialState(rest))
  {
    var e := Encoded(f);
    var b := e + rest;
    assert b[..4] == e[..4];
    assert b[4..] == f.payload + rest;
    var s1 := CodecState(f.payload + rest, Some(|f.payload|), None);
    assert ProcessStep(InitialState(b)) == (true, s1);
    assert s1.buffer[..BodyLength(s1)] == f.payload;
    assert s1.buffer[BodyLength(s1)..] == rest;
  }

  /** Encode, append to a fresh codec (followed by any further bytes), probe, decode: the
      probe succeeds, the decoded frame is `Decoded(f)`, which `Equals` the original unless a
      control frame had a payload, and exactly the further bytes remain buffered. */
  lemma RoundTrip(f: Frame, rest: seq<byte>)
    requires RoundTrips(f)
    ensures var p := ProcessStep(InitialState(Encoded(f) + rest));
            p.0 && ControlLengthCoversType(p.1) && DecodeStep(p.1) == (Ok(Decoded(f)), InitialState(rest))
    ensures Decoded(f).frameType == f.frameType
    ensures Equals(Decoded(f), f) <==> f.frameType == FSTRM_DATA_FRAME || f.payload == []
  {
    if f.frameType == FSTRM_DATA_FRAME {
      DataRoundTrip(f, rest);
    } else {
      ControlRoundTrip(f, rest);
    }
  }

  /** Two frames back to back: decoding the first leaves exactly the second, which a further
      probe and decode yield without appending anything. */
  lemma TwoFramesInSequence(f1: Frame, f2: Frame)
    requires RoundTrips(f1) && RoundTrips(f2)
    ensures var p1 := ProcessStep(InitialState(Encoded(f1) + Encoded(f2)));
            var d1 := DecodeStep(p1.1);
            var p2 := ProcessStep(d1.1);
            var d2 := DecodeStep(p2.1);
            p1.0 && d1.0 == Ok(Decoded(f1)) && p2.0 && d2 == (Ok(Decoded(f2)), InitialState([]))
  {
    RoundTrip(f1, Encoded(f2));
    RoundTrip(f2, []);
    assert Encoded(f2) + [] == Encoded(f2);
  }

  /** No strict prefix of an encoded frame is reported complete. */
  lemma EncodedPrefixIncomplete(f: Frame, k: nat)
    requires RoundTrips(f) && k < |Encoded(f)|
    ensures !ProcessStep(InitialState(Encoded(f)[..k])).0
    ensures ControlLengthCoversType(ProcessStep(InitialState(Encoded(f)[..k])).1)
  {
    var e := Encoded(f);
    var b := e[..k];
    if k >= 4 {
      assert b[..4] == e[..4];
      if f.frameType != FSTRM_DATA_FRAME && k >= 8 {
        assert b[4..][..4] == e[4..8];
      }
    }
  }

  /** Chunked delivery of one encoded frame: every probe before the last chunk says
      "incomplete". */
  lemma ChunkedDeliveryIncomplete(f: Frame, chunks: seq<seq<byte>>, i: nat)
    requires RoundTrips(f) && Concat(chunks) == Encoded(f)
    requires 0 < i <= |chunks| && |Concat(chunks[..i])| < |Encoded(f)|
    ensures !Feed(InitialState([]), chunks[..i]).0
  {
    ConcatSplit(chunks, i);
    var prefix := Concat(chunks[..i]);
    assert AppendState(InitialState([]), prefix) == InitialState(prefix);
    assert prefix == Encoded(f)[..|prefix|];
    EncodedPrefixIncomplete(f, |prefix|);
    FeedMatchesSingleAppend(InitialState([]), chunks[..i]);
  }

  /** Chunked delivery of one encoded frame: the probe after the last chunk leaves the codec
      exactly as a single delivery would, ready to decode the frame. */
  lemma ChunkedDeliveryComplete(f: Frame, chunks: seq<seq<byte>>)
    requires RoundTrips(f) && Concat(chunks) == Encoded(f) && |chunks| > 0
    ensures Feed(InitialState([]), chunks).0
    ensures DecodeStep(Feed(InitialState([]), chunks).1) == (Ok(Decoded(f)), InitialState([]))
  {
    assert AppendState(InitialState([]), Encoded(f)) == InitialState(Encoded(f));
    RoundTrip(f, []);
    assert Encoded(f) + [] == Encoded(f);
    FeedMatchesSingleAppend(InitialState([]), chunks);
  }

  /** A data frame with an empty payload encodes to a zero marker, which the decoder takes
      for the start of a control frame: the frame is never reported complete on its own.
      The data frame scenario of the repository (src/Fstrm.NET.Tests/CodecTests.cs:102-117)
      builds exactly such a frame. */
  lemma EmptyDataFrameReadsAsControlMarker(content: seq<byte>)
    ensures Encoded(NewFrameWithoutPayload(FSTRM_DATA_FRAME, content)) == [0, 0, 0, 0]
    ensures ProcessStep(InitialState(Encoded(NewFrameWithoutPayload(FSTRM_DATA_FRAME, content)))) ==
              (false, CodecState([], Some(0), None))
  {
    var e := Encoded(NewFrameWithoutPayload(FSTRM_DATA_FRAME, content));
    assert e == e[..4] + e[4..];
    BytesRoundTrip(e[..4]);
  }

  /** "protobuf:dnstap.Dnstap" in ASCII. */
  const DNSTAP_CONTENT_TYPE: seq<byte> :=
    [112, 114, 111, 116, 111, 98, 117, 102, 58, 100, 110, 115, 116, 97, 112, 46, 68, 110, 115, 116, 97, 112]

  /** The Ready scenario: the READY frame with content type "protobuf:dnstap.Dnstap",
      appended to a fresh codec, is complete and decodes to a READY frame. */
  lemma ControlReadyScenario()
    ensures var p := ProcessStep(AppendState(InitialState([]), Encoded(NewFrameWithoutPayload(FSTRM_CONTROL_READY, DNSTAP_CONTENT_TYPE))));
            p.0 && DecodeStep(p.1).0.Ok? && DecodeStep(p.1).0.value.frameType == FSTRM_CONTROL_READY
  {
    var f := NewFrameWithoutPayload(FSTRM_CONTROL_READY, DNSTAP_CONTENT_TYPE);
    RoundTrip(f, []);
    assert Encoded(f) + [] == Encoded(f);
    assert AppendState(InitialState([]), Encoded(f)) == InitialState(Encoded(f));
  }

  // ---------------------------------------------------------------------------------------
  // GetPendingNumberOfBytes

  /** Once a positive length marker is known, the pending count is exactly the number of
      further bytes after which the probe reports the frame complete. */
  lemma PendingBytesIsExact(s: CodecState, q: seq<byte>)
    requires s.dataframeLength.Some?
    requires s.dataframeLength.value > 0 ||
             (s.dataframeLength.value == 0 && s.controlframeLength.Some? && s.controlframeLength.value >= 4)
    ensures ProcessStep(AppendState(s, q)).0 <==> |q| >= PendingBytes(s)
  {
  }

  // ---------------------------------------------------------------------------------------
  // The expectation helpers

  /** `IsReady`/`IsAccept`/`IsStart` on an encoded control frame: true and the frame is
      consumed when its type is the expected one; otherwise the unexpected type is reported
      and the frame is consumed all the same. */
  lemma ExpectOnEncodedControlFrame(f: Frame, rest: seq<byte>, expected: int32)
    requires f.frameType != FSTRM_DATA_FRAME && RoundTrips(f)
    ensures ExpectStep(InitialState([]), Encoded(f) + rest, expected) ==
              (if f.frameType == expected then Ok(true) else Err(UnexpectedFrame(f.frameType)), InitialState(rest))
  {
    ControlRoundTrip(f, rest);
    assert AppendState(InitialState([]), Encoded(f) + rest) == InitialState(Encoded(f) + rest);
  }

  /** `IsReady`/`IsAccept`/`IsStart` on a strict prefix of an encoded frame: false. */
  lemma ExpectOnPrefix(f: Frame, k: nat, expected: int32)
    requires RoundTrips(f) && k < |Encoded(f)|
    ensures ExpectStep(InitialState([]), Encoded(f)[..k], expected).0 == Ok(false)
  {
    EncodedPrefixIncomplete(f, k);
    assert AppendState(InitialState([]), Encoded(f)[..k]) == InitialState(Encoded(f)[..k]);
  }

  /** `IsData` as written never returns a payload: when the first decode succeeds it has
      cleared both markers, so the second decode always fails. */
  lemma IsDataNeverYieldsPayload(s: CodecState, data: seq<byte>)
    ensures !(IsDataStep(s, data).0.Ok? && IsDataStep(s, data).0.value.Some?)
  {
  }

  /** `IsData` as written on an encoded data frame: it complains about the data frame. */
  lemma IsDataRejectsDataFrame(f: Frame)
    requires f.frameType == FSTRM_DATA_FRAME && RoundTrips(f)
    ensures IsDataStep(InitialState([]), Encoded(f)).0 == Err(UnexpectedFrame(FSTRM_DATA_FRAME))
  {
    DataRoundTrip(f, []);
    assert Encoded(f) + [] == Encoded(f);
    assert AppendState(InitialState([]), Encoded(f)) == InitialState(Encoded(f));
  }

  /** `IsData` corrected: an encoded data frame yields its payload and is consumed. */
  lemma IsDataIntendedYieldsPayload(f: Frame, rest: seq<byte>)
    requires f.frameType == FSTRM_DATA_FRAME && RoundTrips(f)
    ensures IsDataIntendedStep(InitialState([]), Encoded(f) + rest) == (Ok(Some(f.payload)), InitialState(rest))
  {
    DataRoundTrip(f, rest);
    assert AppendState(InitialState([]), Encoded(f) + rest) == InitialState(Encoded(f) + rest);
  }

  // ---------------------------------------------------------------------------------------
  // The state invariant

  /** Every operation keeps a control length only alongside a zero data length. */
  lemma WellFormedPreserved(s: CodecState, q: seq<byte>)
    requires WellFormed(s)
    ensures WellFormed(AppendState(s, q)) && WellFormed(ResetState(s))
    ensures WellFormed(ProcessStep(s).1) && WellFormed(DecodeStep(s).1)
  {
  }
}
