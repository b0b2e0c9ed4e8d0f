/** `FstrmCodec`: the incremental Frame Streams codec. The state of a codec is a FIFO byte
    buffer and two optional length markers; `CodecState` is that state as a value and the
    `...Step` functions say what each operation does to it. The class `FstrmCodec` holds
    the same state in fields and each of its methods is proved against those functions. */
module Codec {
  import opened Wrappers
  import opened Wire
  import opened Frames

  const FSTRM_CONTROL_FIELD_CONTENT_TYPE: int32 := 1
  const CONTROL_FRAME_TYPE_SIZE: nat := 4
  const CONTROL_FRAME_CONTENT_TYPE_SIZE: nat := 4
  const CONTROL_FRAME_CONTENT_TYPE_LENGTH_SIZE: nat := 4
  const FRAME_LENGTH_SECTION_SIZE: nat := 4

  /** The failures the codec signals. `MissingLengthMarker` is the `InvalidOperationException`
      of reading `.Value` of a null marker; `ShortField` is a 4-byte integer read from fewer
      than 4 bytes; the others are the `FstrmException`s of the source. */
  datatype CodecError =
    | MissingLengthMarker
    | ShortField
    | InvalidContentType
    | InvalidContentLength
    | UnexpectedFrame(frameType: int32)

  datatype CodecState = CodecState(
    buffer: seq<byte>,
    dataframeLength: Option<int32>,
    controlframeLength: Option<int32>)

  /** The state of a newly constructed codec, optionally seeded with bytes. */
  function InitialState(frameData: seq<byte>): (s: CodecState)
    ensures s.buffer == frameData && s.dataframeLength.None? && s.controlframeLength.None?
  {
    CodecState(frameData, None, None)
  }

  /** A control frame length is only ever known once the data frame length is known to be 0. */
  predicate WellFormed(s: CodecState)
  {
    s.controlframeLength.Some? ==> s.dataframeLength == Some(0)
  }

  function MarkerCount(s: CodecState): nat
  {
    (if s.dataframeLength.Some? then 1 else 0) + (if s.controlframeLength.Some? then 1 else 0)
  }

  // ---------------------------------------------------------------------------------------
  // Integer fields

  /** `UnpackInt(bytes, 4)`: the 32-bit integer in the first four bytes. */
  function UnpackInt(bytes: seq<byte>): (r: Result<int32, CodecError>)
    ensures r.Ok? <==> |bytes| >= 4
    ensures r.Err? ==> r.error == ShortField
    ensures r.Ok? ==> r.value == BytesToInt32(bytes[..4]) && Int32ToBytes(r.value) == bytes[..4]
  {
    var head := Take(bytes, 4);
    if |head| < 4 then Err(ShortField)
    else
      BytesRoundTrip(head);
      Ok(BytesToInt32(head))
  }

  // ---------------------------------------------------------------------------------------
  // Reset, Append, GetPendingNumberOfBytes

  function ResetState(s: CodecState): (t: CodecState)
    ensures t.buffer == s.buffer && t.dataframeLength.None? && t.controlframeLength.None?
  {
    s.(dataframeLength := None, controlframeLength := None)
  }

  function AppendState(s: CodecState, frameData: seq<byte>): (t: CodecState)
    ensures t.buffer == s.buffer + frameData
    ensures t.dataframeLength == s.dataframeLength && t.controlframeLength == s.controlframeLength
  {
    s.(buffer := s.buffer + frameData)
  }

  /** How many more bytes the current frame needs: exact once a positive length marker has
      been read (see `PendingBytesIsExact`), otherwise the size of one marker. */
  function PendingBytes(s: CodecState): (n: int)
    ensures s.dataframeLength.Some? && s.dataframeLength.value > 0 ==> |s.buffer| + n == s.dataframeLength.value
    ensures (!(s.dataframeLength.Some? && s.dataframeLength.value > 0) &&
             s.controlframeLength.Some? && s.controlframeLength.value > 0) ==>
              |s.buffer| + n == s.controlframeLength.value
    ensures (!(s.dataframeLength.Some? && s.dataframeLength.value > 0) &&
             !(s.controlframeLength.Some? && s.controlframeLength.value > 0)) ==>
              n == FRAME_LENGTH_SECTION_SIZE
  {
    if s.dataframeLength.Some? && s.dataframeLength.value > 0 then
      s.dataframeLength.value - |s.buffer|
    else if s.controlframeLength.Some? && s.controlframeLength.value > 0 then
      s.controlframeLength.value - |s.buffer|
    else
      FRAME_LENGTH_SECTION_SIZE
  }

  // ---------------------------------------------------------------------------------------
  // Process

  /** The buffered bytes cover the body whose length the markers announce. */
  predicate BodyBuffered(s: CodecState)
  {
    match s.dataframeLength
    case None => false
    case Some(d) =>
      if d != 0 then |s.buffer| >= d
      else s.controlframeLength.Some? && |s.buffer| >= s.controlframeLength.value
  }

  /** The length of the body `Decode` slices off: the marker, or 0 for a negative marker
      since `Take` of a negative count takes nothing. */
  function BodyLength(s: CodecState): (n: nat)
    requires BodyBuffered(s)
    ensures n <= |s.buffer|
  {
    var len := if s.dataframeLength.value != 0 then s.dataframeLength.value else s.controlframeLength.value;
    Clamp(len, |s.buffer|)
  }

  /** The second half of `Process`, once the data frame length is known. */
  function ProcessMarked(s: CodecState): (r: (bool, CodecState))
    requires s.dataframeLength.Some?
    ensures r.1.dataframeLength == s.dataframeLength
    ensures s.controlframeLength.Some? ==> r.1 == s
    // a control length is read only for a control frame, and is read once 4 bytes are there
    ensures s.dataframeLength != Some(0) ==> r.1 == s
    ensures s.dataframeLength == Some(0) && s.controlframeLength.None? && |s.buffer| >= 4 ==>
              r.1.controlframeLength.Some?
    ensures r.1 == s || (s.controlframeLength.None? && |s.buffer| >= 4 &&
                         r.1.controlframeLength == Some(BytesToInt32(s.buffer[..4])) && r.1.buffer == s.buffer[4..])
    ensures r.0 <==> BodyBuffered(r.1) &&
                     (r.1.dataframeLength != Some(0) || s.controlframeLength.None? || |r.1.buffer| >= 4)
  {
    if s.dataframeLength.value == 0 then
      if |s.buffer| < FRAME_LENGTH_SECTION_SIZE then (false, s)
      else
        var t := if s.controlframeLength.None?
          then s.(buffer := s.buffer[4..], controlframeLength := Some(BytesToInt32(s.buffer[..4])))
          else s;
        (|t.buffer| >= t.controlframeLength.value, t)
    else
      (|s.buffer| >= s.dataframeLength.value, s)
  }

  /** `Process`: the "frame complete?" probe. */
  function ProcessStep(s: CodecState): (r: (bool, CodecState))
    // each marker is read at most once and is kept once read
    ensures s.dataframeLength.Some? ==> r.1.dataframeLength == s.dataframeLength
    ensures s.controlframeLength.Some? ==> r.1.controlframeLength == s.controlframeLength
    // only the markers read are consumed, from the head of the buffer
    ensures MarkerCount(s) <= MarkerCount(r.1)
    ensures |s.buffer| - |r.1.buffer| == 4 * (MarkerCount(r.1) - MarkerCount(s))
    ensures |r.1.buffer| <= |s.buffer| <= |r.1.buffer| + 8
    ensures r.1.buffer == s.buffer[|s.buffer| - |r.1.buffer|..]
    // a marker read in this call holds the value of the bytes it was read from
    ensures s.dataframeLength.None? && r.1.dataframeLength.Some? ==>
              r.1.dataframeLength.value == BytesToInt32(s.buffer[..4])
    ensures s.controlframeLength.None? && r.1.controlframeLength.Some? ==>
              r.1.controlframeLength.value == BytesToInt32(s.buffer[|s.buffer| - |r.1.buffer| - 4..|s.buffer| - |r.1.buffer|])
    // without a marker and with fewer than 4 bytes, nothing happens
    ensures s.dataframeLength.None? && |s.buffer| < 4 ==> r == (false, s)
    // ... and markers are read as soon as their bytes are buffered
    ensures s.dataframeLength.None? && |s.buffer| >= 4 ==> r.1.dataframeLength == Some(BytesToInt32(s.buffer[..4]))
    ensures (r.1.dataframeLength == Some(0) && s.controlframeLength.None? &&
             |s.buffer| >= (if s.dataframeLength.None? then 8 else 4)) ==>
              r.1.controlframeLength.Some?
    // the answer: the body is buffered, and a control frame whose length marker was
    // already known also needs at least 4 buffered bytes
    ensures r.0 <==> BodyBuffered(r.1) &&
                     (r.1.dataframeLength != Some(0) || s.controlframeLength.None? || |r.1.buffer| >= 4)
    ensures WellFormed(s) ==> WellFormed(r.1)
  {
    if s.dataframeLength.None? then
      if |s.buffer| < FRAME_LENGTH_SECTION_SIZE then (false, s)
      else
        var s1 := s.(buffer := s.buffer[4..], dataframeLength := Some(BytesToInt32(s.buffer[..4])));
        var r := ProcessMarked(s1);
        assert MarkerCount(s1) == MarkerCount(s) + 1;
        assert r.1 != s1 ==> r.1.buffer == s.buffer[8..] && s1.buffer[..4] == s.buffer[4..8] && MarkerCount(r.1) == MarkerCount(s1) + 1;
        r
    else
      var r := ProcessMarked(s);
      assert r.1 != s ==> MarkerCount(r.1) == MarkerCount(s) + 1;
      r
  }

  // ---------------------------------------------------------------------------------------
  // Decode

  /** `CreateDataFrame`. */
  function CreateDataFrame(frame: seq<byte>): (f: Frame)
    ensures f.frameType == FSTRM_DATA_FRAME && f.content == [] && f.payload == frame
  {
    NewFrame(FSTRM_DATA_FRAME, [], frame)
  }

  /** `CreateControlFrame`. */
  function CreateControlFrame(controlframeType: int32, content: seq<byte>, payload: seq<byte>): (f: Frame)
    ensures f.frameType == controlframeType && f.content == content && f.payload == payload
  {
    NewFrame(controlframeType, content, payload)
  }

  /** Adds `content` in front of the content a successful parse collected. */
  function PrependContent(content: seq<byte>, r: Result<(seq<byte>, seq<byte>), CodecError>): (p: Result<(seq<byte>, seq<byte>), CodecError>)
    ensures content == [] ==> p == r
    ensures p.Ok? <==> r.Ok?
  {
    match r
    case Ok((c, rest)) => assert [] + c == c; Ok((content + c, rest))
    case Err(e) => Err(e)
  }

  lemma PrependContentTwice(a: seq<byte>, b: seq<byte>, r: Result<(seq<byte>, seq<byte>), CodecError>)
    ensures PrependContent(a, PrependContent(b, r)) == PrependContent(a + b, r)
  {
    if r.Ok? {
      assert a + (b + r.value.0) == (a + b) + r.value.0;
    }
  }

  /** The content-type field loop of `Decode`: the content collected and the unparsed tail.
      As in the source, the content length is read from the same four bytes as the content
      type, so a field that passes the type check has length 1 and takes 9 bytes. */
  function ParseFields(p: seq<byte>): (r: Result<(seq<byte>, seq<byte>), CodecError>)
    ensures r.Err? ==> r.error == InvalidContentType
    ensures r.Ok? ==> |r.value.1| <= 8 && 9 * |r.value.0| + |r.value.1| == |p|
    ensures r.Ok? ==> |r.value.1| <= |p| && r.value.1 == p[|p| - |r.value.1|..]
    decreases |p|
  {
    if |p| <= 8 then Ok(([], p))
    else
      var contentType := BytesToInt32(p[..4]);
      var contentLength := BytesToInt32(p[..4]);
      var q := Skip(p, CONTROL_FRAME_CONTENT_TYPE_SIZE + CONTROL_FRAME_CONTENT_TYPE_LENGTH_SIZE);
      if contentType != FSTRM_CONTROL_FIELD_CONTENT_TYPE then Err(InvalidContentType)
      else if contentLength > |q| then Err(InvalidContentLength)
      else
        var tail := ParseFields(Skip(q, contentLength));
        assert |Skip(q, contentLength)| == |p| - 9;
        PrependContent(Take(q, contentLength), tail)
  }

  lemma ParseFieldsStep(p: seq<byte>)
    requires |p| > 8
    ensures var q := Skip(p, 8);
            var t := BytesToInt32(p[..4]);
            ParseFields(p) ==
              if t != FSTRM_CONTROL_FIELD_CONTENT_TYPE then Err(InvalidContentType)
              else if t > |q| then Err(InvalidContentLength)
              else PrependContent(Take(q, t), ParseFields(Skip(q, t)))
  {
  }

  /** The control frame a control body decodes to: the type from the first four bytes, then
      the content-type fields; the tail the loop leaves becomes the payload. */
  function ControlFrameOf(body: seq<byte>): (r: Result<Frame, CodecError>)
    ensures r.Err? ==> r.error == ShortField || r.error == InvalidContentType
    ensures r.Err? && r.error == ShortField <==> |body| < 4
    ensures r.Ok? ==> r.value.frameType == BytesToInt32(body[..4])
    ensures r.Ok? ==> |r.value.payload| <= 8 && |r.value.payload| <= |body| &&
                      r.value.payload == body[|body| - |r.value.payload|..]
    ensures r.Ok? ==> 4 + 9 * |r.value.content| + |r.value.payload| == |body|
  {
    match UnpackInt(body)
    case Err(e) => Err(e)
    case Ok(controlframeType) =>
      match ParseFields(Skip(body, CONTROL_FRAME_TYPE_SIZE))
      case Err(e) => Err(e)
      case Ok((content, rest)) => Ok(CreateControlFrame(controlframeType, content, rest))
  }

  /** `Decode`: slices one frame body off the head, resets the markers, and builds the frame. */
  function DecodeStep(s: CodecState): (r: (Result<Frame, CodecError>, CodecState))
    // no body length known: nothing happens
    ensures r.0 == Err(MissingLengthMarker) <==>
              s.dataframeLength.None? || (s.dataframeLength == Some(0) && s.controlframeLength.None?)
    ensures r.0 == Err(MissingLengthMarker) ==> r.1 == s
    // otherwise a prefix of the buffer is consumed and both markers are cleared
    ensures r.0 != Err(MissingLengthMarker) ==>
              r.1.dataframeLength.None? && r.1.controlframeLength.None? &&
              |r.1.buffer| <= |s.buffer| && r.1.buffer == s.buffer[|s.buffer| - |r.1.buffer|..]
    // when the body is buffered, exactly the body is consumed
    ensures BodyBuffered(s) ==> r.1 == CodecState(s.buffer[BodyLength(s)..], None, None)
    ensures BodyBuffered(s) && s.dataframeLength.value != 0 ==>
              r.0 == Ok(Frame(FSTRM_DATA_FRAME, [], s.buffer[..BodyLength(s)]))
    ensures BodyBuffered(s) && s.dataframeLength.value == 0 ==>
              r.0 == ControlFrameOf(s.buffer[..BodyLength(s)])
  {
    if s.dataframeLength == Some(0) then
      if s.controlframeLength.None? then (Err(MissingLengthMarker), s)
      else
        var payload := Take(s.buffer, s.controlframeLength.value);
        var rest := ResetState(s.(buffer := Skip(s.buffer, s.controlframeLength.value)));
        (ControlFrameOf(payload), rest)
    else if s.dataframeLength.None? then (Err(MissingLengthMarker), s)
    else
      var payload := Take(s.buffer, s.dataframeLength.value);
      var rest := ResetState(s.(buffer := Skip(s.buffer, s.dataframeLength.value)));
      (Ok(CreateDataFrame(payload)), rest)
  }

  /** The loop of `Decode` that parses a control frame body (the frame type, then the
      content-type fields while more than 8 bytes remain). */
  method DecodeControlFrame(body: seq<byte>) returns (r: Result<Frame, CodecError>)
    ensures r == ControlFrameOf(body)
  {
    var controlframeType := UnpackInt(body);
    if controlframeType.Err? {
      return Err(controlframeType.error);
    }
    var payload := Skip(body, CONTROL_FRAME_TYPE_SIZE);
    var content: seq<byte> := [];
    while |payload| > 8
      invariant ParseFields(Skip(body, CONTROL_FRAME_TYPE_SIZE)) == PrependContent(content, ParseFields(payload))
      decreases |payload|
    {
      ghost var field := payload;
      var contentType := UnpackInt(payload);
      var contentLength := UnpackInt(payload);
      payload := Skip(payload, CONTROL_FRAME_CONTENT_TYPE_SIZE + CONTROL_FRAME_CONTENT_TYPE_LENGTH_SIZE);
      if contentType.value != FSTRM_CONTROL_FIELD_CONTENT_TYPE {
        return Err(InvalidContentType);
      }
      if contentLength.value > |payload| {
        return Err(InvalidContentLength);
      }
      ParseFieldsStep(field);
      PrependContentTwice(content, Take(payload, contentLength.value), ParseFields(Skip(payload, contentLength.value)));
      content := content + Take(payload, contentLength.value);
      payload := Skip(payload, contentLength.value);
    }
    assert content + [] == content;
    r := Ok(CreateControlFrame(controlframeType.value, content, payload));
  }

  // ---------------------------------------------------------------------------------------
  // Encode

  /** One content-type field as the encoder writes it: the field type 1, a length of 4
      (`sizeof(int)`), and a single content byte. */
  function FieldEncoding(c: byte): (b: seq<byte>)
    ensures |b| == 9 && b[8] == c
    ensures BytesToInt32(b[..4]) == FSTRM_CONTROL_FIELD_CONTENT_TYPE && BytesToInt32(b[4..8]) == 4
  {
    Int32RoundTrip(FSTRM_CONTROL_FIELD_CONTENT_TYPE);
    Int32RoundTrip(4);
    Int32ToBytes(FSTRM_CONTROL_FIELD_CONTENT_TYPE) + Int32ToBytes(4) + [c]
  }

  /** The encoder's content region: one field per content byte. */
  function EncodeFields(content: seq<byte>): (b: seq<byte>)
    ensures |b| == 9 * |content|
  {
    if content == [] then [] else FieldEncoding(content[0]) + EncodeFields(content[1..])
  }

  /** A control frame's length field: 4 + 9 per content byte, in unchecked `int` arithmetic. */
  function ControlLength(content: seq<byte>): (n: int32)
    ensures (n - (4 + 9 * |content|)) % 0x1_0000_0000 == 0
    ensures 4 + 9 * |content| <= INT32_MAX ==> n == 4 + 9 * |content|
  {
    WrapInt32(4 + 9 * |content|)
  }

  /** What `Encode` writes for a frame. A data frame is its payload length and its payload;
      any other frame is a control frame: a zero marker, the control length, the type and the
      content fields. */
  function Encoded(frame: Frame): (r: seq<byte>)
    requires frame.frameType == FSTRM_DATA_FRAME ==> |frame.payload| <= INT32_MAX
    ensures frame.frameType == FSTRM_DATA_FRAME ==>
              |r| == 4 + |frame.payload| && BytesToInt32(r[..4]) == |frame.payload| && r[4..] == frame.payload
    ensures frame.frameType != FSTRM_DATA_FRAME ==>
              |r| == 12 + 9 * |frame.content| && r[..4] == [0, 0, 0, 0] &&
              BytesToInt32(r[4..8]) == WrapInt32(|r| - 8) && BytesToInt32(r[8..12]) == frame.frameType &&
              r[12..] == EncodeFields(frame.content)
  {
    if frame.frameType == FSTRM_DATA_FRAME then
      Int32RoundTrip(|frame.payload|);
      Int32ToBytes(|frame.payload|) + frame.payload
    else
      Int32RoundTrip(ControlLength(frame.content));
      Int32RoundTrip(frame.frameType);
      var r := Int32ToBytes(0) + Int32ToBytes(ControlLength(frame.content)) + Int32ToBytes(frame.frameType)
               + EncodeFields(frame.content);
      assert r[4..8] == Int32ToBytes(ControlLength(frame.content));
      assert r[8..12] == Int32ToBytes(frame.frameType);
      assert r[12..] == EncodeFields(frame.content);
      r
  }

  /** One turn of `Encode`'s loop: the three appends write one more field. */
  lemma AppendField(bytes: seq<byte>, content: seq<byte>, c: byte)
    ensures bytes + EncodeFields(content) + Int32ToBytes(FSTRM_CONTROL_FIELD_CONTENT_TYPE) + Int32ToBytes(4) + [c] ==
            bytes + EncodeFields(content + [c])
  {
    EncodeFieldsSnoc(content, c);
  }

  lemma {:induction false} EncodeFieldsSnoc(content: seq<byte>, c: byte)
    ensures EncodeFields(content + [c]) == EncodeFields(content) + FieldEncoding(c)
    decreases |content|
  {
    if content == [] {
      assert [c][1..] == [];
    } else {
      assert (content + [c])[1..] == content[1..] + [c];
      EncodeFieldsSnoc(content[1..], c);
    }
  }

  // ---------------------------------------------------------------------------------------
  // IsReady, IsAccept, IsStart, IsData

  /** `IsReady`/`IsAccept`/`IsStart`: append, probe, and if a frame is complete decode it and
      demand that it has the expected type. */
  function ExpectStep(s: CodecState, data: seq<byte>, expected: int32): (r: (Result<bool, CodecError>, CodecState))
    // no complete frame: false, and only the probe's effect on the state
    ensures var p := ProcessStep(AppendState(s, data));
            !p.0 ==> r == (Ok(false), p.1)
    // a complete frame: exactly one frame is decoded
    ensures var p := ProcessStep(AppendState(s, data));
            p.0 ==> r.1 == DecodeStep(p.1).1
    // true for a frame of the expected type, the unexpected type for any other
    ensures var p := ProcessStep(AppendState(s, data));
            var d := DecodeStep(p.1);
            p.0 && d.0.Ok? ==>
              r.0 == if d.0.value.frameType == expected then Ok(true) else Err(UnexpectedFrame(d.0.value.frameType))
    // a decode error is passed on
    ensures var p := ProcessStep(AppendState(s, data));
            var d := DecodeStep(p.1);
            p.0 && d.0.Err? ==> r.0 == Err(d.0.error)
  {
    var (complete, s1) := ProcessStep(AppendState(s, data));
    if !complete then (Ok(false), s1)
    else
      var (frame, s2) := DecodeStep(s1);
      match frame
      case Err(e) => (Err(e), s2)
      case Ok(f) =>
        if f.frameType != expected then (Err(UnexpectedFrame(f.frameType)), s2)
        else (Ok(true), s2)
  }

  /** `IsData` as written: it demands an ACCEPT frame and then decodes a second frame, whose
      markers the first decode has just cleared. */
  function IsDataStep(s: CodecState, data: seq<byte>): (r: (Result<Option<seq<byte>>, CodecError>, CodecState))
    ensures var p := ProcessStep(AppendState(s, data));
            !p.0 ==> r == (Ok(None), p.1)
    ensures var p := ProcessStep(AppendState(s, data));
            var d := DecodeStep(p.1);
            p.0 && d.0.Err? ==> r == (Err(d.0.error), d.1)
    ensures var p := ProcessStep(AppendState(s, data));
            var d := DecodeStep(p.1);
            p.0 && d.0.Ok? && d.0.value.frameType != FSTRM_CONTROL_ACCEPT ==>
              r == (Err(UnexpectedFrame(d.0.value.frameType)), d.1)
  {
    var (complete, s1) := ProcessStep(AppendState(s, data));
    if !complete then (Ok(None), s1)
    else
      var (frame, s2) := DecodeStep(s1);
      match frame
      case Err(e) => (Err(e), s2)
      case Ok(f) =>
        if f.frameType != FSTRM_CONTROL_ACCEPT then (Err(UnexpectedFrame(f.frameType)), s2)
        else
          var (second, s3) := DecodeStep(s2);
          match second
          case Err(e) => (Err(e), s3)
          case Ok(g) => (Ok(Some(g.payload)), s3)
  }

  /** `IsData` as evidently intended: the payload of the data frame that completed. */
  function IsDataIntendedStep(s: CodecState, data: seq<byte>): (r: (Result<Option<seq<byte>>, CodecError>, CodecState))
    // no complete frame: null, and only the probe's effect on the state
    ensures var p := ProcessStep(AppendState(s, data));
            !p.0 ==> r == (Ok(None), p.1)
    // a complete frame: exactly one frame is decoded
    ensures var p := ProcessStep(AppendState(s, data));
            p.0 ==> r.1 == DecodeStep(p.1).1
    // the payload of a data frame, the unexpected type of any other frame
    ensures var p := ProcessStep(AppendState(s, data));
            var d := DecodeStep(p.1);
            p.0 && d.0.Ok? ==>
              r.0 == if d.0.value.frameType == FSTRM_DATA_FRAME then Ok(Some(d.0.value.payload))
                     else Err(UnexpectedFrame(d.0.value.frameType))
    // a decode error is passed on
    ensures var p := ProcessStep(AppendState(s, data));
            var d := DecodeStep(p.1);
            p.0 && d.0.Err? ==> r.0 == Err(d.0.error)
  {
    var (complete, s1) := ProcessStep(AppendState(s, data));
    if !complete then (Ok(None), s1)
    else
      var (frame, s2) := DecodeStep(s1);
      match frame
      case Err(e) => (Err(e), s2)
      case Ok(f) =>
        if f.frameType != FSTRM_DATA_FRAME then (Err(UnexpectedFrame(f.frameType)), s2)
        else (Ok(Some(f.payload)), s2)
  }

  // ---------------------------------------------------------------------------------------
  // The codec object

  class FstrmCodec {
    var buffer: seq<byte>
    var dataframeLength: Option<int32>
    var controlframeLength: Option<int32>

    function State(): CodecState
      reads this
    {
      CodecState(buffer, dataframeLength, controlframeLength)
    }

    constructor ()
      ensures State() == InitialState([])
    {
      buffer := [];
      dataframeLength := None;
      controlframeLength := None;
    }

    constructor FromBytes(frameData: seq<byte>)
      ensures State() == InitialState(frameData)
    {
      buffer := frameData;
      dataframeLength := None;
      controlframeLength := None;
    }

    method Reset()
      modifies this
      ensures State() == ResetState(old(State()))
      ensures buffer == old(buffer) && dataframeLength.None? && controlframeLength.None?
    {
      dataframeLength := None;
      controlframeLength := None;
    }

    method GetPendingNumberOfBytes() returns (n: int)
      ensures n == PendingBytes(State())
    {
      if dataframeLength.Some? && dataframeLength.value > 0 {
        return dataframeLength.value - |buffer|;
      }
      if controlframeLength.Some? && controlframeLength.value > 0 {
        return controlframeLength.value - |buffer|;
      }
      return FRAME_LENGTH_SECTION_SIZE;
    }

    method Append(frameData: seq<byte>)
      modifies this
      ensures State() == AppendState(old(State()), frameData)
      ensures buffer == old(buffer) + frameData
      ensures dataframeLength == old(dataframeLength) && controlframeLength == old(controlframeLength)
    {
      buffer := buffer + frameData;
    }

    method Process() returns (complete: bool)
      modifies this
      ensures (complete, State()) == ProcessStep(old(State()))
    {
      if dataframeLength.None? {
        if |buffer| < FRAME_LENGTH_SECTION_SIZE {
          return false;
        }
        dataframeLength := Some(BytesToInt32(Take(buffer, FRAME_LENGTH_SECTION_SIZE)));
        buffer := Skip(buffer, FRAME_LENGTH_SECTION_SIZE);
      }
      if dataframeLength.value == 0 {
        if |buffer| < FRAME_LENGTH_SECTION_SIZE {
          return false;
        }
        if controlframeLength.None? {
          var length := UnpackInt(buffer);
          controlframeLength := Some(length.value);
          buffer := Skip(buffer, FRAME_LENGTH_SECTION_SIZE);
        }
        complete := |buffer| >= controlframeLength.value;
      } else {
        complete := |buffer| >= dataframeLength.value;
      }
    }

    method AppendAndProcess(frameData: seq<byte>) returns (complete: bool)
      modifies this
      ensures (complete, State()) == ProcessStep(AppendState(old(State()), frameData))
    {
      Append(frameData);
      complete := Process();
    }

    method Decode() returns (r: Result<Frame, CodecError>)
      modifies this
      ensures (r, State()) == DecodeStep(old(State()))
    {
      var isControlFrame := false;
      var payload: seq<byte>;
      if dataframeLength == Some(0) {
        if controlframeLength.None? {
          return Err(MissingLengthMarker);
        }
        payload := Take(buffer, controlframeLength.value);
        buffer := Skip(buffer, controlframeLength.value);
        isControlFrame := true;
      } else {
        if dataframeLength.None? {
          return Err(MissingLengthMarker);
        }
        payload := Take(buffer, dataframeLength.value);
        buffer := Skip(buffer, dataframeLength.value);
      }
      Reset();
      if !isControlFrame {
        return Ok(CreateDataFrame(payload));
      }
      r := DecodeControlFrame(payload);
    }

    method Encode(frame: Frame) returns (bytes: seq<byte>)
      requires frame.frameType == FSTRM_DATA_FRAME ==> |frame.payload| <= INT32_MAX
      ensures bytes == Encoded(frame)
    {
      if frame.frameType == FSTRM_DATA_FRAME {
        bytes := Int32ToBytes(|frame.payload|) + frame.payload;
        return;
      }
      var length := WrapInt32(4 + 9 * |frame.content|);
      var header := Int32ToBytes(0) + Int32ToBytes(length) + Int32ToBytes(frame.frameType);
      bytes := header;
      for i := 0 to |frame.content|
        invariant bytes == header + EncodeFields(frame.content[..i])
      {
        AppendField(header, frame.content[..i], frame.content[i]);
        assert frame.content[..i + 1] == frame.content[..i] + [frame.content[i]];
        bytes := bytes + Int32ToBytes(FSTRM_CONTROL_FIELD_CONTENT_TYPE);
        bytes := bytes + Int32ToBytes(4);
        bytes := bytes + [frame.content[i]];
      }
      assert frame.content[..|frame.content|] == frame.content;
    }

    method EncodeReady(content: seq<byte>) returns (bytes: seq<byte>)
      ensures bytes == Encoded(NewFrameWithoutPayload(FSTRM_CONTROL_READY, content))
    {
      bytes := Encode(NewFrameWithoutPayload(FSTRM_CONTROL_READY, content));
    }

    method EncodeAccept(content: seq<byte>) returns (bytes: seq<byte>)
      ensures bytes == Encoded(NewFrameWithoutPayload(FSTRM_CONTROL_ACCEPT, content))
    {
      bytes := Encode(NewFrameWithoutPayload(FSTRM_CONTROL_ACCEPT, content));
    }

    method EncodeStart(content: seq<byte>) returns (bytes: seq<byte>)
      ensures bytes == Encoded(NewFrameWithoutPayload(FSTRM_CONTROL_START, content))
    {
      bytes := Encode(NewFrameWithoutPayload(FSTRM_CONTROL_START, content));
    }

    method EncodeStop(content: seq<byte>) returns (bytes: seq<byte>)
      ensures bytes == Encoded(NewFrameWithoutPayload(FSTRM_CONTROL_STOP, content))
    {
      bytes := Encode(NewFrameWithoutPayload(FSTRM_CONTROL_STOP, content));
    }

    /** The shared body of `IsAccept`, `IsReady` and `IsStart`. */
    method Expect(data: seq<byte>, expected: int32) returns (r: Result<bool, CodecError>)
      modifies this
      ensures (r, State()) == ExpectStep(old(State()), data, expected)
    {
      var complete := AppendAndProcess(data);
      if !complete {
        return Ok(false);
      }
      var frame := Decode();
      if frame.Err? {
        return Err(frame.error);
      }
      var ctrl := frame.value.frameType;
      if ctrl != expected {
        return Err(UnexpectedFrame(ctrl));
      }
      return Ok(true);
    }

    method IsAccept(data: seq<byte>) returns (r: Result<bool, CodecError>)
      modifies this
      ensures (r, State()) == ExpectStep(old(State()), data, FSTRM_CONTROL_ACCEPT)
    {
      r := Expect(data, FSTRM_CONTROL_ACCEPT);
    }

    method IsReady(data: seq<byte>) returns (r: Result<bool, CodecError>)
      modifies this
      ensures (r, State()) == ExpectStep(old(State()), data, FSTRM_CONTROL_READY)
    {
      r := Expect(data, FSTRM_CONTROL_READY);
    }

    method IsStart(data: seq<byte>) returns (r: Result<bool, CodecError>)
      modifies this
      ensures (r, State()) == ExpectStep(old(State()), data, FSTRM_CONTROL_START)
    {
      r := Expect(data, FSTRM_CONTROL_START);
    }

    /** `IsData` as written (see `CodecProperties.IsDataNeverYieldsPayload`). */
    method IsData(data: seq<byte>) returns (r: Result<Option<seq<byte>>, CodecError>)
      modifies this
      ensures (r, State()) == IsDataStep(old(State()), data)
    {
      var complete := AppendAndProcess(data);
      if !complete {
        return Ok(None);
      }
      var frame := Decode();
      if frame.Err? {
        return Err(frame.error);
      }
      if frame.value.frameType != FSTRM_CONTROL_ACCEPT {
        return Err(UnexpectedFrame(frame.value.frameType));
      }
      var second := Decode();
      if second.Err? {
        return Err(second.error);
      }
      return Ok(Some(second.value.payload));
    }

    /** `IsData` corrected: accept a data frame and return its payload. */
    method IsDataIntended(data: seq<byte>) returns (r: Result<Option<seq<byte>>, CodecError>)
      modifies this
      ensures (r, State()) == IsDataIntendedStep(old(State()), data)
    {
      var complete := AppendAndProcess(data);
      if !complete {
        return Ok(None);
      }
      var frame := Decode();
      if frame.Err? {
        return Err(frame.error);
      }
      if frame.value.frameType != FSTRM_DATA_FRAME {
        return Err(UnexpectedFrame(frame.value.frameType));
      }
      return Ok(Some(frame.value.payload));
    }
  }
}
