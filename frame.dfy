/** The `Frame` value of Fstrm.NET: a frame type tag, the control content bytes and the
    payload bytes, with an equality that looks at the payload alone. */
module Frames {
  import opened Wire

  /** Frame type tags. The enumeration itself is not part of this model: the control
      types carry the ordinals of the Frame Streams C library, and the data frame tag is
      the enumeration's default value 0. A cast from any `int` is allowed, so a frame
      type is any 32-bit integer. */
  const FSTRM_DATA_FRAME: int32 := 0
  const FSTRM_CONTROL_ACCEPT: int32 := 1
  const FSTRM_CONTROL_START: int32 := 2
  const FSTRM_CONTROL_STOP: int32 := 3
  const FSTRM_CONTROL_READY: int32 := 4
  const FSTRM_CONTROL_FINISH: int32 := 5

  datatype Frame = Frame(frameType: int32, content: seq<byte>, payload: seq<byte>)

  /** `new Frame(frameType, content, payload)`. */
  function NewFrame(frameType: int32, content: seq<byte>, payload: seq<byte>): (f: Frame)
    ensures f.frameType == frameType && f.content == content && f.payload == payload
  {
    Frame(frameType, content, payload)
  }

  /** `new Frame(frameType, content)`: the payload is the empty array. */
  function NewFrameWithoutPayload(frameType: int32, content: seq<byte>): (f: Frame)
    ensures f.frameType == frameType && f.content == content && f.payload == []
  {
    NewFrame(frameType, content, [])
  }

  /** `Frame.Equals(Frame)`: element-wise equality of the payloads only. */
  predicate Equals(self: Frame, other: Frame): (r: bool)
    ensures r <==> |self.payload| == |other.payload| &&
                   forall i :: 0 <= i < |self.payload| ==> self.payload[i] == other.payload[i]
  {
    self.payload == other.payload
  }

  /** `operator ==`. */
  predicate OpEquality(left: Frame, right: Frame): (r: bool)
    ensures r <==> left.payload == right.payload
  {
    Equals(left, right)
  }

  /** `operator !=`. */
  predicate OpInequality(left: Frame, right: Frame): (r: bool)
    ensures r <==> left.payload != right.payload
  {
    !OpEquality(left, right)
  }

  /** Frame type and content play no part in equality. */
  lemma EqualsIgnoresTypeAndContent(t1: int32, c1: seq<byte>, t2: int32, c2: seq<byte>, p: seq<byte>)
    ensures Equals(NewFrame(t1, c1, p), NewFrame(t2, c2, p))
  {
  }

  /** Two frames are equal exactly when their payloads are the same byte sequence. */
  lemma EqualsIffSamePayload(a: Frame, b: Frame)
    ensures Equals(a, b) <==> a.payload == b.payload
    ensures |a.payload| != |b.payload| ==> !Equals(a, b)
  {
  }

  /** A READY and an ACCEPT frame with different content still compare equal. */
  lemma EqualityIsCoarserThanIdentity()
    ensures var a := NewFrameWithoutPayload(FSTRM_CONTROL_READY, [1]);
            var b := NewFrameWithoutPayload(FSTRM_CONTROL_ACCEPT, [2]);
            a != b && OpEquality(a, b)
  {
  }

  /** `Equals` is an equivalence relation, since it is equality of payload sequences. */
  lemma EqualsIsEquivalence()
    ensures forall a: Frame :: Equals(a, a)
    ensures forall a: Frame, b: Frame :: Equals(a, b) ==> Equals(b, a)
    ensures forall a: Frame, b: Frame, c: Frame :: Equals(a, b) && Equals(b, c) ==> Equals(a, c)
  {
  }

  /** Any two frames built with the two-argument constructor compare equal. */
  lemma PayloadlessFramesAreEqual(t1: int32, c1: seq<byte>, t2: int32, c2: seq<byte>)
    ensures OpEquality(NewFrameWithoutPayload(t1, c1), NewFrameWithoutPayload(t2, c2))
  {
  }

  /** `!=` is the negation of `==`, and `==` is `Equals`. */
  lemma OperatorsAgreeWithEquals(a: Frame, b: Frame)
    ensures OpEquality(a, b) <==> Equals(a, b)
    ensures OpInequality(a, b) <==> !OpEquality(a, b)
  {
  }
}
