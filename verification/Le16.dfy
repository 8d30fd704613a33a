/**
 * A hand-written Format: one identifier byte, a two-byte little-endian length, the Value
 * (examples/tlv/src/custom_format.c, composed by tlv/src/formats/compose.c).
 */
module Le16 {
  import opened Tlv
  import opened FormatContract
  import opened NativeCalls
  import opened Endian
  import R = Reader
  import W = Writer

  datatype Field<T> = Field(content: T, used: size_t) | Bad(status: Status)

  function ReadTag(data: bytes): Field<View> {
    if |data| == 0 then Bad(ErrTruncated) else Field(Into(0, 1), 1)
  }

  function ReadLength(data: bytes): Field<nat> {
    if |data| < 2 then Bad(ErrTruncated) else Field(U16LE(data), 2)
  }

  /** The identifier field's size and byte. */
  function WriteTag(tag: Tag): Field<bytes> {
    if |tag.Bytes()| != 1 then Bad(ErrInvalidTagSize) else Field(tag.Bytes(), 1)
  }

  function WriteLength(length: nat): Field<bytes> {
    if length > 0xFFFF then Bad(ErrInvalidLength) else Field(BytesU16LE(length), 2)
  }

  const NOTHING := Decoded(Null(0), Null(0), 0, NO_RANGE, NO_RANGE, NO_RANGE, NO_RANGE, NO_RANGE, SourceBinding)

  function Failure(status: Status, region: Region, offset: size_t): DecodeReply {
    DecodeReply(status, NOTHING, NO_ERROR.(region := region, offset := Some(offset)))
  }

  /** Tag, then length, then as many Value bytes as the length says. */
  function DecodeFields(data: bytes): DecodeReply {
    match ReadTag(data)
    case Bad(status) => Failure(status, TagRegion, 0)
    case Field(tag, used) =>
      match ReadLength(data[1..])
      case Bad(status) => Failure(status, LengthRegion, 1)
      case Field(length, width) =>
        if length > |data| - 3 then
          var failed := Failure(ErrTruncated, ValueRegion, 3);
          failed.(error :=
            failed.error.(required := Some(length), tag := Range(0, 1, true), length := Range(1, 2, true)))
        else
          DecodeReply(Ok,
            Decoded(tag, Into(3, length), 3 + length,
              Range(0, 3, true), Range(0, 1, true), Range(1, 2, true), Range(3, length, true),
              Range(3 + length, 0, true), SourceBinding),
            NO_ERROR)
  }

  const NO_SIZES := Encoding(0, 0, 0, 0)

  function MeasureFields(e: Element): MeasureReply {
    match WriteTag(e.tag)
    case Bad(status) => MeasureReply(status, NO_SIZES, NO_ERROR)
    case Field(_, t) =>
      match WriteLength(|e.value|)
      case Bad(status) => MeasureReply(status, NO_SIZES, NO_ERROR)
      case Field(_, l) => MeasureReply(Ok, Encoding(t + l, |e.value|, 0, t + l + |e.value|), NO_ERROR)
  }

  function Header(e: Element): bytes
    requires WriteTag(e.tag).Field? && WriteLength(|e.value|).Field?
  {
    WriteTag(e.tag).content + WriteLength(|e.value|).content
  }

  function EncodeFields(e: Element, capacity: nat): EncodeReply {
    if WriteTag(e.tag).Bad? then EncodeReply(WriteTag(e.tag).status, 0, map[], NO_ERROR)
    else if WriteLength(|e.value|).Bad? then EncodeReply(WriteLength(|e.value|).status, 0, map[], NO_ERROR)
    else if 3 + |e.value| > capacity then EncodeReply(ErrBufferTooShort, 0, map[], NO_ERROR)
    else
      var wire := Header(e) + e.value;
      EncodeReply(Ok, 3 + |e.value|, map i: nat | 0 <= i < |wire| :: wire[i], NO_ERROR)
  }

  /** The composed descriptor; the example leaves `nested` out, other users classify identifiers. */
  function Composed(nested: Option<Tag -> bool>): Format {
    Format(Some(DecodeFields), Some(MeasureFields), Some(EncodeFields), nested)
  }

  /** Exactly the elements with a one-byte identifier and at most 65535 Value bytes are encoded. */
  lemma Representable(nested: Option<Tag -> bool>, e: Element)
    ensures MeasureOutcome(Composed(nested), e).Sizes? <==> |e.tag.Bytes()| == 1 && |e.value| <= 0xFFFF
    ensures MeasureOutcome(Composed(nested), e).Sizes? ==>
      MeasureOutcome(Composed(nested), e).encoding.total == 3 + |e.value|
  {
  }

  lemma EncodesToHeaderAndValue(nested: Option<Tag -> bool>, e: Element, before: bytes)
    requires MeasureOutcome(Composed(nested), e).Sizes? && |before| == 3 + |e.value|
    ensures EncodeInto(Composed(nested), e, before) == W.Coded(Header(e) + e.value)
  {
    Representable(nested, e);
    assert Overlay(before, EncodeFields(e, |before|).stored) == Header(e) + e.value;
  }

  /** Plain or closing, a successful native encoding is the header followed by the Value. */
  lemma WritesOneWire(nested: Option<Tag -> bool>, e: Element, closing: bool)
    requires W.Encode(WriterCalls(Composed(nested)), e, closing).Coded?
    ensures MeasureOutcome(Composed(nested), e).Sizes?
    ensures W.Encode(WriterCalls(Composed(nested)), e, closing).data == Header(e) + e.value
  {
    Representable(nested, e);
    var n := 3 + |e.value|;
    EncodesToHeaderAndValue(nested, e, if closing then e.value + Zeros(3) else Zeros(n));
  }

  lemma ReadsItsEncoding(nested: Option<Tag -> bool>, e: Element)
    requires MeasureOutcome(Composed(nested), e).Sizes?
    ensures NativeRead(Composed(nested), Header(e) + e.value, false) == R.Got(e, 3 + |e.value|)
  {
    hide DecodeFields, MeasureFields, Header;
    Representable(nested, e);
    DecodesItsFields(e);
    assert Composed(nested).decode.value(Header(e) + e.value) == DecodeFields(Header(e) + e.value);
  }

  lemma DecodesItsFields(e: Element)
    requires |e.tag.Bytes()| == 1 && |e.value| <= 0xFFFF
    ensures var wire := Header(e) + e.value;
      |wire| == 3 + |e.value| && wire[0..1] == e.tag.Bytes() && wire[3..3 + |e.value|] == e.value
    ensures var n := |e.value|;
      DecodeFields(Header(e) + e.value)
      == DecodeReply(Ok,
           Decoded(Into(0, 1), Into(3, n), 3 + n,
             Range(0, 3, true), Range(0, 1, true), Range(1, 2, true), Range(3, n, true), Range(3 + n, 0, true),
             SourceBinding),
           NO_ERROR)
  {
    var wire := Header(e) + e.value;
    assert U16LE(wire[1..]) == |e.value|;
  }

  lemma IsPrefixStable(nested: Option<Tag -> bool>)
    ensures R.PrefixStable(ReaderCalls(Composed(nested)))
  {
    var read := ReaderCalls(Composed(nested));
    forall w: bytes, x: bytes, final: bool | read(w, false) != R.Stop(NeedMoreData)
      ensures read(w + x, final) == read(w, false)
    {
      Extends(nested, w, x, final);
    }
  }

  /** A window too short for an element pauses; any other window already decides. */
  lemma Extends(nested: Option<Tag -> bool>, w: bytes, x: bytes, final: bool)
    requires NativeRead(Composed(nested), w, false) != R.Stop(NeedMoreData)
    ensures NativeRead(Composed(nested), w + x, final) == NativeRead(Composed(nested), w, false)
  {
    assert |w| >= 3;
    var length := U16LE(w[1..]);
    assert w[1..][0] == w[1] && w[1..][1] == w[2];
    assert (w + x)[1..][0] == w[1] && (w + x)[1..][1] == w[2];
    assert length <= |w| - 3;
    assert (w + x)[3..3 + length] == w[3..3 + length];
    assert (w + x)[0..1] == w[0..1];
  }
}
