/**
 * The core's contract layer around Format callbacks (tlv/src/format.c). A Format is any
 * collection of deterministic callbacks; nothing is assumed about what they answer.
 */
module FormatContract {
  import opened Tlv

  datatype Range = Range(offset: size_t, size: size_t, present: bool)

  const NO_RANGE := Range(0, 0, false)

  datatype Region = HeaderRegion | TagRegion | LengthRegion | ValueRegion | TrailerRegion

  datatype FormatError = FormatError(
    region: Region, offset: Option<size_t>, required: Option<u64>,
    tag: Range, length: Range, value: Range)

  const NO_ERROR := FormatError(HeaderRegion, None, None, NO_RANGE, NO_RANGE, NO_RANGE)

  /** A pointer and size a decoder hands back: NULL, into the input, or format-owned storage. */
  datatype View = Null(size: u64) | Into(offset: int, size: u64) | Stored(data: bytes) {
    function Size(): nat {
      if Stored? then |data| else size
    }
  }

  datatype Binding = SourceBinding | FormatBinding | OtherBinding

  /** tlv_decoded_t as a callback leaves it. */
  datatype Decoded = Decoded(
    tag: View, value: View, size: size_t,
    header: Range, tagRange: Range, length: Range, body: Range, trailer: Range,
    binding: Binding)

  datatype DecodeReply = DecodeReply(status: Status, decoded: Decoded, error: FormatError)

  datatype Encoding = Encoding(header: u64, value: u64, trailer: u64, total: u64)

  datatype MeasureReply = MeasureReply(status: Status, encoding: Encoding, error: FormatError)

  /** What an encoder did to its destination: the bytes it stored, by position. */
  datatype EncodeReply = EncodeReply(status: Status, used: size_t, stored: map<nat, byte>, error: FormatError)

  datatype Format = Format(
    decode: Option<bytes -> DecodeReply>,
    measure: Option<Element -> MeasureReply>,
    encode: Option<(Element, nat) -> EncodeReply>,
    isConstructed: Option<Tag -> bool>)
  {
    predicate CanRead() {
      decode.Some?
    }

    predicate CanWrite() {
      measure.Some? && encode.Some?
    }

    predicate Constructed(tag: Tag) {
      isConstructed.Some? && isConstructed.value(tag)
    }
  }

  // ----- Statuses a callback may report -----

  function CallbackResult(status: Status, allowEnd: bool): Status {
    match status
    case End => if allowEnd then End else ErrCallback
    case NeedMoreData => ErrCallback
    case Unknown(_) => ErrCallback
    case _ => status
  }

  /** Not an answer a callback may give: control statuses and unknown values. */
  predicate Improper(status: Status) {
    status in {End, NeedMoreData} || status.Unknown?
  }

  // ----- size_t and tlv_size_t arithmetic, which wraps -----

  function AddNative(a: size_t, b: size_t): size_t {
    if a + b <= SIZE_MAX then a + b else a + b - SIZE_MAX - 1
  }

  function SubNative(a: size_t, b: size_t): size_t {
    if b <= a then a - b else a - b + SIZE_MAX + 1
  }

  function AddLogical(a: u64, b: u64): Option<u64> {
    if b > U64_MAX - a then None else Some(a + b)
  }

  predicate RangeValid(r: Range, size: size_t) {
    !r.present || (r.offset <= size && r.size <= SubNative(size, r.offset))
  }

  predicate TagBindingValid(d: Decoded) {
    match d.binding
    case SourceBinding =>
      if d.tagRange.present then d.tag.Into? && d.tag.size == d.tagRange.size && d.tag.offset == d.tagRange.offset
      else d.tag == Null(0)
    case FormatBinding => !d.tag.Null?
    case OtherBinding => false
  }

  /** The conjunction tlv_format_decode evaluates, in wrapping size_t arithmetic. */
  predicate ChecksPass(d: Decoded, available: size_t) {
    && d.header.present && d.body.present && d.trailer.present
    && d.size != 0 && d.size <= available && d.header.offset == 0
    && RangeValid(d.header, d.size) && RangeValid(d.body, d.size) && RangeValid(d.trailer, d.size)
    && RangeValid(d.tagRange, d.size) && RangeValid(d.length, d.size)
    && d.body.offset == d.header.size
    && d.trailer.offset == AddNative(d.body.offset, d.body.size)
    && d.trailer.size == SubNative(d.size, d.trailer.offset)
    && d.value.Size() == d.body.size
    && d.value.Into? && d.value.offset == d.body.offset
    && TagBindingValid(d)
  }

  // ----- What a successful decode promises, in unbounded arithmetic -----

  predicate Inside(r: Range, size: nat) {
    r.present ==> r.offset + r.size <= size
  }

  /** Header, value and trailer follow one another and fill exactly the first `size` bytes. */
  predicate Tiles(d: Decoded) {
    && d.header.present && d.body.present && d.trailer.present
    && d.header.offset == 0
    && d.body.offset == d.header.size
    && d.trailer.offset == d.header.size + d.body.size
    && d.header.size + d.body.size + d.trailer.size == d.size
  }

  predicate WellFormed(d: Decoded, available: nat) {
    && 0 < d.size <= available
    && Tiles(d)
    && Inside(d.tagRange, d.size) && Inside(d.length, d.size)
    && d.value == Into(d.body.offset, d.body.size)
    && TagBindingValid(d)
  }

  lemma RangeValidIsInside(r: Range, size: size_t)
    ensures RangeValid(r, size) <==> Inside(r, size)
  {
    if r.present && r.offset <= size {
      assert SubNative(size, r.offset) == size - r.offset;
    }
  }

  /** No sum or difference in the checks wraps: they accept exactly the well-formed results. */
  lemma ChecksAreExact(d: Decoded, available: size_t)
    ensures ChecksPass(d, available) <==> WellFormed(d, available)
  {
    RangeValidIsInside(d.header, d.size);
    RangeValidIsInside(d.body, d.size);
    RangeValidIsInside(d.trailer, d.size);
    RangeValidIsInside(d.tagRange, d.size);
    RangeValidIsInside(d.length, d.size);
    if d.body.offset + d.body.size <= d.size {
      assert AddNative(d.body.offset, d.body.size) == d.body.offset + d.body.size;
    }
    if d.trailer.offset <= d.size {
      assert SubNative(d.size, d.trailer.offset) == d.size - d.trailer.offset;
    }
  }

  /** The semantic element a decoded description denotes over its input. */
  function Denoted(d: Decoded, input: bytes): Element
    requires WellFormed(d, |input|)
  {
    Element(
      match d.tag {
        case Null(_) => Absent
        case Stored(data) => Present(data)
        case Into(offset, size) =>
          if 0 <= offset && offset + size <= |input| then Present(input[offset..offset + size]) else Absent
      },
      input[d.body.offset..d.body.offset + d.body.size])
  }

  /** Which bytes an accepted description may call its identifier, by the storage it claims for it. */
  lemma TagIsBound(d: Decoded, input: bytes)
    requires 0 < d.size <= |input| && Tiles(d) && d.value == Into(d.body.offset, d.body.size)
    requires Inside(d.tagRange, d.size) && Inside(d.length, d.size)
    ensures WellFormed(d, |input|) <==>
      || (d.binding == SourceBinding && d.tagRange.present && d.tag == Into(d.tagRange.offset, d.tagRange.size))
      || (d.binding == SourceBinding && !d.tagRange.present && d.tag == Null(0))
      || (d.binding == FormatBinding && !d.tag.Null?)
    ensures WellFormed(d, |input|) && d.binding == SourceBinding ==>
      var r := d.tagRange;
      Denoted(d, input).tag == if r.present then Present(input[r.offset..r.offset + r.size]) else Absent
    ensures WellFormed(d, |input|) && d.tag.Stored? ==> Denoted(d, input).tag == Present(d.tag.data)
    ensures WellFormed(d, |input|) ==>
      Denoted(d, input).value == input[d.header.size..d.header.size + d.body.size]
  {
    assert d.tag.Into? ==> d.tag == Into(d.tag.offset, d.tag.size);
  }

  datatype Outcome = Failed(status: Status) | Accepted(decoded: Decoded)

  function DecodeStatus(status: Status): Status {
    var rc := CallbackResult(status, false);
    if rc == ErrBufferTooShort then ErrCallback else rc
  }

  /** What decoding an input means: the reference for the method below and for every reader. */
  function DecodeOutcome(f: Format, input: bytes): Outcome
    requires f.CanRead()
  {
    if input == [] then Failed(End)
    else
      var reply := f.decode.value(input);
      var rc := DecodeStatus(reply.status);
      if rc != Ok then Failed(rc)
      else if WellFormed(reply.decoded, |input|) then Accepted(reply.decoded)
      else Failed(ErrCallback)
  }

  function ClipError(e: FormatError, size: size_t): FormatError {
    e.(tag := if RangeValid(e.tag, size) then e.tag else e.tag.(present := false),
       length := if RangeValid(e.length, size) then e.length else e.length.(present := false),
       value := if RangeValid(e.value, size) then e.value else e.value.(present := false))
  }

  lemma ClippedRangesAreInside(e: FormatError, size: size_t)
    ensures var c := ClipError(e, size); Inside(c.tag, size) && Inside(c.length, size) && Inside(c.value, size)
    ensures Inside(e.tag, size) && Inside(e.length, size) && Inside(e.value, size) ==> ClipError(e, size) == e
    ensures var c := ClipError(e, size);
      && c.tag in {e.tag, e.tag.(present := false)} && (Inside(e.tag, size) ==> c.tag == e.tag)
      && c.length in {e.length, e.length.(present := false)} && (Inside(e.length, size) ==> c.length == e.length)
      && c.value in {e.value, e.value.(present := false)} && (Inside(e.value, size) ==> c.value == e.value)
  {
    RangeValidIsInside(e.tag, size);
    RangeValidIsInside(e.length, size);
    RangeValidIsInside(e.value, size);
  }

  method Decode(f: Format, input: bytes)
    returns (rc: Status, decoded: Option<Decoded>, error: FormatError)
    requires |input| <= SIZE_MAX
    ensures !f.CanRead() ==> rc == ErrNullArg && decoded.None? && error == NO_ERROR
    ensures f.CanRead() ==>
      match DecodeOutcome(f, input)
      case Accepted(d) => rc == Ok && decoded == Some(d)
      case Failed(status) =>
        && rc == status != Ok && decoded == None
        && Inside(error.tag, |input|) && Inside(error.length, |input|) && Inside(error.value, |input|)
        && error
           == if input == [] then NO_ERROR.(offset := Some(0)) else ClipError(f.decode.value(input).error, |input|)
    ensures f.CanRead() && input == [] ==> rc == End
    ensures f.CanRead() && input != [] ==>
      var reply := f.decode.value(input);
      rc == if Improper(reply.status) || reply.status == ErrBufferTooShort then ErrCallback
            else if reply.status == Ok && !WellFormed(reply.decoded, |input|) then ErrCallback
            else reply.status
  {
    decoded, error := None, NO_ERROR;
    if !f.CanRead() {
      return ErrNullArg, None, NO_ERROR;
    }
    if |input| == 0 {
      return End, None, NO_ERROR.(offset := Some(0));
    }
    var reply := f.decode.value(input);
    var d := reply.decoded;
    rc := CallbackResult(reply.status, false);
    if rc == ErrBufferTooShort {
      rc := ErrCallback;
    }
    if rc == Ok {
      ChecksAreExact(d, |input|);
      if !ChecksPass(d, |input|) {
        rc := ErrCallback;
      }
    }
    if rc != Ok {
      ClippedRangesAreInside(reply.error, |input|);
      error := ClipError(reply.error, |input|);
      return;
    }
    decoded := Some(d);
  }

  // ----- Measuring and encoding -----

  datatype Measured = Refused(status: Status) | Sizes(encoding: Encoding)

  /** An exact total: the three parts, added as unbounded integers, and the Value kept whole. */
  predicate ExactSizes(e: Element, sizes: Encoding) {
    && sizes.total > 0
    && sizes.value == |e.value|
    && sizes.total == sizes.header + sizes.value + sizes.trailer
  }

  function MeasureOutcome(f: Format, e: Element): Measured
    requires f.CanWrite()
  {
    var reply := f.measure.value(e);
    var rc := CallbackResult(reply.status, false);
    if rc != Ok then Refused(rc)
    else if ExactSizes(e, reply.encoding) then Sizes(reply.encoding)
    else Refused(ErrCallback)
  }

  method Measure(f: Format, e: Element) returns (rc: Status, encoding: Option<Encoding>, error: FormatError)
    ensures !f.CanWrite() ==> rc == ErrNullArg && encoding == None
    ensures f.CanWrite() ==>
      match MeasureOutcome(f, e)
      case Refused(status) => rc == status != Ok && encoding == None && error == f.measure.value(e).error
      case Sizes(sizes) => rc == Ok && encoding == Some(sizes)
    ensures f.CanWrite() ==>
      var reply := f.measure.value(e);
      var sizes := reply.encoding;
      rc == if Improper(reply.status) then ErrCallback
            else if reply.status == Ok
              && !(0 < sizes.total == sizes.header + sizes.value + sizes.trailer && sizes.value == |e.value|) then
              ErrCallback
            else reply.status
  {
    encoding, error := None, NO_ERROR;
    if !f.CanWrite() {
      return ErrNullArg, None, NO_ERROR;
    }
    var reply := f.measure.value(e);
    rc := CallbackResult(reply.status, false);
    if rc == Ok {
      var total := AddLogical(reply.encoding.header, reply.encoding.value);
      if total.Some? {
        total := AddLogical(total.value, reply.encoding.trailer);
      }
      if total.None? || total.value == 0 || reply.encoding.value != |e.value| || reply.encoding.total != total.value {
        rc := ErrCallback;
      }
    }
    if rc != Ok {
      error := reply.error;
      return;
    }
    encoding := Some(reply.encoding);
  }

  /** A destination after an encoder stored its bytes. */
  function Overlay(before: bytes, stored: map<nat, byte>): (after: bytes)
    ensures |after| == |before|
  {
    seq(|before|, i requires 0 <= i < |before| => if i in stored then stored[i] else before[i])
  }

  function Zeros(n: nat): (z: bytes)
    ensures |z| == n
  {
    seq(n, i => 0)
  }

  datatype Encoded = Rejected(status: Status) | Short(required: size_t) | Wrote(size: size_t, stored: map<nat, byte>)

  /** The reference for encoding: preflight failures never consult the encoder. */
  function EncodeOutcome(f: Format, e: Element, capacity: nat): Encoded
    requires f.CanWrite()
  {
    match MeasureOutcome(f, e)
    case Refused(status) => Rejected(status)
    case Sizes(sizes) =>
      if sizes.total > SIZE_MAX then Rejected(ErrNativeSize)
      else if capacity < sizes.total then Short(sizes.total)
      else
        var reply := f.encode.value(e, capacity);
        var rc := CallbackResult(reply.status, false);
        if rc != Ok then Rejected(rc)
        else if reply.used != sizes.total then Rejected(ErrCallback)
        else Wrote(sizes.total, reply.stored)
  }

  /** The encoder ran: it alone may have touched the destination. */
  predicate EncoderRuns(f: Format, e: Element, capacity: nat)
    requires f.CanWrite()
  {
    var m := MeasureOutcome(f, e);
    m.Sizes? && m.encoding.total <= SIZE_MAX && m.encoding.total <= capacity
  }

  method Encode(f: Format, e: Element, data: array<byte>, base: nat, capacity: size_t)
    returns (rc: Status, written: Option<size_t>, error: FormatError)
    requires base + capacity <= data.Length
    modifies data
    ensures !f.CanWrite() ==> rc == ErrNullArg && written == None && data[..] == old(data[..])
    ensures f.CanWrite() ==>
      match EncodeOutcome(f, e, capacity)
      case Rejected(status) => rc == status != Ok && written == None
      case Short(required) =>
        rc == ErrBufferTooShort && written == Some(required) && error.required == Some(required)
      case Wrote(size, stored) =>
        && rc == Ok && written == Some(size) && size <= capacity
        && data[base..base + capacity] == Overlay(old(data[base..base + capacity]), stored)
    ensures f.CanWrite() && !EncoderRuns(f, e, capacity) ==> data[..] == old(data[..])
    ensures f.CanWrite() && MeasureOutcome(f, e).Sizes? ==>
      var total := MeasureOutcome(f, e).encoding.total;
      && (total > SIZE_MAX ==> rc == ErrNativeSize && written == None)
      && (capacity < total <= SIZE_MAX ==> rc == ErrBufferTooShort && written == Some(total))
    ensures f.CanWrite() && EncoderRuns(f, e, capacity) ==>
      var reply := f.encode.value(e, capacity);
      rc == if Improper(reply.status) then ErrCallback
            else if reply.status == Ok && reply.used != f.measure.value(e).encoding.total then ErrCallback
            else reply.status
    ensures data[..base] == old(data[..base]) && data[base + capacity..] == old(data[base + capacity..])
  {
    written := None;
    var encoding;
    rc, encoding, error := Measure(f, e);
    if rc != Ok {
      return;
    }
    var total := encoding.value.total;
    if total > SIZE_MAX {
      return ErrNativeSize, None, error;
    }
    if capacity < total {
      error := NO_ERROR.(region := ValueRegion, offset := Some(0), required := Some(total));
      return ErrBufferTooShort, Some(total), error;
    }
    var reply := f.encode.value(e, capacity);
    Store(data, base, capacity, reply.stored);
    rc := CallbackResult(reply.status, false);
    if rc == Ok && reply.used != total {
      rc := ErrCallback;
    }
    if rc != Ok {
      return rc, None, reply.error;
    }
    written := Some(reply.used);
  }

  /** The effect of one encoder call on its destination. */
  method Store(data: array<byte>, base: nat, capacity: nat, stored: map<nat, byte>)
    requires base + capacity <= data.Length
    modifies data
    ensures data[base..base + capacity] == Overlay(old(data[base..base + capacity]), stored)
    ensures data[..base] == old(data[..base]) && data[base + capacity..] == old(data[base + capacity..])
  {
    forall i | 0 <= i < capacity && i in stored {
      data[base + i] := stored[i];
    }
  }

  /** A successful encode writes as many bytes as header, value and trailer add up to. */
  lemma EncodeIsExact(f: Format, e: Element, capacity: nat)
    requires f.CanWrite()
    ensures match EncodeOutcome(f, e, capacity)
      case Wrote(size, _) =>
        var m := MeasureOutcome(f, e);
        m.Sizes? && size == m.encoding.header + |e.value| + m.encoding.trailer && 0 < size <= capacity
      case Short(required) =>
        var m := MeasureOutcome(f, e);
        m.Sizes? && required == m.encoding.header + |e.value| + m.encoding.trailer > capacity
      case Rejected(_) => true
  {
  }

  // ----- Reproducing an unmodified source -----

  datatype Source = Source(input: bytes, decoded: Decoded)

  /** tlv_source_preserve into data[base..base + capacity]; no destination queries the size. */
  method Preserve(source: Source, e: Element, data: array?<byte>, base: nat, capacity: nat)
    returns (rc: Status, written: Option<size_t>)
    requires |source.input| <= SIZE_MAX && WellFormed(source.decoded, |source.input|)
    requires if data == null then capacity == 0 else base + capacity <= data.Length
    modifies data
    ensures rc == ErrInvalidArg <==> e != Denoted(source.decoded, source.input)
    ensures rc == ErrInvalidArg ==> written == None
    ensures rc != ErrInvalidArg ==> written == Some(source.decoded.size)
    ensures rc == Ok <==>
      e == Denoted(source.decoded, source.input) && (data == null || source.decoded.size <= capacity)
    ensures rc in {Ok, ErrInvalidArg, ErrBufferTooShort}
    ensures data != null && rc == Ok ==>
      && data[base..base + source.decoded.size] == source.input[..source.decoded.size]
      && data[..base] == old(data[..base])
      && data[base + source.decoded.size..] == old(data[base + source.decoded.size..])
    ensures data != null && rc != Ok ==> data[..] == old(data[..])
  {
    var original := Denoted(source.decoded, source.input);
    if (e.tag.Bytes() == [] && e.tag.Absent? != original.tag.Absent?)
      || |e.tag.Bytes()| != |original.tag.Bytes()| || |e.value| != |original.value|
    {
      return ErrInvalidArg, None;
    }
    if e.tag.Bytes() != original.tag.Bytes() || e.value != original.value {
      return ErrInvalidArg, None;
    }
    var size := source.decoded.size;
    if data != null && capacity < size {
      return ErrBufferTooShort, Some(size);
    }
    if data != null {
      forall i | 0 <= i < size {
        data[base + i] := source.input[i];
      }
    }
    return Ok, Some(size);
  }
}
