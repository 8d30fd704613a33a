/** The Go binding's native calls (bindings/go/internal/capi) as functions of a Format. */
module NativeCalls {
  import opened Tlv
  import opened FormatContract
  import R = Reader
  import W = Writer

  /** Decode the first element of a window; incomplete non-final input pauses instead of failing. */
  function NativeRead(f: Format, window: bytes, final: bool): R.Reply {
    if !f.CanRead() then R.Stop(ErrNullArg)
    else if window == [] then R.Stop(if final then End else NeedMoreData)
    else
      match DecodeOutcome(f, window)
      case Accepted(d) => R.Got(Denoted(d, window), d.size)
      case Failed(status) => R.Stop(if status == ErrTruncated && !final then NeedMoreData else status)
  }

  /** The same read, performed through the contract layer's checks. */
  method Read(f: Format, window: bytes, final: bool) returns (reply: R.Reply)
    requires |window| <= SIZE_MAX
    ensures reply == NativeRead(f, window, final)
    ensures f.CanRead() && window != [] ==>
      match DecodeOutcome(f, window)
      case Accepted(d) => reply == R.Got(Denoted(d, window), d.size)
      case Failed(status) => reply == R.Stop(if status == ErrTruncated && !final then NeedMoreData else status)
    ensures f.CanRead() && window == [] ==> reply == R.Stop(if final then End else NeedMoreData)
  {
    if !f.CanRead() {
      return R.Stop(ErrNullArg);
    }
    if |window| == 0 {
      return R.Stop(if final then End else NeedMoreData);
    }
    var rc, decoded, error := Decode(f, window);
    if rc == Ok {
      return R.Got(Denoted(decoded.value, window), decoded.value.size);
    }
    return R.Stop(if rc == ErrTruncated && !final then NeedMoreData else rc);
  }

  /** Every readable Format, however its callbacks behave, gives the Reader a sound native read. */
  function ReaderCalls(f: Format): R.Native
    requires f.CanRead()
  {
    var read := (w: bytes, final: bool) => NativeRead(f, w, final);
    assert R.Sound(read);
    read
  }

  function NativeMeasure(f: Format, e: Element): (s: W.Sized)
    requires f.CanWrite()
    ensures s.NoSize? ==> s.code != Ok
  {
    match MeasureOutcome(f, e)
    case Refused(status) => W.NoSize(status)
    case Sizes(sizes) =>
      if sizes.total > SIZE_MAX || sizes.total > MAX_INT then W.NoSize(ErrNativeSize) else W.Size(sizes.total)
  }

  /** One encoder call into a buffer whose content is known. */
  function EncodeInto(f: Format, e: Element, before: bytes): (c: W.Coded)
    requires f.CanWrite()
    ensures if c.Coded? then |c.data| == |before| else c.code != Ok
  {
    match EncodeOutcome(f, e, |before|)
    case Rejected(status) => W.NoBytes(status)
    case Short(_) => W.NoBytes(ErrBufferTooShort)
    case Wrote(_, stored) => W.Coded(Overlay(before, stored))
  }

  /** Opening a parent needs a constructed identifier. */
  function NativeBegin(f: Format, tag: Tag): Status {
    if f.Constructed(tag) then Ok else ErrInvalidTag
  }

  /** Closing stages the Value at the front of the buffer and encodes over it. */
  function NativeEnd(f: Format, e: Element, n: nat): (c: W.Coded)
    requires f.CanWrite()
    ensures if c.Coded? then |c.data| == n else c.code != Ok
  {
    if !f.Constructed(e.tag) then W.NoBytes(ErrInvalidTag)
    else if n < |e.value| then W.NoBytes(ErrBufferTooShort)
    else EncodeInto(f, e, e.value + Zeros(n - |e.value|))
  }

  function WriterCalls(f: Format): W.Native
    requires f.CanWrite()
  {
    hide NativeMeasure, NativeBegin, EncodeInto, NativeEnd;
    var calls := W.Calls(
      e => NativeMeasure(f, e),
      tag => NativeBegin(f, tag),
      (e, n: nat) => EncodeInto(f, e, Zeros(n)),
      (e, n: nat) => NativeEnd(f, e, n));
    assert W.Sound(calls);
    calls
  }
}
