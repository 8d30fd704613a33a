/** The Go binding's sequential Reader over sliding input windows (bindings/go/reader.go). */
module Reader {
  import opened Tlv

  // ----- One native read -----

  datatype Reply = Got(element: Element, size: nat) | Stop(code: Status)

  /** A read consumes part of its window, ends only at the end of final input and pauses only before it. */
  ghost predicate Sound(read: (bytes, bool) -> Reply) {
    && read([], true) == Stop(End)
    && forall w, final ::
      match read(w, final)
      case Got(_, n) => 0 < n <= |w|
      case Stop(code) => (code == End ==> w == [] && final) && (code == NeedMoreData ==> !final)
  }

  /** A native read as a function of the window; what it returns is all the Reader relies on. */
  type Native = read: (bytes, bool) -> Reply | Sound(read)
    witness (w, final) => Stop(if w == [] then if final then End else NeedMoreData else ErrUnsupported)

  /** Whatever a read answers without pausing, more input behind it cannot change. */
  ghost predicate PrefixStable(f: Native) {
    forall w: bytes, x: bytes, final: bool ::
      f(w, false) != Stop(NeedMoreData) ==> f(w + x, final) == f(w, false)
  }

  // ----- Reading a complete input once -----

  datatype Located = Located(element: Element, offset: int, size: nat)

  ghost function Elements(f: Native, full: bytes, at: nat): seq<Located>
    requires at <= |full|
    decreases |full| - at
  {
    match f(full[at..], true)
    case Got(e, n) => [Located(e, at, n)] + Elements(f, full, at + n)
    case Stop(_) => []
  }

  /** Where and why the complete read stops. */
  ghost function Verdict(f: Native, full: bytes, at: nat): (Status, nat)
    requires at <= |full|
    decreases |full| - at
  {
    match f(full[at..], true)
    case Got(_, n) => Verdict(f, full, at + n)
    case Stop(code) => (code, at)
  }

  /** Nonempty extents that follow one another and fill [from, to) exactly. */
  ghost predicate Partition(es: seq<Located>, from: int, to: int)
    decreases |es|
  {
    if es == [] then from == to
    else es[0].offset == from && es[0].size > 0 && Partition(es[1..], from + es[0].size, to)
  }

  lemma {:induction false} ElementsPartitionTheInput(f: Native, full: bytes, at: nat)
    requires at <= |full|
    ensures Partition(Elements(f, full, at), at, Verdict(f, full, at).1)
    ensures at <= Verdict(f, full, at).1 <= |full|
    ensures f(full[Verdict(f, full, at).1..], true) == Stop(Verdict(f, full, at).0)
    ensures Verdict(f, full, at).0 == End ==> Verdict(f, full, at).1 == |full|
    decreases |full| - at
  {
    match f(full[at..], true)
    case Got(e, n) =>
      ElementsPartitionTheInput(f, full, at + n);
      assert Elements(f, full, at)[1..] == Elements(f, full, at + n);
    case Stop(_) =>
  }

  /** Each of them is what a read at its place answers. */
  lemma {:induction false} ElementsAreRead(f: Native, full: bytes, at: nat, e: Located)
    requires at <= |full| && e in Elements(f, full, at)
    ensures at <= e.offset < |full| && f(full[e.offset..], true) == Got(e.element, e.size)
    decreases |full| - at
  {
    match f(full[at..], true)
    case Got(first, n) =>
      if e != Located(first, at, n) {
        ElementsAreRead(f, full, at + n, e);
      }
    case Stop(_) =>
  }

  // ----- The incremental state machine -----

  datatype ReadError = StatusError(code: Status) | ParseError(code: Status, offset: int)

  /** The Reader's fields as one value. A format of None is the invalid zero Format. */
  datatype State = State(
    format: Option<Native>, input: bytes, pos: int, base: int,
    final: bool, waiting: bool, done: bool, element: Option<Located>, err: Option<ReadError>)
  {
    function Offset(): int {
      base + pos
    }

    ghost predicate Valid() {
      && 0 <= pos <= |input| && 0 <= base && base + |input| <= MAX_INT
      && (done ==> final && pos == |input|)
      && (waiting ==> format.Some? && !final && !done && element.None? && err.None?)
    }
  }

  /** What Next leaves behind. */
  ghost function AfterNext(s: State): (t: State)
    requires s.Valid()
    ensures t.Valid()
  {
    var err := if s.format.None? && s.err.None? then Some(StatusError(ErrInvalidArg)) else s.err;
    var s := s.(element := None, err := err);
    if s.err.Some? || s.done then s
    else
      match s.format.value(s.input[s.pos..], s.final)
      case Got(e, n) => s.(waiting := false, element := Some(Located(e, s.base + s.pos, n)), pos := s.pos + n)
      case Stop(End) => s.(waiting := false, done := true)
      case Stop(NeedMoreData) => s.(waiting := true)
      case Stop(code) => s.(waiting := false, err := Some(ParseError(code, s.base + s.pos)))
  }

  /** The status SetInput answers, in unbounded integers. */
  ghost function SetInputStatus(s: State, input: bytes, discard: int, final: bool): Status {
    if s.format.None? || s.err.Some? || !(0 <= discard <= s.pos) || |input| < |s.input| - discard
      || (s.final && (!final || |input| != |s.input| - discard)) then ErrInvalidArg
    else if s.base + discard + |input| > MAX_INT then ErrOverflow
    else Ok
  }

  ghost function AfterSetInput(s: State, input: bytes, discard: int, final: bool): State {
    if SetInputStatus(s, input, discard, final) != Ok then s
    else s.(input := input, base := s.base + discard, pos := s.pos - discard, final := final, waiting := false)
  }

  class Reader {
    var input: bytes
    const format: Option<Native>
    var pos: int
    var base: int
    var final: bool
    var waiting: bool
    var done: bool
    var element: Option<Located>
    var err: Option<ReadError>

    ghost function Now(): State
      reads this
    {
      State(format, input, pos, base, final, waiting, done, element, err)
    }

    /** NewReader (final) and NewIncrementalReader (not final). */
    constructor (input: bytes, format: Option<Native>, final: bool)
      requires |input| <= MAX_INT
      ensures Now().Valid()
      ensures Now() == State(format, input, 0, 0, final, false, false, None,
                             if format.None? then Some(StatusError(ErrInvalidArg)) else None)
    {
      this.input, this.format, this.final := input, format, final;
      pos, base, waiting, done, element := 0, 0, false, false, None;
      err := if format.None? then Some(StatusError(ErrInvalidArg)) else None;
    }

    method Next() returns (found: bool)
      requires Now().Valid()
      modifies this
      ensures Now() == AfterNext(old(Now())) && Now().Valid() == true
      ensures found <==> Now().element.Some?
      ensures waiting <==> !found && !done && err.None?
    {
      hide Sound;
      element := None;
      if format.None? && err.None? {
        err := Some(StatusError(ErrInvalidArg));
      }
      if err.Some? || done {
        return false;
      }
      var reply := format.value(input[pos..], final);
      waiting := false;
      match reply {
        case Got(e, n) =>
          element := Some(Located(e, base + pos, n));
          pos := pos + n;
          return true;
        case Stop(End) =>
          done := true;
        case Stop(NeedMoreData) =>
          waiting := true;
        case Stop(code) =>
          err := Some(ParseError(code, base + pos));
      }
      return false;
    }

    method SetInput(input: bytes, discard: int, final: bool) returns (status: Status)
      requires Now().Valid() && |input| <= MAX_INT
      modifies this
      ensures Now().Valid() && Now() == AfterSetInput(old(Now()), input, discard, final)
      ensures status == SetInputStatus(old(Now()), input, discard, final)
      ensures status in {Ok, ErrInvalidArg, ErrOverflow} && (status != Ok ==> Now() == old(Now()))
      ensures status != ErrInvalidArg <==>
        && format.Some? && old(err).None? && 0 <= discard <= old(pos)
        && old(|this.input|) <= discard + |input|
        && (old(this.final) ==> final && old(|this.input|) == discard + |input|)
      ensures status == Ok ==>
        && this.input == input && this.final == final && !waiting
        && base == old(base) + discard && Now().Offset() == old(Now().Offset())
      ensures status == ErrOverflow ==> old(base) + discard + |input| > MAX_INT
    {
      if format.None? || err.Some? || discard < 0 || discard > pos || |input| < |this.input| - discard
        || (this.final && (!final || |input| != |this.input| - discard))
      {
        return ErrInvalidArg;
      }
      if discard > MAX_INT - base || |input| > MAX_INT - (base + discard) {
        return ErrOverflow;
      }
      this.input, base, pos := input, base + discard, pos - discard;
      this.final, waiting := final, false;
      return Ok;
    }
  }

  // ----- Whole runs -----

  datatype Call = Next | SetInput(input: bytes, discard: int, final: bool)

  ghost function After(s: State, c: Call): (t: State)
    requires s.Valid() && (c.SetInput? ==> |c.input| <= MAX_INT)
    ensures t.Valid()
  {
    match c
    case Next => AfterNext(s)
    case SetInput(input, discard, final) => AfterSetInput(s, input, discard, final)
  }

  /** What a caller owes: an accepted window shows the eventual input at its absolute place. */
  ghost predicate Honest(s: State, c: Call, full: bytes) {
    c.SetInput? ==>
      && |c.input| <= MAX_INT
      && (SetInputStatus(s, c.input, c.discard, c.final) == Ok ==> Shows(full, s.base + c.discard, c.input, c.final))
  }

  ghost predicate Shows(full: bytes, base: int, window: bytes, final: bool) {
    && 0 <= base && base + |window| <= |full|
    && window == full[base..base + |window|]
    && (final ==> base + |window| == |full|)
  }

  ghost predicate HonestRun(s: State, calls: seq<Call>, full: bytes)
    requires s.Valid()
    decreases |calls|
  {
    calls == [] || (Honest(s, calls[0], full) && HonestRun(After(s, calls[0]), calls[1..], full))
  }

  /** The state after a run and every element its Next calls published. */
  ghost function Run(s: State, calls: seq<Call>, full: bytes): (r: (State, seq<Located>))
    requires s.Valid() && HonestRun(s, calls, full)
    ensures r.0.Valid()
    decreases |calls|
  {
    if calls == [] then (s, [])
    else
      var t := After(s, calls[0]);
      var rest := Run(t, calls[1..], full);
      (rest.0, Published(calls[0], t) + rest.1)
  }

  ghost function Published(c: Call, t: State): seq<Located> {
    if c.Next? && t.element.Some? then [t.element.value] else []
  }

  /** Whatever the Format, only a successful Next moves the absolute cursor. */
  lemma CursorStays(s: State, c: Call)
    requires s.Valid() && (c.SetInput? ==> |c.input| <= MAX_INT)
    ensures var t := After(s, c);
      if c.Next? && t.element.Some?
      then t.Offset() == s.Offset() + t.element.value.size && t.element.value.offset == s.Offset()
      else t.Offset() == s.Offset()
  {
  }

  /** The state agrees with the complete input, and a latched end is the complete read's end. */
  ghost predicate Tracks(f: Native, s: State, full: bytes) {
    && s.Valid() && s.format == Some(f)
    && Shows(full, s.base, s.input, s.final)
    && (s.waiting ==> f(s.input[s.pos..], false) == Stop(NeedMoreData))
    && (s.done ==> Elements(f, full, s.Offset()) == [] && Verdict(f, full, s.Offset()) == (End, s.Offset()))
    && (s.err.Some? ==>
        && Elements(f, full, s.Offset()) == []
        && s.err.value == ParseError(Verdict(f, full, s.Offset()).0, s.Offset())
        && Verdict(f, full, s.Offset()).1 == s.Offset())
  }

  /** What the window decides, the complete input decides the same way. */
  lemma WindowDecides(f: Native, s: State, full: bytes)
    requires PrefixStable(f) && Tracks(f, s, full)
    ensures var reply := f(s.input[s.pos..], s.final);
      s.final || reply != Stop(NeedMoreData) ==> f(full[s.Offset()..], true) == reply
  {
    var window, behind := s.input[s.pos..], full[s.base + |s.input|..];
    assert full[s.Offset()..] == window + behind;
    if s.final {
      assert window + behind == window;
    }
  }

  lemma NextAgrees(f: Native, s: State, full: bytes)
    requires PrefixStable(f) && Tracks(f, s, full)
    ensures var t := AfterNext(s);
      && Tracks(f, t, full)
      && Verdict(f, full, s.Offset()) == Verdict(f, full, t.Offset())
      && Elements(f, full, s.Offset())
         == (if t.element.Some? then [t.element.value] else []) + Elements(f, full, t.Offset())
      && (s.final ==> t.element.Some? || t.done || t.err.Some?)
      && (s.err.None? && !s.done ==> (t.waiting <==> f(s.input[s.pos..], s.final) == Stop(NeedMoreData)))
  {
    hide PrefixStable;
    WindowDecides(f, s, full);
  }

  lemma CallAgrees(f: Native, s: State, c: Call, full: bytes)
    requires PrefixStable(f) && Tracks(f, s, full) && Honest(s, c, full)
    ensures var t := After(s, c);
      && Tracks(f, t, full)
      && Verdict(f, full, s.Offset()) == Verdict(f, full, t.Offset())
      && Elements(f, full, s.Offset()) == Published(c, t) + Elements(f, full, t.Offset())
  {
    if c.Next? {
      NextAgrees(f, s, full);
    }
  }

  lemma {:induction false} RunAgrees(f: Native, s: State, calls: seq<Call>, full: bytes)
    requires PrefixStable(f) && Tracks(f, s, full) == true && HonestRun(s, calls, full)
    ensures var (t, log) := Run(s, calls, full);
      && Tracks(f, t, full) == true
      && Elements(f, full, s.Offset()) == log + Elements(f, full, t.Offset())
      && Verdict(f, full, s.Offset()) == Verdict(f, full, t.Offset())
    decreases |calls|
  {
    if calls != [] {
      var t := After(s, calls[0]);
      CallAgrees(f, s, calls[0], full);
      RunAgrees(f, t, calls[1..], full);
      var (u, rest) := Run(t, calls[1..], full);
      var step, later := Published(calls[0], t), Elements(f, full, u.Offset());
      assert step + (rest + later) == (step + rest) + later;
    }
  }

  /**
   * Pauses: along any run, a Reader waits only while the native read at its cursor asks for more data, and
   * after Next it waits exactly if that read asks for it and neither an end nor an error has come.
   */
  lemma PausesAreExact(f: Native, s: State, calls: seq<Call>, full: bytes)
    requires PrefixStable(f) && Tracks(f, s, full) && HonestRun(s, calls, full)
    ensures var t := Run(s, calls, full).0;
      && (t.waiting ==> f(t.input[t.pos..], t.final) == Stop(NeedMoreData) && !t.done && t.err.None?)
      && var u := AfterNext(t);
      (u.waiting <==> !t.done && t.err.None? && f(t.input[t.pos..], t.final) == Stop(NeedMoreData))
  {
    RunAgrees(f, s, calls, full);
    NextAgrees(f, Run(s, calls, full).0, full);
  }

  /** A paused Reader, or any other without an end or error, may be shown all of the input, as its final window. */
  lemma RestIsAccepted(f: Native, s: State, full: bytes)
    requires Tracks(f, s, full) && !s.final && s.err.None? && |full| <= MAX_INT
    ensures var rest := SetInput(full[s.base..], 0, true);
      Honest(s, rest, full) && After(s, rest).final && After(s, rest).err.None? && !After(s, rest).waiting
  {
  }

  /** A freshly constructed Reader that shows the first bytes of the input. */
  ghost function Opened(f: Native, full: bytes, first: nat, final: bool): State
    requires first <= |full|
  {
    State(Some(f), full[..first], 0, 0, final, false, false, None, None)
  }

  /** Where a log of consecutive elements ends. */
  ghost function EndOf(from: int, log: seq<Located>): int
    decreases |log|
  {
    if log == [] then from else EndOf(log[0].offset + log[0].size, log[1..])
  }

  lemma {:induction false} PartitionEnds(log: seq<Located>, later: seq<Located>, from: int, cursor: int, to: int)
    requires Partition(log + later, from, to) && Partition(later, cursor, to)
    ensures cursor == EndOf(from, log)
    decreases |log|
  {
    if log == [] {
      assert log + later == later;
      SamePartition(later, from, cursor, to);
    } else {
      assert (log + later)[1..] == log[1..] + later;
      PartitionEnds(log[1..], later, from + log[0].size, cursor, to);
    }
  }

  lemma SamePartition(es: seq<Located>, a: int, b: int, to: int)
    requires Partition(es, a, to) && Partition(es, b, to)
    ensures a == b
  {
  }

  /**
   * Chunk invariance: however the input is windowed, paused and discarded, the published
   * elements are those of one complete read, up to the cursor; a clean end or an error comes
   * exactly after the last of them, with the complete read's status and absolute offset.
   */
  lemma ChunkInvariance(f: Native, full: bytes, first: nat, final: bool, calls: seq<Call>)
    requires PrefixStable(f) && first <= |full| && first <= MAX_INT && (final ==> first == |full|)
    requires HonestRun(Opened(f, full, first, final), calls, full)
    ensures var (t, log) := Run(Opened(f, full, first, final), calls, full);
      && log <= Elements(f, full, 0)
      && t.Offset() == EndOf(0, log)
      && (t.done ==> log == Elements(f, full, 0) && Verdict(f, full, 0) == (End, |full|))
      && (t.err.Some? ==>
          && log == Elements(f, full, 0)
          && Verdict(f, full, 0).1 == t.Offset()
          && t.err.value == ParseError(Verdict(f, full, 0).0, t.Offset()))
  {
    var s := Opened(f, full, first, final);
    RunAgrees(f, s, calls, full);
    var (t, log) := Run(s, calls, full);
    var later := Elements(f, full, t.Offset());
    ElementsPartitionTheInput(f, full, 0);
    ElementsPartitionTheInput(f, full, t.Offset());
    PartitionEnds(log, later, 0, t.Offset(), Verdict(f, full, 0).1);
    if t.done || t.err.Some? {
      assert log + later == log;
    }
  }

  /** If the complete read ends cleanly, no windowed run ever latches an error. */
  lemma NoErrorBeforeCleanEnd(f: Native, full: bytes, first: nat, final: bool, calls: seq<Call>)
    requires PrefixStable(f) && first <= |full| && first <= MAX_INT && (final ==> first == |full|)
    requires HonestRun(Opened(f, full, first, final), calls, full)
    requires Verdict(f, full, 0).0 == End
    ensures Run(Opened(f, full, first, final), calls, full).0.err == None
  {
    var s := Opened(f, full, first, final);
    RunAgrees(f, s, calls, full);
    RunErrors(f, s, calls, full);
  }

  /** A latched parse error is never the clean end. */
  lemma {:induction false} RunErrors(f: Native, s: State, calls: seq<Call>, full: bytes)
    requires s.Valid() && s.format == Some(f) && HonestRun(s, calls, full)
    requires s.err.Some? ==> s.err.value.code != End
    ensures var t := Run(s, calls, full).0; t.err.Some? ==> t.err.value.code != End
    decreases |calls|
  {
    if calls != [] {
      RunErrors(f, After(s, calls[0]), calls[1..], full);
    }
  }

  /** Once the whole input is shown and declared final, Next never pauses again. */
  lemma FinalInputDecides(f: Native, s: State, full: bytes)
    requires PrefixStable(f) && Tracks(f, s, full) && s.final
    ensures var t := AfterNext(s);
      (t.element.Some? && Elements(f, full, s.Offset()) != [] && t.element.value == Elements(f, full, s.Offset())[0])
      || (Elements(f, full, s.Offset()) == [] && (t.done || t.err.Some?))
  {
    NextAgrees(f, s, full);
  }

  function Nexts(n: nat): (calls: seq<Call>)
    ensures |calls| == n
  {
    if n == 0 then [] else [Next] + Nexts(n - 1)
  }

  lemma {:induction false} NextsAreHonest(s: State, n: nat, full: bytes)
    requires s.Valid()
    ensures HonestRun(s, Nexts(n), full)
    decreases n
  {
    if n > 0 {
      NextsAreHonest(AfterNext(s), n - 1, full);
      assert Nexts(n)[1..] == Nexts(n - 1);
    }
  }

  /** One Next over final input: an element less to come, or the latched end of it all. */
  lemma NextFacts(f: Native, s: State, full: bytes)
    requires PrefixStable(f) && Tracks(f, s, full) == true && s.final && !s.done && s.err.None?
    ensures var t := AfterNext(s);
      && Tracks(f, t, full) && t.final && Verdict(f, full, t.Offset()) == Verdict(f, full, s.Offset())
      && (t.element.Some? ==>
          && Elements(f, full, s.Offset()) == [t.element.value] + Elements(f, full, t.Offset())
          && !t.done && t.err.None?)
      && (t.element.None? ==>
          && Elements(f, full, s.Offset()) == [] && (t.done || t.err.Some?)
          && t.Offset() == Verdict(f, full, t.Offset()).1)
  {
    NextAgrees(f, s, full);
    hide PrefixStable, Elements, Verdict;
  }

  /**
   * Over final input, one call of Next for each element still to come and one more publish exactly
   * those elements and then latch the end or an error.
   */
  lemma {:induction false} NextsComplete(f: Native, s: State, full: bytes)
    requires PrefixStable(f) && Tracks(f, s, full) == true && s.final && !s.done && s.err.None?
    ensures var rest := Elements(f, full, s.Offset());
      && HonestRun(s, Nexts(|rest| + 1), full)
      && var (t, log) := Run(s, Nexts(|rest| + 1), full);
      && log == rest && (t.done || t.err.Some?) && t.Offset() == Verdict(f, full, s.Offset()).1
    decreases |Elements(f, full, s.Offset())|
  {
    hide AfterNext, PrefixStable, Elements, Verdict, HonestRun;
    var rest, t := Elements(f, full, s.Offset()), AfterNext(s);
    NextsAreHonest(s, |rest| + 1, full);
    NextFacts(f, s, full);
    assert Nexts(|rest| + 1)[1..] == Nexts(|rest|);
    if t.element.Some? {
      NextsComplete(f, t, full);
    } else {
      assert Nexts(|rest|) == [];
    }
  }

  /** So every run can be completed: show the rest, then call Next often enough. */
  lemma EveryRunCanFinish(f: Native, full: bytes, first: nat, calls: seq<Call>)
    requires PrefixStable(f) && first <= |full| <= MAX_INT
    requires HonestRun(Opened(f, full, first, false), calls, full)
    requires var t := Run(Opened(f, full, first, false), calls, full).0; !t.final && t.err.None?
    ensures var (t, log) := Run(Opened(f, full, first, false), calls, full);
      0 <= t.base <= |full|
      && exists n :: var more := [SetInput(full[t.base..], 0, true)] + Nexts(n);
        HonestRun(t, more, full)
        && var (u, rest) := Run(t, more, full);
        log + rest == Elements(f, full, 0) && (u.done || u.err.Some?)
  {
    var s := Opened(f, full, first, false);
    RunAgrees(f, s, calls, full);
    var (t, log) := Run(s, calls, full);
    var show := SetInput(full[t.base..], 0, true);
    RestIsAccepted(f, t, full);
    var v := After(t, show);
    CallAgrees(f, t, show, full);
    NextsComplete(f, v, full);
    var n := |Elements(f, full, v.Offset())| + 1;
    var more := [show] + Nexts(n);
    assert more[1..] == Nexts(n);
    assert HonestRun(t, more, full);
    assert Run(t, more, full).1 == [] + Run(v, Nexts(n), full).1;
  }

  /**
   * Liveness of a whole run: once the complete input is shown and declared final, calling Next often
   * enough publishes every element the run has not published before, and ends it.
   */
  lemma EveryElementIsPublished(f: Native, full: bytes, first: nat, final: bool, calls: seq<Call>)
    requires PrefixStable(f) && first <= |full| && first <= MAX_INT && (final ==> first == |full|)
    requires HonestRun(Opened(f, full, first, final), calls, full)
    requires var t := Run(Opened(f, full, first, final), calls, full).0; t.final && !t.done && t.err.None?
    ensures var (t, log) := Run(Opened(f, full, first, final), calls, full);
      exists n :: HonestRun(t, Nexts(n), full)
        && var (u, more) := Run(t, Nexts(n), full);
        log + more == Elements(f, full, 0) && (u.done || u.err.Some?)
  {
    var s := Opened(f, full, first, final);
    RunAgrees(f, s, calls, full);
    var (t, log) := Run(s, calls, full);
    NextsComplete(f, t, full);
    var n := |Elements(f, full, t.Offset())| + 1;
    assert HonestRun(t, Nexts(n), full);
  }
}
