/**
 * What generation computes (tlv/src/generator.c), as a function of Format and options alone: each
 * element is judged over blank buffers. Encoders that store every byte of their output make the
 * generator follow this plan whatever its buffers hold.
 */
module GeneratorPlan {
  import opened Tlv
  import opened Mixer
  import opened FormatContract

  datatype Candidate = Candidate(tag: Tag, minValue: size_t, maxValue: size_t)

  datatype Options = Options(
    seed: word, caseIndex: word, maxElements: size_t, maxDepth: size_t,
    maxValue: size_t, maxCase: size_t, candidates: seq<Candidate>)

  const BOUNDARIES: seq<size_t> := [0, 1, 127, 128, 255, 256]

  /** The longest Value a candidate may have in this room. */
  function Longest(o: Options, c: Candidate, room: nat): nat {
    var n := if c.maxValue > o.maxValue then o.maxValue else c.maxValue;
    if n > room then room else n
  }

  // ----- Judging one element -----

  datatype Verdict = Abort | Reject | Take(size: size_t)

  /** The bytes an encoder leaves at the front of a buffer. */
  function WireOver(f: Format, e: Element, before: bytes): (wire: bytes)
    requires f.CanWrite() && EncodeOutcome(f, e, |before|).Wrote?
    ensures |wire| == EncodeOutcome(f, e, |before|).size <= |before|
  {
    var w := EncodeOutcome(f, e, |before|);
    Overlay(before, w.stored)[..w.size]
  }

  /** Encode into a buffer and decode the result. */
  function Proposal(f: Format, e: Element, before: bytes): (v: Verdict)
    requires f.CanRead() && f.CanWrite()
    ensures v.Take? ==> EncodeOutcome(f, e, |before|).Wrote? && 0 < v.size == |WireOver(f, e, before)|
  {
    match EncodeOutcome(f, e, |before|)
    case Rejected(status) => if status == ErrCallback then Abort else Reject
    case Short(_) => Reject
    case Wrote(n, _) =>
      if n == 0 then Abort
      else
        match DecodeOutcome(f, WireOver(f, e, before))
        case Failed(status) => if status == ErrCallback then Abort else Reject
        case Accepted(d) => if d.size != n || Denoted(d, WireOver(f, e, before)) != e then Abort else Take(n)
  }

  /** Encode again into another buffer and compare. */
  function Confirmation(f: Format, e: Element, before: bytes, wire: bytes): (v: Verdict)
    requires f.CanWrite()
    ensures v.Take? ==> v.size == |wire|
  {
    match EncodeOutcome(f, e, |before|)
    case Rejected(status) => if status == ErrCallback then Abort else Reject
    case Short(_) => Reject
    case Wrote(n, _) => if n != |wire| || WireOver(f, e, before) != wire then Reject else Take(n)
  }

  function Check(f: Format, e: Element, region: bytes, block: bytes): (v: Verdict)
    requires f.CanRead() && f.CanWrite()
    ensures v.Take? ==> EncodeOutcome(f, e, |region|).Wrote? && 0 < v.size == |WireOver(f, e, region)| <= |region|
  {
    var p := Proposal(f, e, region);
    if p.Take? then Confirmation(f, e, block, WireOver(f, e, region)) else p
  }

  // ----- Encoders that leave nothing as it was -----

  /** The encoder stores every byte of its output; what those bytes are. */
  ghost predicate Complete(f: Format, e: Element, room: nat)
    requires f.CanWrite()
  {
    var w := EncodeOutcome(f, e, room);
    w.Wrote? && forall i :: 0 <= i < w.size ==> i in w.stored
  }

  ghost function WireOf(f: Format, e: Element, room: nat): bytes
    requires f.CanWrite() && Complete(f, e, room)
  {
    var w := EncodeOutcome(f, e, room);
    seq(w.size, i requires 0 <= i < w.size => w.stored[i])
  }

  ghost predicate Thorough(f: Format)
    requires f.CanWrite()
  {
    forall e, room {:trigger Complete(f, e, room)} :: EncodeOutcome(f, e, room).Wrote? ==> Complete(f, e, room)
  }

  lemma OverlaysToWire(f: Format, e: Element, before: bytes)
    requires f.CanWrite() && Complete(f, e, |before|)
    ensures WireOver(f, e, before) == WireOf(f, e, |before|)
  {
  }

  /** The verdict on an element, and its wire, do not depend on what the buffers held. */
  lemma CheckIsSteady(f: Format, e: Element, region: bytes, block: bytes, otherRegion: bytes, otherBlock: bytes)
    requires f.CanRead() && f.CanWrite() && Thorough(f)
    requires |region| == |otherRegion| && |block| == |otherBlock|
    ensures Check(f, e, region, block) == Check(f, e, otherRegion, otherBlock)
    ensures EncodeOutcome(f, e, |region|).Wrote? ==> WireOver(f, e, region) == WireOver(f, e, otherRegion)
  {
    hide WireOver, WireOf;
    if EncodeOutcome(f, e, |region|).Wrote? {
      assert Complete(f, e, |region|);
      OverlaysToWire(f, e, region);
      OverlaysToWire(f, e, otherRegion);
    }
    if EncodeOutcome(f, e, |block|).Wrote? {
      assert Complete(f, e, |block|);
      OverlaysToWire(f, e, block);
      OverlaysToWire(f, e, otherBlock);
    }
  }

  // ----- The plan of a whole case -----

  datatype Setting = Setting(format: Format, options: Options, mixer: word -> word) {
    ghost predicate Usable() {
      && format.CanRead() && format.CanWrite() && options.candidates != []
      && options.maxCase < SIZE_MAX
    }
  }

  /** What a run has left: the random sequence and both budgets. */
  datatype Draws = Draws(random: word, remaining: nat, attempts: nat)

  /** The word that call number `steps` of next() returns. */
  function Drawn(s: Setting, start: word, steps: nat): word {
    s.mixer(Counter(start, steps))
  }

  /** The first word drawn for a size decides it. */
  predicate Settles(first: word, lo: nat, hi: nat) {
    first % 4 < 2 || (first % 4 == 2 && lo <= BOUNDARIES[first / 4 % 6] <= hi)
  }

  /** The size two words stand for. */
  function SizeFrom(first: word, second: word, lo: nat, hi: nat): (n: nat)
    requires lo <= hi
    ensures lo <= n <= hi
  {
    if !Settles(first, lo, hi) then lo + second % (hi - lo + 1)
    else if first % 4 == 0 then lo
    else if first % 4 == 1 then hi
    else BOUNDARIES[first / 4 % 6]
  }

  /** A Value's size, and the random sequence after it. */
  function DrawnSize(s: Setting, start: word, lo: nat, hi: nat): (r: (nat, word))
    requires lo <= hi
    ensures lo <= r.0 <= hi
  {
    var first, second := Drawn(s, start, 1), Drawn(s, start, 2);
    (SizeFrom(first, second, lo, hi), Counter(start, if Settles(first, lo, hi) then 1 else 2))
  }

  /** Every length a candidate may have within all three limits is drawn for some words. */
  lemma EveryLengthIsDrawn(o: Options, c: Candidate, room: nat, n: nat) returns (first: word, second: word)
    requires c.minValue <= n <= c.maxValue && n <= o.maxValue && n <= room
    ensures c.minValue <= Longest(o, c, room)
    ensures SizeFrom(first, second, c.minValue, Longest(o, c, room)) == n
  {
    var lo, hi := c.minValue, Longest(o, c, room);
    assert n <= hi;
    first, second := 3, n - lo;
    OffsetDrawn(lo, hi, n);
  }

  lemma OffsetDrawn(lo: size_t, hi: nat, n: nat)
    requires lo <= n <= hi && n <= SIZE_MAX
    ensures SizeFrom(3, n - lo, lo, hi) == n
  {
    Below(n - lo, hi - lo + 1);
  }

  lemma Below(a: nat, b: nat)
    requires a < b
    ensures a % b == a
  {
  }

  /**
   * Both ends, and every boundary of common length encodings between them, are drawn by one word alone;
   * some state of the generator draws it.
   */
  lemma CommonLengthsAreDrawn(s: Setting, lo: nat, hi: nat, n: nat) returns (first: word, start: word)
    requires lo <= n <= hi && n in {lo, hi, 0, 1, 127, 128, 255, 256}
    ensures Settles(first, lo, hi) && forall second :: SizeFrom(first, second, lo, hi) == n
    ensures s.mixer == Mix ==> DrawnSize(s, start, lo, hi) == (n, Counter(start, 1))
  {
    hide Mix;
    first := OneWord(lo, hi, n);
    var counter := MixReaches(first);
    start := Retreat(counter);
    assert Counter(start, 1) == Advance(Counter(start, 0));
  }

  lemma OneWord(lo: nat, hi: nat, n: nat) returns (first: word)
    requires lo <= n <= hi && n in {lo, hi, 0, 1, 127, 128, 255, 256}
    ensures Settles(first, lo, hi) && forall second :: SizeFrom(first, second, lo, hi) == n
  {
    if n == lo {
      first := 0;
    } else if n == hi {
      first := 1;
    } else {
      var k := if n == 1 then 1 else if n == 127 then 2 else if n == 128 then 3 else if n == 255 then 4 else 5;
      assert BOUNDARIES[k] == n;
      first := 4 * k + 2;
      assert first / 4 % 6 == k;
    }
  }

  function RandomBytes(s: Setting, start: word, n: nat): (b: bytes)
    ensures |b| == n
  {
    seq(n, i requires 0 <= i < n => Drawn(s, start, i + 1) % 256)
  }

  datatype Level = Aborted | Planned(text: bytes, draws: Draws)

  /** The Value of one attempted element, and what is left. */
  ghost function PlanValue(s: Setting, c: Candidate, hi: nat, depth: nat, d: Draws): (v: Level)
    requires s.Usable() && depth <= s.options.maxDepth && d.remaining > 0 && c.minValue <= hi
    ensures v.Planned? ==> v.draws.attempts <= d.attempts
    decreases s.options.maxDepth - depth, 0, 0
  {
    var spent := d.(remaining := d.remaining - 1);
    if s.format.Constructed(c.tag) then
      if depth < s.options.maxDepth && spent.remaining > 0 && hi > 0 then PlanStream(s, hi, depth + 1, spent)
      else Planned([], spent)
    else
      var (n, random) := DrawnSize(s, d.random, c.minValue, hi);
      Planned(RandomBytes(s, random, n), spent.(random := Counter(random, n)))
  }

  datatype Turn = Turn(verdict: Verdict, wire: bytes, draws: Draws)

  /** Judge a staged element; a rejection gives back the budget there was before. */
  ghost function PlanVerdict(s: Setting, e: Element, room: nat, saved: nat, d: Draws): (t: Turn)
    requires s.Usable()
    ensures t.draws.attempts == d.attempts && (t.verdict.Take? ==> 0 < t.verdict.size == |t.wire| <= room)
  {
    match Check(s.format, e, Zeros(room), Zeros(s.options.maxCase))
    case Abort => Turn(Abort, [], d)
    case Reject => Turn(Reject, [], d.(remaining := saved))
    case Take(n) => Turn(Take(n), WireOver(s.format, e, Zeros(room)), d)
  }

  datatype Drawing = Spoiled | Nothing(draws: Draws) | Drew(candidate: Candidate, value: bytes, draws: Draws)

  /** Draw a candidate and its Value, if one can be had here. */
  ghost function PlanDraw(s: Setting, room: nat, depth: nat, d: Draws): (r: Drawing)
    requires s.Usable() && depth <= s.options.maxDepth && d.remaining > 0
    ensures !r.Spoiled? ==> r.draws.attempts <= d.attempts
    decreases s.options.maxDepth - depth, 1, 0
  {
    var c := s.options.candidates[Drawn(s, d.random, 1) % |s.options.candidates|];
    var hi := Longest(s.options, c, room);
    var now := d.(random := Counter(d.random, 1));
    if c.minValue > hi then Nothing(now)
    else
      match PlanValue(s, c, hi, depth, now)
      case Aborted => Spoiled
      case Planned(value, left) =>
        if |value| < c.minValue then Nothing(left.(remaining := d.remaining)) else Drew(c, value, left)
  }

  /** One attempt. */
  ghost function PlanTurn(s: Setting, room: nat, depth: nat, d: Draws): (t: Turn)
    requires s.Usable() && depth <= s.options.maxDepth && d.remaining > 0 && d.attempts > 0
    ensures t.draws.attempts < d.attempts && (t.verdict.Take? ==> 0 < t.verdict.size == |t.wire| <= room)
    decreases s.options.maxDepth - depth, 2, 0
  {
    var now := d.(attempts := d.attempts - 1);
    match PlanDraw(s, room, depth, now)
    case Spoiled => Turn(Abort, [], now)
    case Nothing(left) => Turn(Reject, [], left)
    case Drew(c, value, left) => PlanVerdict(s, Element(c.tag, value), room, d.remaining, left)
  }

  /** The rest of a level, after some elements. */
  ghost function PlanRest(
    s: Setting, target: nat, accepted: nat, room: nat, depth: nat, text: bytes, d: Draws): (r: Level)
    requires s.Usable() && depth <= s.options.maxDepth
    ensures r.Planned? ==> r.draws.attempts <= d.attempts
    decreases s.options.maxDepth - depth, 3, d.attempts
  {
    if accepted >= target || d.remaining == 0 || d.attempts == 0 || room == 0 then Planned(text, d)
    else
      var t := PlanTurn(s, room, depth, d);
      match t.verdict
      case Abort => Aborted
      case Reject => PlanRest(s, target, accepted, room, depth, text, t.draws)
      case Take(n) => PlanRest(s, target, accepted + 1, room - n, depth, text + t.wire, t.draws)
  }

  lemma RestEnds(s: Setting, target: nat, accepted: nat, room: nat, depth: nat, text: bytes, d: Draws)
    requires s.Usable() && depth <= s.options.maxDepth
    requires accepted >= target || d.remaining == 0 || d.attempts == 0 || room == 0
    ensures PlanRest(s, target, accepted, room, depth, text, d) == Planned(text, d)
  {
  }

  /** The plan goes on after one attempt as after a shorter rest. */
  lemma RestStep(s: Setting, target: nat, accepted: nat, room: nat, depth: nat, text: bytes, d: Draws)
    requires s.Usable() && depth <= s.options.maxDepth
    requires accepted < target && d.remaining > 0 && d.attempts > 0 && room > 0
    ensures var t := PlanTurn(s, room, depth, d);
      PlanRest(s, target, accepted, room, depth, text, d)
      == match t.verdict
         case Abort => Aborted
         case Reject => PlanRest(s, target, accepted, room, depth, text, t.draws)
         case Take(n) => PlanRest(s, target, accepted + 1, room - n, depth, text + t.wire, t.draws)
  {
    hide PlanTurn;
  }

  /** One level of the stream. */
  ghost function PlanStream(s: Setting, capacity: nat, depth: nat, d: Draws): (r: Level)
    requires s.Usable() && depth <= s.options.maxDepth && d.remaining > 0
    ensures r.Planned? ==> r.draws.attempts <= d.attempts
    decreases s.options.maxDepth - depth, 4, 0
  {
    var target := 1 + Drawn(s, d.random, 1) % d.remaining;
    PlanRest(s, target, 0, capacity, depth, [], d.(random := Counter(d.random, 1)))
  }

  function PlannedCase(p: Level): (Status, bytes) {
    match p
    case Aborted => (ErrCallback, [])
    case Planned(text, _) => if text == [] then (ErrLimit, []) else (Ok, text)
  }

  /** The status of a case, and its bytes. */
  ghost function Generated(f: Format, o: Options): (Status, bytes)
    requires f.CanRead() && f.CanWrite() && o.candidates != [] && o.maxElements > 0 && o.maxCase < SIZE_MAX
  {
    var start := Draws(Start(o.seed, o.caseIndex), o.maxElements, 64 * o.maxElements);
    PlannedCase(PlanStream(Setting(f, o, Mix), o.maxCase, 0, start))
  }
}
