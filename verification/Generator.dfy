/**
 * Allocation-free generation of writer-reconstructible element streams (tlv/src/generator.c).
 * Output and workspace are regions of one flat memory; pointers are positions in it.
 */
module Generator {
  import opened Tlv
  import opened Mixer
  import opened FormatContract
  import opened GeneratorPlan

  // ----- Configuration -----

  ghost predicate Usable(o: Options, c: Candidate) {
    c.minValue <= o.maxValue && c.minValue <= o.maxCase
  }

  /** What the workspace query answers, in unbounded arithmetic and documented precedence. */
  ghost function ConfigStatus(o: Options): Status {
    if o.maxElements == 0 || o.maxCase == 0 || o.candidates == [] then ErrInvalidArg
    else if o.maxDepth > 64 then ErrUnsupported
    else if (o.maxDepth + 1) * o.maxCase > SIZE_MAX || o.maxCase == SIZE_MAX || 64 * o.maxElements > SIZE_MAX then
      ErrOverflow
    else if (forall c :: c in o.candidates ==> c.minValue <= c.maxValue)
         && (exists c :: c in o.candidates && Usable(o, c)) then Ok
    else ErrInvalidArg
  }

  /** Each answer has its exact condition. */
  lemma ConfigIsExact(o: Options)
    ensures var given := o.maxElements > 0 && o.maxCase > 0 && o.candidates != [];
      var fits := (o.maxDepth + 1) * o.maxCase <= SIZE_MAX && o.maxCase < SIZE_MAX && 64 * o.maxElements <= SIZE_MAX;
      var ordered := forall i :: 0 <= i < |o.candidates| ==> o.candidates[i].minValue <= o.candidates[i].maxValue;
      var possible := exists i :: 0 <= i < |o.candidates|
                        && o.candidates[i].minValue <= o.maxValue && o.candidates[i].minValue <= o.maxCase;
      && (ConfigStatus(o) == Ok <==> given && o.maxDepth <= 64 && fits && ordered && possible)
      && (ConfigStatus(o) == ErrUnsupported <==> given && o.maxDepth > 64)
      && (ConfigStatus(o) == ErrOverflow <==> given && o.maxDepth <= 64 && !fits)
      && ConfigStatus(o) in {Ok, ErrUnsupported, ErrOverflow, ErrInvalidArg}
  {
    forall i | 0 <= i < |o.candidates|
      ensures o.candidates[i].minValue <= o.maxValue && o.candidates[i].minValue <= o.maxCase
         <==> Usable(o, o.candidates[i])
    {
    }
    if exists c :: c in o.candidates && Usable(o, c) {
      var c :| c in o.candidates && Usable(o, c);
      var i :| 0 <= i < |o.candidates| && o.candidates[i] == c;
    }
  }

  lemma QuotientTest(a: nat, d: nat, limit: nat)
    requires d > 0
    ensures a > limit / d <==> d * a > limit
  {
    var q := limit / d;
    assert d * q <= limit < d * q + d;
    if a > q {
      assert d * a >= d * (q + 1) == d * q + d;
    } else {
      assert d * a <= d * q;
    }
  }

  method WorkspaceSize(o: Options) returns (rc: Status, size: Option<size_t>)
    ensures rc == ConfigStatus(o)
    ensures rc == Ok ==> size == Some((o.maxDepth + 1) * o.maxCase)
    ensures rc != Ok ==> size == None
  {
    if o.maxElements == 0 || o.maxCase == 0 || |o.candidates| == 0 {
      return ErrInvalidArg, None;
    }
    if o.maxDepth > 64 {
      return ErrUnsupported, None;
    }
    QuotientTest(o.maxCase, o.maxDepth + 1, SIZE_MAX);
    if o.maxCase > SIZE_MAX / (o.maxDepth + 1) || o.maxCase == SIZE_MAX || o.maxElements > SIZE_MAX / 64 {
      return ErrOverflow, None;
    }
    var feasible := Feasible(o);
    if !feasible {
      return ErrInvalidArg, None;
    }
    return Ok, Some((o.maxDepth + 1) * o.maxCase);
  }

  /** The loop over the candidates: every range of sizes is one, and some candidate can be drawn. */
  method Feasible(o: Options) returns (feasible: bool)
    ensures feasible <==>
      && (forall c :: c in o.candidates ==> c.minValue <= c.maxValue)
      && (exists c :: c in o.candidates && Usable(o, c))
  {
    feasible := false;
    for i := 0 to |o.candidates|
      invariant forall j :: 0 <= j < i ==> o.candidates[j].minValue <= o.candidates[j].maxValue
      invariant feasible <==> exists j :: 0 <= j < i && Usable(o, o.candidates[j])
    {
      var c := o.candidates[i];
      if c.minValue > c.maxValue {
        return false;
      }
      if c.minValue <= o.maxValue && c.minValue <= o.maxCase {
        assert Usable(o, o.candidates[i]);
        feasible := true;
      }
    }
  }

  // ----- The tree behind a generated stream -----

  datatype Node = Node(candidate: Candidate, value: bytes, wire: bytes, children: Forest)

  /** Sibling elements in stream order, the last one outermost. */
  datatype Forest = Empty | Grow(earlier: Forest, last: Node)

  function Wire(forest: Forest): bytes {
    match forest
    case Empty => []
    case Grow(earlier, last) => Wire(earlier) + last.wire
  }

  function Roots(forest: Forest): nat {
    if forest.Empty? then 0 else Roots(forest.earlier) + 1
  }

  function Count(forest: Forest): nat {
    match forest
    case Empty => 0
    case Grow(earlier, last) => Count(earlier) + 1 + Count(last.children)
  }

  /**
   * The wire bytes decode, over exactly their own extent, to this element; encoding that
   * element again succeeds with the same size and stores nothing but these bytes.
   */
  ghost predicate Reconstructible(f: Format, o: Options, e: Element, wire: bytes)
    requires f.CanRead() && f.CanWrite()
  {
    && wire != []
    && var decoded := DecodeOutcome(f, wire);
    && decoded.Accepted? && decoded.decoded.size == |wire| && Denoted(decoded.decoded, wire) == e
    && var again := EncodeOutcome(f, e, o.maxCase);
    && again.Wrote? && again.size == |wire|
    && forall i :: 0 <= i < |wire| && i in again.stored ==> again.stored[i] == wire[i]
  }

  ghost predicate ForestOk(f: Format, o: Options, forest: Forest, depth: nat)
    requires f.CanRead() && f.CanWrite()
    decreases forest
  {
    match forest
    case Empty => true
    case Grow(earlier, last) => ForestOk(f, o, earlier, depth) && NodeOk(f, o, last, depth)
  }

  ghost predicate NodeOk(f: Format, o: Options, node: Node, depth: nat)
    requires f.CanRead() && f.CanWrite()
    decreases node
  {
    && node.candidate in o.candidates
    && node.candidate.minValue <= |node.value| <= node.candidate.maxValue
    && |node.value| <= o.maxValue
    && depth <= o.maxDepth
    && Reconstructible(f, o, Element(node.candidate.tag, node.value), node.wire)
    && (if f.Constructed(node.candidate.tag) then node.value == Wire(node.children) else node.children == Empty)
    && ForestOk(f, o, node.children, depth + 1)
  }

  // ----- Why an attempt may fail -----

  /** Encoding this element over these bytes breaks a Format's promises: a contract defect or a lossy round trip. */
  ghost predicate Mangles(f: Format, e: Element, before: bytes)
    requires f.CanRead() && f.CanWrite()
  {
    match EncodeOutcome(f, e, |before|)
    case Rejected(status) => status == ErrCallback
    case Short(_) => false
    case Wrote(n, _) =>
      var wire := WireOver(f, e, before);
      match DecodeOutcome(f, wire)
      case Failed(status) => status == ErrCallback || n == 0
      case Accepted(d) => d.size != n || Denoted(d, wire) != e
  }

  ghost predicate Defective(f: Format)
    requires f.CanRead() && f.CanWrite()
  {
    exists e, before :: Mangles(f, e, before)
  }

  /** The element goes into this room, comes back whole, and encodes to the same bytes again. */
  ghost predicate Carried(f: Format, e: Element, room: nat, maxCase: nat)
    requires f.CanRead() && f.CanWrite()
  {
    && Complete(f, e, room) && Complete(f, e, maxCase)
    && WireOf(f, e, room) == WireOf(f, e, maxCase) != []
    && var decoded := DecodeOutcome(f, WireOf(f, e, room));
    && decoded.Accepted? && decoded.decoded.size == |WireOf(f, e, room)|
    && Denoted(decoded.decoded, WireOf(f, e, room)) == e
  }

  lemma WiresAgree(f: Format, e: Element, before: bytes)
    requires f.CanWrite() && Complete(f, e, |before|)
    ensures EncodeOutcome(f, e, |before|).Wrote? && WireOver(f, e, before) == WireOf(f, e, |before|)
  {
    OverlaysToWire(f, e, before);
  }

  /** An element judged acceptable is reconstructible; an abort names a defect, a rejection an element not carried. */
  lemma CheckIsFair(f: Format, o: Options, e: Element, region: bytes, block: bytes)
    requires f.CanRead() && f.CanWrite() && |block| == o.maxCase
    ensures Check(f, e, region, block).Take? ==> Reconstructible(f, o, e, WireOver(f, e, region))
    ensures Check(f, e, region, block).Abort? ==> Mangles(f, e, region) || Mangles(f, e, block)
    ensures Check(f, e, region, block).Reject? ==> !Carried(f, e, |region|, |block|)
  {
    if Check(f, e, region, block).Take? {
      StoresOnly(f, e, block, WireOver(f, e, region));
    }
    if Carried(f, e, |region|, |block|) {
      WiresAgree(f, e, region);
      WiresAgree(f, e, block);
    }
  }

  /** The element, encoded over these bytes, decodes to itself over exactly its extent. */
  ghost predicate ComesBack(f: Format, e: Element, before: bytes)
    requires f.CanRead() && f.CanWrite()
  {
    EncodeOutcome(f, e, |before|).Wrote?
    && var wire := WireOver(f, e, before);
    && wire != []
    && var decoded := DecodeOutcome(f, wire);
    && decoded.Accepted? && decoded.decoded.size == |wire| && Denoted(decoded.decoded, wire) == e
  }

  /** Which elements are accepted, and which abort the case; all others are rejected. */
  lemma CheckIsExact(f: Format, e: Element, region: bytes, block: bytes)
    requires f.CanRead() && f.CanWrite()
    ensures Check(f, e, region, block).Take? <==>
      && ComesBack(f, e, region)
      && EncodeOutcome(f, e, |block|).Wrote? && WireOver(f, e, block) == WireOver(f, e, region)
    ensures Check(f, e, region, block).Take? ==> Check(f, e, region, block).size == |WireOver(f, e, region)|
    ensures Check(f, e, region, block).Abort? <==>
      || Mangles(f, e, region)
      || (ComesBack(f, e, region) && EncodeOutcome(f, e, |block|) == Rejected(ErrCallback))
  {
    hide WireOver, Denoted;
  }

  /** An encoder that leaves these bytes stored nothing else among them. */
  lemma StoresOnly(f: Format, e: Element, before: bytes, wire: bytes)
    requires f.CanWrite() && Confirmation(f, e, before, wire).Take?
    ensures var again := EncodeOutcome(f, e, |before|);
      again.Wrote? && again.size == |wire|
      && forall i :: 0 <= i < |wire| && i in again.stored ==> again.stored[i] == wire[i]
  {
    var stored := EncodeOutcome(f, e, |before|).stored;
    forall i | 0 <= i < |wire| && i in stored
      ensures wire[i] == stored[i]
    {
      assert WireOver(f, e, before)[i] == Overlay(before, stored)[i];
    }
  }

  /** A candidate that can be turned down here: too large, in need of enough children, or not carried. */
  ghost predicate Unsuited(f: Format, o: Options, c: Candidate, room: nat)
    requires f.CanRead() && f.CanWrite()
  {
    || c.minValue > Longest(o, c, room)
    || (f.Constructed(c.tag) && c.minValue > 0)
    || exists v: bytes ::
         c.minValue <= |v| <= Longest(o, c, room) && !Carried(f, Element(c.tag, v), room, o.maxCase)
  }

  ghost predicate Excuse(f: Format, o: Options, room: nat)
    requires f.CanRead() && f.CanWrite()
  {
    exists c :: c in o.candidates && Unsuited(f, o, c, room)
  }

  // `P(..) == true` below is P(..), taken by the verifier as one fact instead of conjunct by conjunct.

  lemma MakeNode(f: Format, o: Options, c: Candidate, value: bytes, wire: bytes, children: Forest, depth: nat)
    returns (node: Node)
    requires f.CanRead() && f.CanWrite()
    requires c in o.candidates && c.minValue <= |value| <= c.maxValue && |value| <= o.maxValue && depth <= o.maxDepth
    requires Reconstructible(f, o, Element(c.tag, value), wire) == true
    requires if f.Constructed(c.tag) then value == Wire(children) else children == Empty
    requires ForestOk(f, o, children, depth + 1) == true
    ensures node == Node(c, value, wire, children) && NodeOk(f, o, node, depth)
  {
    node := Node(c, value, wire, children);
  }

  lemma EmptyForestOk(f: Format, o: Options, depth: nat)
    requires f.CanRead() && f.CanWrite()
    ensures ForestOk(f, o, Empty, depth) && Wire(Empty) == [] && Count(Empty) == 0 && Roots(Empty) == 0
  {
  }

  lemma ForestGrows(f: Format, o: Options, forest: Forest, node: Node, depth: nat)
    requires f.CanRead() && f.CanWrite()
    requires ForestOk(f, o, forest, depth) == true && NodeOk(f, o, node, depth) == true
    ensures var grown := Grow(forest, node);
      && ForestOk(f, o, grown, depth)
      && Wire(grown) == Wire(forest) + node.wire && node.wire != []
      && Count(grown) == Count(forest) + 1 + Count(node.children) && Roots(grown) == Roots(forest) + 1
  {
  }

  lemma Front(memory: array<byte>, at: nat, n: nat, room: nat)
    requires n <= room && at + room <= memory.Length
    ensures memory[at..at + n] == memory[at..at + room][..n]
  {
  }

  lemma Join(memory: array<byte>, a: nat, b: nat, c: nat)
    requires a <= b <= c <= memory.Length
    ensures memory[a..c] == memory[a..b] + memory[b..c]
  {
  }

  class Run {
    const format: Format
    const options: Options
    const memory: array<byte>
    const work: nat
    /** Always Mix; a field, since nothing but the words drawn depends on it. */
    const mixer: word -> word
    var random: word
    var remaining: nat
    var attempts: nat
    ghost var rounds: nat
    /** How many elements were found mangled. */
    ghost var alarms: nat
    ghost const defect: bool
    ghost const excused: nat -> bool
    ghost const thorough: bool

    /**
     * `defect` and `excused` cover every reason to fail, and `thorough` promises an encoder that stores
     * all its bytes; the run is verified for any such bounds.
     */
    constructor (f: Format, o: Options, memory: array<byte>, work: nat,
                 ghost defect: bool, ghost excused: nat -> bool, ghost thorough: bool)
      requires ConfigStatus(o) == Ok
      ensures this.defect == defect && this.excused == excused && this.thorough == thorough && mixer == Mix
      ensures format == f && options == o && this.memory == memory && this.work == work
      ensures Now() == Draws(Start(o.seed, o.caseIndex), o.maxElements, 64 * o.maxElements)
      ensures rounds == 0 && alarms == 0
    {
      format, options, this.memory, this.work := f, o, memory, work;
      this.defect, this.excused, this.thorough := defect, excused, thorough;
      mixer := Mix;
      random := Mix(XorWords(Mix(XorWords(o.seed, SEED_SALT)), o.caseIndex));
      remaining := o.maxElements;
      attempts := o.maxElements * 64;
      rounds, alarms := 0, 0;
    }

    ghost function Setup(): Setting {
      Setting(format, options, mixer)
    }

    ghost function Now(): Draws
      reads this
    {
      Draws(random, remaining, attempts)
    }

    ghost predicate Accounts()
      requires format.CanRead() && format.CanWrite()
    {
      && (forall e, before :: Mangles(format, e, before) ==> defect)
      && (forall c, room {:trigger Unsuited(format, options, c, room)} ::
            c in options.candidates && Unsuited(format, options, c, room) ==> excused(room))
      && (thorough ==> Thorough(format))
    }

    lemma Unusable(c: Candidate, room: nat)
      requires format.CanRead() && format.CanWrite() && Accounts() && c in options.candidates
      requires c.minValue > Longest(options, c, room) || (format.Constructed(c.tag) && c.minValue > 0)
      ensures excused(room)
    {
      assert Unsuited(format, options, c, room);
    }

    lemma NotCarried(c: Candidate, value: bytes, room: nat)
      requires format.CanRead() && format.CanWrite() && Accounts() && c in options.candidates
      requires c.minValue <= |value| <= Longest(options, c, room)
      requires Carried(format, Element(c.tag, value), room, options.maxCase) == false
      ensures excused(room)
    {
      assert Unsuited(format, options, c, room);
    }

    /** The bounds of a run may be what they are meant for. */
    lemma ReadyFor()
      requires format.CanRead() && format.CanWrite() && ConfigStatus(options) == Ok
      requires work + (options.maxDepth + 1) * options.maxCase <= memory.Length
      requires defect == Defective(format) && thorough == Thorough(format)
      requires forall room: nat :: excused(room) == Excuse(format, options, room)
      ensures Ready() == true && Block(0) == work
      ensures Block(options.maxDepth + 1) == work + (options.maxDepth + 1) * options.maxCase
    {
      BlockPosition(0);
      BlockPosition(options.maxDepth + 1);
    }

    ghost predicate Ready() {
      && Setup().Usable() && Accounts() && Block(options.maxDepth + 1) <= memory.Length
    }

    /** Where the staging block of one depth begins. */
    function Block(depth: nat): (p: nat)
      ensures p >= work
    {
      if depth == 0 then work else Block(depth - 1) + options.maxCase
    }

    lemma {:induction false} BlockPosition(depth: nat)
      ensures Block(depth) == work + depth * options.maxCase
    {
      if depth > 0 {
        BlockPosition(depth - 1);
        assert depth * options.maxCase == (depth - 1) * options.maxCase + options.maxCase;
      }
    }

    lemma {:induction false} BlocksAscend(d: nat, e: nat)
      requires d <= e
      ensures Block(d) <= Block(e)
    {
      if d < e {
        BlocksAscend(d, e - 1);
      }
    }

    /** Writes allowed at one depth: its output region and the blocks from its own downwards. */
    ghost predicate Writable(i: int, out: nat, capacity: nat, depth: nat) {
      out <= i < out + capacity || Block(depth) <= i < Block(options.maxDepth + 1)
    }

    ghost predicate Separate(out: nat, capacity: nat, depth: nat) {
      && out + capacity <= memory.Length
      && (out + capacity <= Block(depth) || Block(options.maxDepth + 1) <= out)
    }

    // ----- Random words -----

    method Next() returns (r: word)
      modifies this`random
      ensures random == Counter(old(random), 1) && r == Drawn(Setup(), old(random), 1)
      ensures random == (old(random) + GAMMA) % WORD && r == mixer(random)
    {
      assert Counter(random, 1) == Advance(Counter(random, 0));
      random := Advance(random);
      r := mixer(random);
    }

    /** `next(g) % bound`. */
    method Below(bound: nat) returns (r: nat)
      requires bound > 0
      modifies this`random
      ensures r == Drawn(Setup(), old(random), 1) % bound && random == Counter(old(random), 1)
    {
      var word := Next();
      r := word % bound;
    }

    lemma StepOn(start: word, steps: nat)
      ensures Counter(Counter(start, steps), 1) == Counter(start, steps + 1)
      ensures Drawn(Setup(), Counter(start, steps), 1) == Drawn(Setup(), start, steps + 1)
    {
      var here := Counter(start, steps);
      assert Counter(here, 1) == Advance(Counter(here, 0));
    }

    /** One of the two ends, a boundary of common length encodings, or anything between the ends. */
    method ValueSize(lo: size_t, hi: size_t) returns (n: size_t)
      requires lo <= hi < SIZE_MAX
      modifies this`random
      ensures lo <= n <= hi
      ensures (n, random) == DrawnSize(Setup(), old(random), lo, hi)
    {
      hide Counter, Drawn;
      var boundaries := BOUNDARIES;
      var r := Next();
      if r % 4 == 0 {
        return lo;
      }
      if r % 4 == 1 {
        return hi;
      }
      n := boundaries[(r / 4) % 6];
      if r % 4 == 2 && lo <= n <= hi {
        return n;
      }
      StepOn(old(random), 1);
      var s := Below(hi - lo + 1);
      return lo + s;
    }

    method Fill(at: nat, length: nat)
      requires at + length <= memory.Length
      modifies this`random, memory
      ensures memory[at..at + length] == RandomBytes(Setup(), old(random), length)
      ensures random == Counter(old(random), length)
      ensures forall i :: at <= i < at + length ==> memory[i] == mixer(Counter(old(random), i - at + 1)) % 256
      ensures forall i :: 0 <= i < memory.Length && !(at <= i < at + length) ==> memory[i] == old(memory[i])
    {
      for i := 0 to length
        invariant random == Counter(old(random), i)
        invariant memory[at..at + i] == RandomBytes(Setup(), old(random), i)
        invariant forall k :: 0 <= k < memory.Length && !(at <= k < at + length) ==> memory[k] == old(memory[k])
      {
        ghost var done := memory[at..at + i];
        StepOn(old(random), i);
        var r := Next();
        memory[at + i] := r % 256;
        assert memory[at..at + (i + 1)] == done + [r % 256];
      }
    }

    // ----- One element -----

    /** A region of memory keeps every byte outside it. */
    twostate predicate OnlyWrites(at: nat, size: nat)
      reads memory
    {
      forall i :: 0 <= i < memory.Length && !(at <= i < at + size) ==> memory[i] == old(memory[i])
    }

    /** Encode through the Format; what the caller learns is which region was written. */
    method Put(e: Element, at: nat, room: size_t) returns (rc: Status, size: size_t)
      requires format.CanWrite() && at + room <= memory.Length
      modifies memory
      ensures OnlyWrites(at, room)
      ensures match EncodeOutcome(format, e, room)
        case Rejected(status) => rc == status != Ok
        case Short(_) => rc == ErrBufferTooShort
        case Wrote(n, _) =>
          rc == Ok && size == n <= room && memory[at..at + n] == WireOver(format, e, old(memory[at..at + room]))
    {
      size := 0;
      var n, error;
      rc, n, error := Encode(format, e, memory, at, room);
      forall i | 0 <= i < memory.Length && !(at <= i < at + room)
        ensures memory[i] == old(memory[i])
      {
        if i < at {
          assert memory[..at][i] == old(memory[..at])[i];
        } else {
          assert memory[at + room..][i - at - room] == old(memory[at + room..])[i - at - room];
        }
      }
      if rc == Ok {
        size := n.value;
        Front(memory, at, size, room);
      }
    }

    /** Encode the candidate element and decode the result. */
    method Propose(e: Element, at: nat, room: size_t) returns (verdict: Verdict)
      requires format.CanRead() && format.CanWrite() && at + room <= memory.Length
      modifies memory
      ensures OnlyWrites(at, room)
      ensures verdict == Proposal(format, e, old(memory[at..at + room]))
      ensures verdict.Take? ==>
        verdict.size <= room && memory[at..at + verdict.size] == WireOver(format, e, old(memory[at..at + room]))
    {
      hide WireOver, Denoted, WellFormed, Inside;
      var rc, n := Put(e, at, room);
      if rc == ErrCallback {
        return Abort;
      }
      if rc != Ok {
        return Reject;
      }
      if n == 0 {
        return Abort;
      }
      var wire := memory[at..at + n];
      var status, decoded, error := Decode(format, wire);
      if status == ErrCallback {
        return Abort;
      }
      if status != Ok {
        return Reject;
      }
      if decoded.value.size != n || Denoted(decoded.value, wire) != e {
        return Abort;
      }
      return Take(n);
    }

    /** Re-encode the decoded element over the staged Value and compare byte for byte. */
    method Confirm(e: Element, at: nat, size: size_t, block: nat) returns (verdict: Verdict)
      requires format.CanWrite() && size <= options.maxCase
      requires at + size <= memory.Length && block + options.maxCase <= memory.Length
      requires at + size <= block || block + options.maxCase <= at
      modifies memory
      ensures OnlyWrites(block, options.maxCase) && memory[at..at + size] == old(memory[at..at + size])
      ensures verdict
           == Confirmation(format, e, old(memory[block..block + options.maxCase]), old(memory[at..at + size]))
    {
      hide WireOver, EncodeOutcome;
      var rc, check := Put(e, block, options.maxCase);
      assert memory[at..at + size] == old(memory[at..at + size]);
      if rc == ErrCallback {
        return Abort;
      }
      if rc != Ok || check != size || memory[block..block + size] != memory[at..at + size] {
        return Reject;
      }
      return Take(size);
    }

    /** Encode, decode and re-encode one candidate element. */
    method TryElement(e: Element, at: nat, room: size_t, block: nat) returns (verdict: Verdict)
      requires format.CanRead() && format.CanWrite() && room <= options.maxCase
      requires at + room <= memory.Length && block + options.maxCase <= memory.Length
      requires at + room <= block || block + options.maxCase <= at
      modifies memory
      ensures verdict
           == Check(format, e, old(memory[at..at + room]), old(memory[block..block + options.maxCase]))
      ensures verdict.Take? ==>
        verdict.size <= room && memory[at..at + verdict.size] == WireOver(format, e, old(memory[at..at + room]))
      ensures forall i :: 0 <= i < memory.Length ==>
        at <= i < at + room || block <= i < block + options.maxCase || memory[i] == old(memory[i])
    {
      hide WireOver, EncodeOutcome, Proposal, Confirmation;
      verdict := Propose(e, at, room);
      if verdict.Take? {
        assert memory[block..block + options.maxCase] == old(memory[block..block + options.maxCase]);
        verdict := Confirm(e, at, verdict.size, block);
      }
    }

    // ----- One level -----

    twostate predicate OnlyWritesBelow(out: nat, capacity: nat, depth: nat)
      reads memory
    {
      forall i :: 0 <= i < memory.Length && !Writable(i, out, capacity, depth) ==> memory[i] == old(memory[i])
    }

    /** Bytes already accepted survive whatever the rest of their level writes. */
    lemma Survives(before: bytes, after: bytes, out: nat, pos: nat, capacity: nat, depth: nat)
      requires |before| == |after| == memory.Length
      requires pos <= capacity && Separate(out, capacity, depth) && depth <= options.maxDepth
      requires forall i :: 0 <= i < |after| && !Writable(i, out + pos, capacity - pos, depth) ==> after[i] == before[i]
      ensures after[out..out + pos] == before[out..out + pos]
    {
      BlocksAscend(depth, options.maxDepth + 1);
    }

    /** A primitive Value: a size biased to boundaries, then random bytes. */
    method StageRandom(lo: size_t, hi: size_t, block: nat) returns (length: nat, ghost value: bytes)
      requires lo <= hi < SIZE_MAX && block + hi <= memory.Length
      modifies this`random, memory
      ensures lo <= |value| == length <= hi && memory[block..block + length] == value
      ensures var (n, start) := DrawnSize(Setup(), old(random), lo, hi);
        value == RandomBytes(Setup(), start, n) && random == Counter(start, n)
      ensures OnlyWrites(block, hi)
    {
      hide DrawnSize, RandomBytes;
      length := ValueSize(lo, hi);
      Fill(block, length);
      value := memory[block..block + length];
    }

    /** The outcome of staging is the planned one. */
    ghost predicate Staged(p: Level, rc: Status, value: bytes)
      reads this
    {
      match p
      case Aborted => rc == ErrCallback
      case Planned(text, left) => rc == Ok && value == text && Now() == left
    }

    /** A constructed Value: a stream of the next level, or nothing. */
    method StageStream(hi: size_t, depth: nat, block: nat)
      returns (rc: Status, length: nat, ghost value: bytes, ghost children: Forest)
      requires Ready() == true && depth <= options.maxDepth && hi <= options.maxCase
      requires block == Block(depth) && block + options.maxCase == Block(depth + 1)
      modifies this`random, this`remaining, this`attempts, this`rounds, this`alarms, memory
      ensures rc in {Ok, ErrCallback} && (rc == ErrCallback ==> defect)
      ensures block + hi <= memory.Length
      ensures rc == Ok ==>
        && |value| == length <= hi && memory[block..block + length] == value == Wire(children)
        && ForestOk(format, options, children, depth + 1) == true && remaining + Count(children) == old(remaining)
      ensures rc == Ok && depth < options.maxDepth && old(remaining) > 0 && hi > 0 ==>
        StopsFor(1 + Drawn(Setup(), old(random), 1) % old(remaining), Roots(children), hi - length)
      ensures thorough ==>
        Staged(
          if depth < options.maxDepth && old(remaining) > 0 && hi > 0 then
            PlanStream(Setup(), hi, depth + 1, old(Now()))
          else Planned([], old(Now())),
          rc, value)
      ensures attempts + rounds == old(attempts + rounds) && attempts <= old(attempts)
      ensures alarms == old(alarms) + if rc == ErrCallback then 1 else 0
      ensures OnlyWritesBelow(block, 0, depth)
      decreases options.maxDepth - depth, 0
    {
      hide ForestOk, PlanStream, Accounts, Count;
      BlocksAscend(depth + 1, options.maxDepth + 1);
      EmptyForestOk(format, options, depth + 1);
      rc, length, value, children := Ok, 0, [], Empty;
      if depth < options.maxDepth && remaining > 0 && hi > 0 {
        rc, length, children := Stream(block, hi, depth + 1);
        value := Wire(children);
      }
    }

    /** The blocks down to one depth lie in the workspace. */
    lemma RoomFor(depth: nat)
      requires Ready() == true && depth <= options.maxDepth
      ensures format.CanRead() && format.CanWrite() && Setup().Usable()
      ensures Block(depth) <= Block(depth + 1) <= Block(options.maxDepth + 1) <= memory.Length
    {
      BlocksAscend(depth + 1, options.maxDepth + 1);
    }

    /** The Value of one attempted element, staged in the block of its depth. */
    method StageValue(c: Candidate, hi: size_t, depth: nat, block: nat)
      returns (rc: Status, length: nat, ghost value: bytes, ghost children: Forest)
      requires Ready() == true && depth <= options.maxDepth && remaining > 0
      requires block == Block(depth) && block + options.maxCase == Block(depth + 1)
      requires c.minValue <= hi <= options.maxCase
      modifies this`random, this`remaining, this`attempts, this`rounds, this`alarms, memory
      ensures rc in {Ok, ErrCallback} && (rc == ErrCallback ==> defect)
      ensures block + hi <= memory.Length
      ensures rc == Ok ==>
        && |value| == length <= hi && memory[block..block + length] == value
        && (length < c.minValue ==> format.Constructed(c.tag))
        && ForestOk(format, options, children, depth + 1) == true
        && (if format.Constructed(c.tag) then value == Wire(children) else children == Empty)
        && remaining + 1 + Count(children) == old(remaining)
      ensures rc == Ok && format.Constructed(c.tag) && depth < options.maxDepth && old(remaining) > 1 && hi > 0 ==>
        StopsFor(1 + Drawn(Setup(), old(random), 1) % (old(remaining) - 1), Roots(children), hi - length)
      ensures thorough ==> Staged(PlanValue(Setup(), c, hi, depth, old(Now())), rc, value)
      ensures attempts + rounds == old(attempts + rounds) && attempts <= old(attempts)
      ensures alarms == old(alarms) + if rc == ErrCallback then 1 else 0
      ensures OnlyWritesBelow(block, 0, depth)
      decreases options.maxDepth - depth, 1
    {
      hide ForestOk, PlanStream, Accounts, DrawnSize, RandomBytes, Wire, Count, Ready;
      RoomFor(depth);
      remaining := remaining - 1;
      if format.Constructed(c.tag) {
        rc, length, value, children := StageStream(hi, depth, block);
      } else {
        EmptyForestOk(format, options, depth + 1);
        rc, children := Ok, Empty;
        length, value := StageRandom(c.minValue, hi, block);
      }
    }

    /** A candidate and the largest Value it may have here. */
    method Pick(room: size_t) returns (c: Candidate, hi: size_t)
      requires options.candidates != []
      modifies this`random
      ensures c == options.candidates[Drawn(Setup(), old(random), 1) % |options.candidates|] && c in options.candidates
      ensures hi <= c.maxValue && hi <= options.maxValue && hi <= room && hi in {c.maxValue, options.maxValue, room}
      ensures hi == Longest(options, c, room) && random == Counter(old(random), 1)
    {
      var pick := Below(|options.candidates|);
      c := options.candidates[pick];
      hi := c.maxValue;
      if hi > options.maxValue {
        hi := options.maxValue;
      }
      if hi > room {
        hi := room;
      }
    }

    /** The drawing is the planned one. */
    ghost predicate DrewAs(p: Drawing, verdict: Verdict, c: Candidate, value: bytes)
      reads this
    {
      match p
      case Spoiled => verdict.Abort?
      case Nothing(left) => verdict.Reject? && Now() == left
      case Drew(candidate, data, left) => verdict.Take? && c == candidate && value == data && Now() == left
    }

    /** Pick a candidate and stage its Value; Take carries the staged length. */
    method Draw(room: size_t, depth: nat)
      returns (verdict: Verdict, c: Candidate, ghost value: bytes, ghost children: Forest)
      requires Ready() == true && depth <= options.maxDepth && remaining > 0 && room <= options.maxCase
      modifies this`random, this`remaining, this`attempts, this`rounds, this`alarms, memory
      ensures verdict.Take? ==>
        && c in options.candidates
        && c.minValue <= |value| == verdict.size <= Longest(options, c, room)
        && Block(depth) + verdict.size <= memory.Length && memory[Block(depth)..Block(depth) + verdict.size] == value
        && ForestOk(format, options, children, depth + 1) == true
        && (if format.Constructed(c.tag) then value == Wire(children) else children == Empty)
        && remaining + 1 + Count(children) == old(remaining)
      ensures verdict.Reject? ==> remaining == old(remaining) && excused(room)
      ensures verdict.Reject? ==>
        || c.minValue > Longest(options, c, room)
        || (format.Constructed(c.tag) && value == Wire(children) && |value| < c.minValue)
      ensures verdict.Abort? ==> defect
      ensures thorough ==> DrewAs(PlanDraw(Setup(), room, depth, old(Now())), verdict, c, value)
      ensures attempts + rounds == old(attempts + rounds) && attempts <= old(attempts)
      ensures alarms == old(alarms) + if verdict.Abort? then 1 else 0
      ensures OnlyWritesBelow(Block(depth), 0, depth)
      decreases options.maxDepth - depth, 2
    {
      hide ForestOk, Accounts, PlanValue, Drawn, Counter;
      value, children := [], Empty;
      var saved := remaining;
      var hi;
      c, hi := Pick(room);
      if c.minValue > hi {
        Unusable(c, room);
        return Reject, c, value, children;
      }
      var status, length;
      status, length, value, children := StageValue(c, hi, depth, Block(depth));
      if status != Ok {
        return Abort, c, value, children;
      }
      if length < c.minValue {
        Unusable(c, room);
        remaining := saved;
        return Reject, c, value, children;
      }
      return Take(length), c, value, children;
    }

    /** The attempt is the planned one. */
    ghost predicate TurnedAs(p: Turn, verdict: Verdict, wire: bytes, left: Draws) {
      verdict == p.verdict && (verdict.Take? ==> wire == p.wire) && (!verdict.Abort? ==> left == p.draws)
    }

    /** Check a staged element; on rejection the budget is what it was before the attempt. */
    method Settle(c: Candidate, at: nat, room: size_t, depth: nat, length: nat, saved: nat,
                  ghost value: bytes, ghost children: Forest)
      returns (verdict: Verdict, ghost node: Node)
      requires Ready() == true && depth <= options.maxDepth && c in options.candidates
      requires room <= options.maxCase && Separate(at, room, depth)
      requires Block(depth) + options.maxCase <= Block(options.maxDepth + 1)
      requires c.minValue <= |value| == length <= Longest(options, c, room)
      requires memory[Block(depth)..Block(depth) + length] == value
      requires if format.Constructed(c.tag) then value == Wire(children) else children == Empty
      requires ForestOk(format, options, children, depth + 1) == true
      modifies this`remaining, this`alarms, memory
      ensures verdict.Take? ==>
        && verdict.size <= room
        && node == Node(c, value, memory[at..at + verdict.size], children)
        && NodeOk(format, options, node, depth) == true
      ensures verdict.Abort? ==> defect
      ensures verdict.Reject? ==> excused(room)
      ensures verdict
           == Check(format, Element(c.tag, value), old(memory[at..at + room]),
                    old(memory[Block(depth)..Block(depth) + options.maxCase]))
      ensures alarms == old(alarms) + if verdict.Abort? then 1 else 0
      ensures remaining == if verdict.Reject? then saved else old(remaining)
      ensures thorough ==>
        TurnedAs(PlanVerdict(Setup(), Element(c.tag, value), room, saved, old(Now())), verdict, node.wire, Now())
      ensures OnlyWritesBelow(at, room, depth)
    {
      hide ForestOk, NodeOk, Reconstructible, Carried, Accounts, WireOver, Check, PlanVerdict;
      var block := Block(depth);
      var e := Element(c.tag, memory[block..block + length]);
      ghost var region, blank := memory[at..at + room], memory[block..block + options.maxCase];
      ghost var budget := Now();
      verdict := TryElement(e, at, room, block);
      node := Node(c, value, if verdict.Take? then memory[at..at + verdict.size] else [], children);
      Judged(c, value, room, region, blank, saved, budget);
      if verdict.Abort? {
        alarms := alarms + 1;
      }
      if verdict.Reject? {
        remaining := saved;
      }
      if verdict.Take? {
        node := MakeNode(format, options, c, value, memory[at..at + verdict.size], children, depth);
      }
    }

    /** What a verdict means for the tree, for the reasons to fail, and for the plan. */
    lemma Judged(c: Candidate, value: bytes, room: nat, region: bytes, block: bytes, saved: nat, d: Draws)
      requires Setup().Usable() && Accounts() && c in options.candidates
      requires |region| == room && |block| == options.maxCase
      requires c.minValue <= |value| <= Longest(options, c, room)
      ensures var e := Element(c.tag, value);
        var verdict := Check(format, e, region, block);
        && (verdict.Take? ==> Reconstructible(format, options, e, WireOver(format, e, region)))
        && (verdict.Abort? ==> defect)
        && (verdict.Reject? ==> excused(room))
        && (thorough ==>
            PlanVerdict(Setup(), e, room, saved, d)
            == Turn(verdict, if verdict.Take? then WireOver(format, e, region) else [],
                    if verdict.Reject? then d.(remaining := saved) else d))
    {
      hide Reconstructible, Carried, Mangles, Check, WireOver, Unsuited, Thorough;
      var e := Element(c.tag, value);
      CheckIsFair(format, options, e, region, block);
      if Check(format, e, region, block).Reject? {
        NotCarried(c, value, room);
      }
      if thorough {
        CheckIsSteady(format, e, region, block, Zeros(room), Zeros(options.maxCase));
      }
    }

    /** A planned drawing makes a planned attempt: over without a verdict, or as the verdict on what was drawn. */
    lemma PlannedTurn(room: nat, depth: nat, d: Draws, verdict: Verdict, c: Candidate, value: bytes,
                      wire: bytes)
      requires Ready() == true && depth <= options.maxDepth && d.remaining > 0 && d.attempts > 0
      requires thorough ==>
        DrewAs(PlanDraw(Setup(), room, depth, d.(attempts := d.attempts - 1)), verdict, c, value)
      ensures Setup().Usable()
      ensures thorough ==>
        var plan := PlanTurn(Setup(), room, depth, d);
        if verdict.Take? then plan == PlanVerdict(Setup(), Element(c.tag, value), room, d.remaining, Now())
        else TurnedAs(plan, verdict, wire, Now())
    {
      hide PlanDraw, PlanVerdict;
      assert Setup().Usable();
    }

    /** One attempt of the loop: draw a candidate, then write and check the element. */
    method Attempt(at: nat, room: size_t, depth: nat) returns (verdict: Verdict, ghost node: Node)
      requires Ready() == true && depth <= options.maxDepth && remaining > 0 && attempts > 0
      requires 0 < room <= options.maxCase && at + room <= memory.Length && Separate(at, room, depth) == true
      modifies this`random, this`remaining, this`attempts, this`rounds, this`alarms, memory
      ensures verdict.Take? ==>
        && verdict.size <= room
        && node.wire == memory[at..at + verdict.size]
        && NodeOk(format, options, node, depth) == true
        && remaining + 1 + Count(node.children) == old(remaining)
      ensures verdict.Reject? ==> remaining == old(remaining) && excused(room)
      ensures verdict.Abort? ==> defect
      ensures thorough ==> TurnedAs(PlanTurn(Setup(), room, depth, old(Now())), verdict, node.wire, Now())
      ensures attempts + rounds == old(attempts + rounds) && attempts < old(attempts)
      ensures alarms == old(alarms) + if verdict.Abort? then 1 else 0
      ensures OnlyWritesBelow(at, room, depth)
      decreases options.maxDepth - depth, 3
    {
      hide ForestOk, NodeOk, Accounts, PlanDraw, PlanTurn, PlanVerdict, DrewAs, TurnedAs, Longest, Wire, Count, Ready;
      hide Separate;
      ghost var before := Now();
      node := *;
      RoomFor(depth);
      var saved := remaining;
      attempts, rounds := attempts - 1, rounds + 1;
      var c;
      ghost var value, children;
      verdict, c, value, children := Draw(room, depth);
      PlannedTurn(room, depth, before, verdict, c, value, node.wire);
      if verdict.Take? {
        verdict, node := Settle(c, at, room, depth, verdict.size, saved, value, children);
      }
    }

    /** The attempt, seen from its level: what was accepted before it is still there. */
    method Round(out: nat, pos: nat, capacity: size_t, depth: nat) returns (verdict: Verdict, ghost node: Node)
      requires Ready() == true && depth <= options.maxDepth && remaining > 0 && attempts > 0
      requires pos < capacity <= options.maxCase && Separate(out, capacity, depth)
      modifies this`random, this`remaining, this`attempts, this`rounds, this`alarms, memory
      ensures verdict.Take? ==>
        && verdict.size <= capacity - pos && |node.wire| == verdict.size
        && NodeOk(format, options, node, depth) == true
        && remaining + 1 + Count(node.children) == old(remaining)
      ensures verdict.Reject? ==> remaining == old(remaining) && excused(capacity - pos)
      ensures verdict.Abort? ==> defect
      ensures thorough ==> TurnedAs(PlanTurn(Setup(), capacity - pos, depth, old(Now())), verdict, node.wire, Now())
      ensures attempts + rounds == old(attempts + rounds) && attempts < old(attempts)
      ensures alarms == old(alarms) + if verdict.Abort? then 1 else 0
      ensures memory[out..out + pos] == old(memory[out..out + pos])
      ensures verdict.Take? ==> memory[out..out + (pos + verdict.size)] == memory[out..out + pos] + node.wire
      ensures OnlyWritesBelow(out, capacity, depth)
      decreases options.maxDepth - depth, 4
    {
      hide NodeOk, Accounts, PlanTurn, Count;
      ghost var before := memory[..];
      verdict, node := Attempt(out + pos, capacity - pos, depth);
      Survives(before, memory[..], out, pos, capacity, depth);
      assert memory[out..out + pos] == memory[..][out..out + pos];
      if verdict.Take? {
        Join(memory, out, out + pos, out + (pos + verdict.size));
      }
    }

    /** The text of a level so far is that of a well-formed tree. */
    ghost predicate Spelled(text: bytes, forest: Forest, depth: nat) {
      format.CanRead() && format.CanWrite() && text == Wire(forest) && ForestOk(format, options, forest, depth)
    }

    /** What is left of the plan, if the run follows one. */
    ghost predicate OnPlan(
      plan: Level, target: nat, accepted: nat, room: int, depth: nat, text: bytes, left: Draws) {
      && Setup().Usable() && depth <= options.maxDepth && room >= 0
      && (thorough ==> PlanRest(Setup(), target, accepted, room, depth, text, left) == plan)
    }

    lemma StaysOnPlan(
      plan: Level, target: nat, accepted: nat, room: int, depth: nat, text: bytes, left: Draws,
      verdict: Verdict, wire: bytes, now: Draws)
      requires OnPlan(plan, target, accepted, room, depth, text, left) == true
      requires accepted < target && left.remaining > 0 && left.attempts > 0 && room > 0
      requires thorough ==> TurnedAs(PlanTurn(Setup(), room, depth, left), verdict, wire, now)
      requires verdict.Take? ==> verdict.size <= room
      ensures verdict.Abort? && thorough ==> plan == Aborted
      ensures verdict.Reject? ==> OnPlan(plan, target, accepted, room, depth, text, now)
      ensures verdict.Take? ==> OnPlan(plan, target, accepted + 1, room - verdict.size, depth, text + wire, now)
    {
      hide PlanRest, PlanTurn;
      RestStep(Setup(), target, accepted, room, depth, text, left);
    }

    lemma PlanEnds(
      plan: Level, target: nat, accepted: nat, room: int, depth: nat, text: bytes, left: Draws)
      requires OnPlan(plan, target, accepted, room, depth, text, left) == true
      requires accepted >= target || left.remaining == 0 || left.attempts == 0 || room == 0
      ensures thorough ==> plan == Planned(text, left)
    {
      hide PlanRest;
      RestEnds(Setup(), target, accepted, room, depth, text, left);
    }

    lemma StaysSpelled(text: bytes, forest: Forest, depth: nat, node: Node)
      requires Spelled(text, forest, depth) == true && NodeOk(format, options, node, depth) == true
      ensures var grown := Grow(forest, node);
        && Spelled(text + node.wire, grown, depth) && node.wire != []
        && Count(grown) == Count(forest) + 1 + Count(node.children) && Roots(grown) == Roots(forest) + 1
    {
      ForestGrows(format, options, forest, node, depth);
    }

    /** The loop of one level has come this far. */
    ghost predicate Along(
      plan: Level, target: nat, accepted: nat, out: nat, pos: nat, capacity: nat, depth: nat, forest: Forest)
      reads this, memory
    {
      && pos <= capacity && out + capacity <= memory.Length
      && Spelled(memory[out..out + pos], forest, depth)
      && OnPlan(plan, target, accepted, capacity - pos, depth, memory[out..out + pos], Now())
      && accepted == Roots(forest) <= target && (pos == 0 ==> accepted == 0 && forest == Empty)
    }

    /** One round of the loop. */
    method Step(ghost plan: Level, target: nat, accepted: nat, out: nat, pos: nat, capacity: size_t, depth: nat,
                ghost forest: Forest)
      returns (verdict: Verdict, ghost grown: Forest)
      requires Ready() == true && depth <= options.maxDepth && remaining > 0 && attempts > 0 && accepted < target
      requires pos < capacity <= options.maxCase && Separate(out, capacity, depth)
      requires Along(plan, target, accepted, out, pos, capacity, depth, forest)
      modifies this`random, this`remaining, this`attempts, this`rounds, this`alarms, memory
      ensures memory[out..out + pos] == old(memory[out..out + pos])
      ensures verdict.Abort? ==> defect && (thorough ==> plan == Aborted)
      ensures verdict.Reject? ==>
        && grown == forest && excused(capacity - pos)
        && Along(plan, target, accepted, out, pos, capacity, depth, grown)
      ensures verdict.Take? ==>
        && 0 < verdict.size <= capacity - pos
        && Along(plan, target, accepted + 1, out, pos + verdict.size, capacity, depth, grown)
      ensures !verdict.Abort? ==> remaining + Count(grown) == old(remaining) + Count(forest)
      ensures attempts + rounds == old(attempts + rounds) && attempts < old(attempts)
      ensures alarms == old(alarms) + if verdict.Abort? then 1 else 0
      ensures OnlyWritesBelow(out, capacity, depth)
      decreases options.maxDepth - depth, 5
    {
      hide ForestOk, NodeOk, Accounts, PlanTurn, PlanRest, Wire, Count, Roots;
      hide Ready, Writable, OnPlan, Spelled, TurnedAs;
      ghost var text, left := memory[out..out + pos], Now();
      ghost var node;
      verdict, node := Round(out, pos, capacity, depth);
      grown := forest;
      StaysOnPlan(plan, target, accepted, capacity - pos, depth, text, left, verdict, node.wire, Now());
      if verdict.Take? {
        StaysSpelled(text, forest, depth, node);
        grown := Grow(forest, node);
      }
    }

    /** A level stops at its drawn number of roots, or earlier for want of elements, attempts or room. */
    ghost predicate StopsFor(target: nat, roots: nat, room: nat)
      reads this
    {
      roots <= target && (roots == target || remaining == 0 || attempts == 0 || room == 0)
    }

    /** One level of the stream, written from `out` on, with its tree as witness. */
    method Stream(out: nat, capacity: size_t, depth: nat)
      returns (rc: Status, written: nat, ghost forest: Forest)
      requires Ready() == true && depth <= options.maxDepth && remaining > 0
      requires capacity <= options.maxCase && Separate(out, capacity, depth)
      modifies this`random, this`remaining, this`attempts, this`rounds, this`alarms, memory
      ensures rc in {Ok, ErrCallback}
      ensures rc == Ok ==>
        && written <= capacity && Spelled(memory[out..out + written], forest, depth) == true
        && remaining + Count(forest) == old(remaining)
        && StopsFor(1 + Drawn(Setup(), old(random), 1) % old(remaining), Roots(forest), capacity - written)
      ensures rc == Ok && written == 0 && capacity > 0 && old(attempts) > 0 ==>
        attempts == 0 && excused(capacity)
      ensures rc == ErrCallback ==> defect
      ensures thorough ==> Staged(PlanStream(Setup(), capacity, depth, old(Now())), rc, Wire(forest))
      ensures attempts + rounds == old(attempts + rounds) && attempts <= old(attempts)
      ensures alarms == old(alarms) + if rc == ErrCallback then 1 else 0
      ensures OnlyWritesBelow(out, capacity, depth)
      decreases options.maxDepth - depth, 7
    {
      hide ForestOk, PlanRest, Ready, Wire, Count, Roots, Accounts, Drawn, Spelled, Writable, Separate;
      var target := Below(remaining);
      target := 1 + target;
      rc, written, forest := Loop(target, out, capacity, depth);
    }

    lemma LevelBegins(target: nat, out: nat, capacity: nat, depth: nat)
      requires Ready() == true && depth <= options.maxDepth && target > 0 && out + capacity <= memory.Length
      ensures Setup().Usable()
      ensures Along(
        PlanRest(Setup(), target, 0, capacity, depth, [], Now()), target, 0, out, 0, capacity, depth, Empty)
    {
      EmptyForestOk(format, options, depth);
      assert memory[out..out + 0] == [];
    }

    lemma LevelEnds(
      plan: Level, target: nat, accepted: nat, out: nat, pos: nat, capacity: nat, depth: nat, forest: Forest)
      requires Along(plan, target, accepted, out, pos, capacity, depth, forest)
      requires accepted >= target || remaining == 0 || attempts == 0 || pos == capacity
      ensures out + pos <= memory.Length && Spelled(memory[out..out + pos], forest, depth)
      ensures thorough ==> plan == Planned(Wire(forest), Now())
      ensures accepted == Roots(forest) && (pos == 0 ==> accepted == 0 && forest == Empty && Count(forest) == 0)
    {
      hide OnPlan;
      PlanEnds(plan, target, accepted, capacity - pos, depth, memory[out..out + pos], Now());
    }

    /** The loop of one level, up to a number of roots. */
    method Loop(target: nat, out: nat, capacity: size_t, depth: nat)
      returns (rc: Status, written: nat, ghost forest: Forest)
      requires Ready() == true && depth <= options.maxDepth && remaining > 0 && target > 0
      requires capacity <= options.maxCase && Separate(out, capacity, depth)
      modifies this`random, this`remaining, this`attempts, this`rounds, this`alarms, memory
      ensures rc in {Ok, ErrCallback}
      ensures rc == Ok ==>
        && written <= capacity && Spelled(memory[out..out + written], forest, depth) == true
        && remaining + Count(forest) == old(remaining)
        && StopsFor(target, Roots(forest), capacity - written)
      ensures rc == Ok && written == 0 && capacity > 0 && old(attempts) > 0 ==>
        attempts == 0 && excused(capacity)
      ensures rc == ErrCallback ==> defect
      ensures thorough ==>
        Staged(PlanRest(Setup(), target, 0, capacity, depth, [], old(Now())), rc, Wire(forest))
      ensures attempts + rounds == old(attempts + rounds) && attempts <= old(attempts)
      ensures alarms == old(alarms) + if rc == ErrCallback then 1 else 0
      ensures OnlyWritesBelow(out, capacity, depth)
      decreases options.maxDepth - depth, 6
    {
      hide ForestOk, NodeOk, Accounts, PlanTurn, PlanRest, Wire, Ready, Writable, Along, Spelled, OnPlan;
      var pos: nat, accepted: nat := 0, 0;
      forest := Empty;
      LevelBegins(target, out, capacity, depth);
      ghost var plan := PlanRest(Setup(), target, 0, capacity, depth, [], Now());
      while accepted < target && remaining > 0 && attempts > 0 && pos < capacity
        invariant pos <= capacity && accepted <= target
        invariant Along(plan, target, accepted, out, pos, capacity, depth, forest) == true
        invariant remaining + Count(forest) == old(remaining)
        invariant attempts + rounds == old(attempts + rounds) && attempts <= old(attempts)
        invariant alarms == old(alarms)
        invariant OnlyWritesBelow(out, capacity, depth)
        invariant pos == 0 && attempts < old(attempts) ==> excused(capacity)
        decreases attempts
      {
        var verdict;
        verdict, forest := Step(plan, target, accepted, out, pos, capacity, depth, forest);
        if verdict == Abort {
          return ErrCallback, 0, forest;
        }
        if verdict.Take? {
          pos := pos + verdict.size;
          accepted := accepted + 1;
        }
      }
      LevelEnds(plan, target, accepted, out, pos, capacity, depth, forest);
      return Ok, pos, forest;
    }

    /** A whole case: the stream of the outermost level, unless it stays empty. */
    method Case(data: nat) returns (rc: Status, written: Option<size_t>, ghost forest: Forest)
      requires Ready() == true && remaining > 0 && attempts > 0 && options.maxCase > 0
      requires Separate(data, options.maxCase, 0)
      modifies this`random, this`remaining, this`attempts, this`rounds, this`alarms, memory
      ensures rc in {Ok, ErrCallback, ErrLimit} && (rc != Ok ==> written == None)
      ensures rc == Ok ==>
        && written.Some? && 0 < written.value <= options.maxCase
        && memory[data..data + written.value] == Wire(forest)
        && ForestOk(format, options, forest, 0) == true
        && 0 < Count(forest) == old(remaining) - remaining
      ensures rc == ErrCallback ==> defect
      ensures rc == ErrLimit ==> attempts == 0 && excused(options.maxCase)
      ensures thorough ==>
        PlannedCase(PlanStream(Setup(), options.maxCase, 0, old(Now()))) == (rc, if rc == Ok then Wire(forest) else [])
      ensures attempts + rounds == old(attempts + rounds)
      ensures alarms == old(alarms) + if rc == ErrCallback then 1 else 0
      ensures OnlyWritesBelow(data, options.maxCase, 0)
    {
      hide PlanStream, Accounts, Ready, Writable;
      var n;
      rc, n, forest := Stream(data, options.maxCase, 0);
      written := None;
      if rc == Ok {
        assert Wire(forest) == memory[data..data + n] && |memory[data..data + n]| == n;
        if n == 0 {
          rc := ErrLimit;
        } else {
          written := Some(n);
        }
      }
    }
  }

  /**
   * tlv_generate: data[..capacity] and workspace[..workSize] are disjoint regions of memory,
   * beginning at `data` and `work`. The ghost results witness the tree and the work done.
   */
  method Generate(f: Format, o: Options, memory: array<byte>, data: nat, capacity: nat, work: nat, workSize: nat)
    returns (rc: Status, written: Option<size_t>, ghost forest: Forest, ghost rounds: nat)
    requires data + capacity <= memory.Length && work + workSize <= memory.Length
    requires data + capacity <= work || work + workSize <= data
    modifies memory
    ensures
      || rc == Preflight(f, o, capacity, workSize)
      || (Preflight(f, o, capacity, workSize) == Ok && rc in {ErrCallback, ErrLimit})
    ensures Preflight(f, o, capacity, workSize) != Ok ==> memory[..] == old(memory[..])
    ensures !f.CanRead() || !f.CanWrite() ==> rc == ErrUnsupported
    ensures f.CanRead() && f.CanWrite() && ConfigStatus(o) != Ok ==> rc == ConfigStatus(o)
    ensures f.CanRead() && f.CanWrite() && ConfigStatus(o) == Ok ==>
      (rc == ErrBufferTooShort <==> capacity < o.maxCase || workSize < (o.maxDepth + 1) * o.maxCase)
    ensures rc != Ok ==> written == None
    ensures rc == Ok ==>
      && written.Some? && 0 < written.value <= o.maxCase
      && memory[data..data + written.value] == Wire(forest)
      && ForestOk(f, o, forest, 0) == true
      && 0 < Count(forest) <= o.maxElements
    ensures rc == ErrCallback ==> f.CanRead() && f.CanWrite() && Defective(f)
    ensures rc == ErrLimit ==> f.CanRead() && f.CanWrite() && rounds == 64 * o.maxElements && Excuse(f, o, o.maxCase)
    ensures Preflight(f, o, capacity, workSize) == Ok && Thorough(f) ==>
      Generated(f, o) == (rc, if rc == Ok then memory[data..data + written.value] else [])
    ensures rounds <= 64 * o.maxElements
    ensures rc in {Ok, ErrCallback, ErrLimit} ==>
      forall i :: 0 <= i < memory.Length ==>
        || data <= i < data + o.maxCase
        || work <= i < work + (o.maxDepth + 1) * o.maxCase
        || memory[i] == old(memory[i])
  {
    hide ForestOk, Excuse, Defective, Thorough, Generated, Wire, Count;
    forest, rounds, written := Empty, 0, None;
    if !f.CanRead() || !f.CanWrite() {
      return ErrUnsupported, None, forest, 0;
    }
    var status, required := WorkspaceSize(o);
    if status != Ok {
      return status, None, forest, 0;
    }
    if capacity < o.maxCase || workSize < required.value {
      return ErrBufferTooShort, None, forest, 0;
    }
    rc, written, forest, rounds := Produce(f, o, memory, data, work);
  }

  /** The case itself, once every check has passed. */
  method Produce(f: Format, o: Options, memory: array<byte>, data: nat, work: nat)
    returns (rc: Status, written: Option<size_t>, ghost forest: Forest, ghost rounds: nat)
    requires f.CanRead() && f.CanWrite() && ConfigStatus(o) == Ok
    requires data + o.maxCase <= memory.Length && work + (o.maxDepth + 1) * o.maxCase <= memory.Length
    requires data + o.maxCase <= work || work + (o.maxDepth + 1) * o.maxCase <= data
    modifies memory
    ensures rc in {Ok, ErrCallback, ErrLimit} && (rc != Ok ==> written == None)
    ensures rc == Ok ==>
      && written.Some? && 0 < written.value <= o.maxCase
      && memory[data..data + written.value] == Wire(forest)
      && ForestOk(f, o, forest, 0) == true
      && 0 < Count(forest) <= o.maxElements
    ensures rc == ErrCallback ==> Defective(f)
    ensures rc == ErrLimit ==> rounds == 64 * o.maxElements && Excuse(f, o, o.maxCase)
    ensures Thorough(f) ==> Generated(f, o) == (rc, if rc == Ok then Wire(forest) else [])
    ensures rounds <= 64 * o.maxElements
    ensures forall i :: 0 <= i < memory.Length ==>
      || data <= i < data + o.maxCase
      || work <= i < work + (o.maxDepth + 1) * o.maxCase
      || memory[i] == old(memory[i])
  {
    hide ForestOk, Excuse, Defective, Thorough, PlanStream, PlannedCase, Start, Mix, Wire, Count;
    hide Run.Ready, Run.Accounts, Run.Block;
    var run := new Run(f, o, memory, work, Defective(f), (room: nat) => Excuse(f, o, room), Thorough(f));
    run.ReadyFor();
    rc, written, forest := run.Case(data);
    rounds := run.rounds;
  }

  /** The checks made before anything is written, in documented precedence. */
  ghost function Preflight(f: Format, o: Options, capacity: nat, workSize: nat): Status {
    if !f.CanRead() || !f.CanWrite() then ErrUnsupported
    else if ConfigStatus(o) != Ok then ConfigStatus(o)
    else if capacity < o.maxCase || workSize < (o.maxDepth + 1) * o.maxCase then ErrBufferTooShort
    else Ok
  }
}
