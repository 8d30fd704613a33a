/** Writer, Generator and Reader together: what is encoded is what any windowed read publishes. */
module RoundTrip {
  import opened Tlv
  import opened NativeCalls
  import opened Streams
  import FormatContract
  import G = Generator
  import P = GeneratorPlan
  import Le16
  import R = Reader
  import W = Writer

  /** Successful encoding, of a plain element or a closing parent, reads back as that element. */
  ghost predicate Inverse(w: W.Native, r: R.Native) {
    forall e: Element, closing: bool ::
      var c := W.Encode(w, e, closing);
      c.Coded? ==> r(c.data, false) == R.Got(e, |c.data|)
  }

  // ----- Writer output -----

  function Content(w: W.Native, item: W.Item): Element
    requires !item.Raw?
  {
    match item
    case Leaf(e) => e
    case Parent(tag, items) => Element(tag, W.Text(w, items))
  }

  function Pieces(w: W.Native, items: W.Items): Stream
    requires W.ElementsOnly(items)
  {
    match items
    case Nil => Start
    case Then(earlier, last) => More(Pieces(w, earlier), Piece(Content(w, last), W.ItemText(w, last)))
  }

  lemma {:induction false} TextIsJoined(w: W.Native, r: R.Native, items: W.Items)
    requires W.ElementsOnly(items) && W.Encodes(w, items) && Inverse(w, r)
    ensures Joined(Pieces(w, items)) == W.Text(w, items)
    ensures Readable(r, Pieces(w, items))
  {
    match items
    case Nil =>
    case Then(earlier, last) =>
      TextIsJoined(w, r, earlier);
      assert W.Encode(w, Content(w, last), last.Parent?).Coded?;
  }

  /**
   * A Reader over a Writer's output, in any windows: when it ends, it ended cleanly and has
   * published exactly the root elements that were written, each at its offset.
   */
  lemma WrittenElementsReadBack(w: W.Native, r: R.Native, items: W.Items, first: nat, final: bool, calls: seq<R.Call>)
    requires R.PrefixStable(r) && Inverse(w, r) && W.ElementsOnly(items) && W.Encodes(w, items)
    requires first <= |W.Text(w, items)| && first <= MAX_INT && (final ==> first == |W.Text(w, items)|)
    requires R.HonestRun(R.Opened(r, W.Text(w, items), first, final), calls, W.Text(w, items))
    ensures var (t, log) := R.Run(R.Opened(r, W.Text(w, items), first, final), calls, W.Text(w, items));
      && log <= Places(Pieces(w, items))
      && t.err == None
      && (t.done ==> log == Places(Pieces(w, items)))
  {
    TextIsJoined(w, r, items);
    JoinedStreamReadsBack(r, Pieces(w, items));
    R.ChunkInvariance(r, W.Text(w, items), first, final, calls);
    R.NoErrorBeforeCleanEnd(r, W.Text(w, items), first, final, calls);
  }

  /** A complete read of a level's text yields its elements, in place, and ends cleanly. */
  ghost predicate LevelReadsBack(w: W.Native, r: R.Native, items: W.Items)
    requires W.ElementsOnly(items)
  {
    && R.Elements(r, W.Text(w, items), 0) == Places(Pieces(w, items))
    && R.Verdict(r, W.Text(w, items), 0) == (End, |W.Text(w, items)|)
  }

  /** The same for the Value of every parent without raw bytes, at every depth. */
  ghost predicate ParentsReadBack(w: W.Native, r: R.Native, items: W.Items) {
    match items
    case Nil => true
    case Then(earlier, last) =>
      && ParentsReadBack(w, r, earlier)
      && (last.Parent? ==>
          && ParentsReadBack(w, r, last.items)
          && (W.ElementsOnly(last.items) ==> LevelReadsBack(w, r, last.items)))
  }

  lemma WrittenLevelReadsBack(w: W.Native, r: R.Native, items: W.Items)
    requires R.PrefixStable(r) && Inverse(w, r) && W.ElementsOnly(items) && W.Encodes(w, items)
    ensures LevelReadsBack(w, r, items)
  {
    TextIsJoined(w, r, items);
    JoinedStreamReadsBack(r, Pieces(w, items));
  }

  lemma {:induction false} WrittenParentsReadBack(w: W.Native, r: R.Native, items: W.Items)
    requires R.PrefixStable(r) && Inverse(w, r) && W.Encodes(w, items)
    ensures ParentsReadBack(w, r, items)
    decreases items
  {
    hide LevelReadsBack, R.PrefixStable, Inverse;
    match items
    case Nil =>
    case Then(earlier, last) =>
      WrittenParentsReadBack(w, r, earlier);
      if last.Parent? {
        assert W.ItemEncodes(w, last);
        WrittenParentsReadBack(w, r, last.items);
        if W.ElementsOnly(last.items) {
          WrittenLevelReadsBack(w, r, last.items);
        }
      }
  }

  /**
   * A finished Writer: a Reader over its output, in any windows, publishes its root elements without
   * error, all of them once it ends; and the Value of every parent written without raw bytes reads
   * back as that parent's elements.
   */
  lemma FinishedWriterReadsBack(writer: W.Writer, r: R.Native, first: nat, final: bool, calls: seq<R.Call>)
    requires writer.Valid() && writer.open == [] && writer.format.Some?
    requires R.PrefixStable(r) && Inverse(writer.format.value, r)
    requires first <= |writer.output| && (final ==> first == |writer.output|)
    requires R.HonestRun(R.Opened(r, writer.output, first, final), calls, writer.output)
    ensures var (t, log) := R.Run(R.Opened(r, writer.output, first, final), calls, writer.output);
      var places := Places(Pieces(writer.format.value, writer.root));
      log <= places && t.err == None && (t.done ==> log == places)
    ensures ParentsReadBack(writer.format.value, r, writer.root)
  {
    WrittenElementsReadBack(writer.format.value, r, writer.root, first, final, calls);
    WrittenParentsReadBack(writer.format.value, r, writer.root);
  }

  // ----- Generator output -----

  function ForestPieces(forest: G.Forest): Stream {
    match forest
    case Empty => Start
    case Grow(earlier, last) =>
      More(ForestPieces(earlier), Piece(Element(last.candidate.tag, last.value), last.wire))
  }

  /** A complete read of these bytes yields the forest's roots, in place, and ends cleanly. */
  ghost predicate RootsReadBack(f: FormatContract.Format, wire: bytes, forest: G.Forest)
    requires f.CanRead()
  {
    && R.Elements(ReaderCalls(f), wire, 0) == Places(ForestPieces(forest))
    && R.Verdict(ReaderCalls(f), wire, 0) == (End, |wire|)
  }

  /** The same for the Value of every constructed element, at every depth. */
  ghost predicate ValuesReadBack(f: FormatContract.Format, forest: G.Forest)
    requires f.CanRead()
  {
    match forest
    case Empty => true
    case Grow(earlier, last) =>
      && ValuesReadBack(f, earlier) && ValuesReadBack(f, last.children)
      && (f.Constructed(last.candidate.tag) ==> RootsReadBack(f, last.value, last.children))
  }

  /** A generated stream reads back as its tree's roots. */
  lemma RootsOfStream(f: FormatContract.Format, o: P.Options, forest: G.Forest, depth: nat)
    requires f.CanRead() && f.CanWrite() && G.ForestOk(f, o, forest, depth) == true
    requires R.PrefixStable(ReaderCalls(f)) == true
    ensures RootsReadBack(f, G.Wire(forest), forest)
  {
    WireIsJoined(f, o, forest, depth);
    JoinedStreamReadsBack(ReaderCalls(f), ForestPieces(forest));
  }

  lemma {:induction false} NestedStreamsReadBack(f: FormatContract.Format, o: P.Options, forest: G.Forest, depth: nat)
    requires f.CanRead() && f.CanWrite() && G.ForestOk(f, o, forest, depth) == true
    requires R.PrefixStable(ReaderCalls(f)) == true
    ensures ValuesReadBack(f, forest)
    decreases forest
  {
    hide R.PrefixStable, RootsReadBack, ReaderCalls, G.Reconstructible;
    match forest
    case Empty =>
    case Grow(earlier, last) =>
      NestedStreamsReadBack(f, o, earlier, depth);
      assert G.NodeOk(f, o, last, depth);
      NestedStreamsReadBack(f, o, last.children, depth + 1);
      RootsOfStream(f, o, last.children, depth + 1);
  }

  /** A generated stream reads back as its tree: its roots, and recursively the Value of every constructed element. */
  lemma GeneratedStreamReadsBack(f: FormatContract.Format, o: P.Options, forest: G.Forest)
    requires f.CanRead() && f.CanWrite() && G.ForestOk(f, o, forest, 0) == true
    requires R.PrefixStable(ReaderCalls(f)) == true
    ensures RootsReadBack(f, G.Wire(forest), forest) && ValuesReadBack(f, forest)
  {
    RootsOfStream(f, o, forest, 0);
    NestedStreamsReadBack(f, o, forest, 0);
  }

  lemma {:induction false} WireIsJoined(f: FormatContract.Format, o: P.Options, forest: G.Forest, depth: nat)
    requires f.CanRead() && f.CanWrite() && G.ForestOk(f, o, forest, depth)
    ensures Joined(ForestPieces(forest)) == G.Wire(forest)
    ensures Readable(ReaderCalls(f), ForestPieces(forest))
  {
    match forest
    case Empty =>
    case Grow(earlier, last) =>
      WireIsJoined(f, o, earlier, depth);
      assert G.NodeOk(f, o, last, depth);
  }

  // ----- The hand-written Format meets every hypothesis above -----

  lemma Le16IsInverse(nested: Option<Tag -> bool>)
    ensures Inverse(WriterCalls(Le16.Composed(nested)), ReaderCalls(Le16.Composed(nested)))
    ensures R.PrefixStable(ReaderCalls(Le16.Composed(nested)))
  {
    Le16.IsPrefixStable(nested);
    var w, r := WriterCalls(Le16.Composed(nested)), ReaderCalls(Le16.Composed(nested));
    forall e: Element, closing: bool | W.Encode(w, e, closing).Coded?
      ensures r(W.Encode(w, e, closing).data, false) == R.Got(e, |W.Encode(w, e, closing).data|)
    {
      Le16.WritesOneWire(nested, e, closing);
      Le16.ReadsItsEncoding(nested, e);
    }
  }

  /** What its encoder leaves in front of any buffer with room enough. */
  lemma Le16Wire(nested: Option<Tag -> bool>, e: Element, before: bytes)
    requires |e.tag.Bytes()| == 1 && |e.value| <= 0xFFFF && 3 + |e.value| <= |before|
    ensures Le16.WriteTag(e.tag).Field? && Le16.WriteLength(|e.value|).Field?
    ensures P.Complete(Le16.Composed(nested), e, |before|)
    ensures P.WireOf(Le16.Composed(nested), e, |before|) == Le16.Header(e) + e.value
    ensures var w := FormatContract.EncodeOutcome(Le16.Composed(nested), e, |before|);
      w.size == 3 + |e.value| && FormatContract.Overlay(before, w.stored)[..w.size] == Le16.Header(e) + e.value
  {
    Le16.Representable(nested, e);
    P.OverlaysToWire(Le16.Composed(nested), e, before);
  }

  /** Its round trips lose nothing: generation never ends in a callback error. */
  lemma Le16IsNotDefective(nested: Option<Tag -> bool>)
    ensures !G.Defective(Le16.Composed(nested))
  {
    forall e: Element, before: bytes
      ensures !G.Mangles(Le16.Composed(nested), e, before)
    {
      Le16.Representable(nested, e);
      if |e.tag.Bytes()| == 1 && |e.value| <= 0xFFFF && 3 + |e.value| <= |before| {
        Le16Wire(nested, e, before);
        Le16.ReadsItsEncoding(nested, e);
      }
    }
  }

  /** It stores every byte of its output, so what is generated over it is one function of the options. */
  lemma Le16IsThorough(nested: Option<Tag -> bool>)
    ensures P.Thorough(Le16.Composed(nested))
  {
    forall e: Element, room: nat | FormatContract.EncodeOutcome(Le16.Composed(nested), e, room).Wrote?
      ensures P.Complete(Le16.Composed(nested), e, room)
    {
      Le16.Representable(nested, e);
      Le16Wire(nested, e, FormatContract.Zeros(room));
    }
  }

  lemma Le16Carries(nested: Option<Tag -> bool>, e: Element, room: nat, maxCase: nat)
    requires |e.tag.Bytes()| == 1 && |e.value| <= 0xFFFF && 3 + |e.value| <= room && 3 + |e.value| <= maxCase
    ensures G.Carried(Le16.Composed(nested), e, room, maxCase)
  {
    Le16.Representable(nested, e);
    Le16Wire(nested, e, FormatContract.Zeros(room));
    Le16Wire(nested, e, FormatContract.Zeros(maxCase));
    Le16.ReadsItsEncoding(nested, e);
  }

  /**
   * With one-byte identifiers, Values that fit and parents that may stay empty, no candidate is ever
   * turned down in the whole case, so generation over this Format always succeeds.
   */
  lemma Le16CasesSucceed(nested: Option<Tag -> bool>, o: P.Options)
    requires G.ConfigStatus(o) == Ok
    requires o.maxValue <= 0xFFFF && o.maxValue + 3 <= o.maxCase
    requires forall c :: c in o.candidates ==>
      && |c.tag.Bytes()| == 1 && c.minValue <= o.maxValue
      && (Le16.Composed(nested).Constructed(c.tag) ==> c.minValue == 0)
    ensures !G.Defective(Le16.Composed(nested)) && !G.Excuse(Le16.Composed(nested), o, o.maxCase)
  {
    Le16IsNotDefective(nested);
    forall c | c in o.candidates
      ensures !G.Unsuited(Le16.Composed(nested), o, c, o.maxCase)
    {
      forall v: bytes | c.minValue <= |v| <= P.Longest(o, c, o.maxCase)
        ensures G.Carried(Le16.Composed(nested), Element(c.tag, v), o.maxCase, o.maxCase)
      {
        Le16Carries(nested, Element(c.tag, v), o.maxCase, o.maxCase);
      }
    }
  }
}
