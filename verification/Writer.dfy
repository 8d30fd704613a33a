/** The Go binding's staged Writer with fixed or growing output (bindings/go/writer.go). */
module Writer {
  import opened Tlv

  // ----- Native calls -----

  datatype Sized = Size(n: nat) | NoSize(code: Status)

  datatype Coded = Coded(data: bytes) | NoBytes(code: Status)

  /** Native sizing, opening and encoding; encoders fill a fresh buffer of the measured size. */
  datatype Calls = Calls(
    measure: Element -> Sized, begin: Tag -> Status,
    write: (Element, nat) -> Coded, end: (Element, nat) -> Coded)

  ghost predicate Sound(calls: Calls) {
    && (forall e, n :: calls.write(e, n).Coded? ==> |calls.write(e, n).data| == n)
    && (forall e, n :: calls.end(e, n).Coded? ==> |calls.end(e, n).data| == n)
    && (forall e :: calls.measure(e).NoSize? ==> calls.measure(e).code != Ok)
    && (forall e, n :: calls.write(e, n).NoBytes? ==> calls.write(e, n).code != Ok)
    && (forall e, n :: calls.end(e, n).NoBytes? ==> calls.end(e, n).code != Ok)
  }

  type Native = calls: Calls | Sound(calls)
    witness Calls(
      e => NoSize(ErrUnsupported), t => ErrUnsupported,
      (e, n) => NoBytes(ErrUnsupported), (e, n) => NoBytes(ErrUnsupported))

  /** Encode one element at its measured size; a closing parent goes through the tree writer. */
  function Encode(f: Native, e: Element, closing: bool): Coded {
    match f.measure(e)
    case NoSize(code) => NoBytes(code)
    case Size(n) => if closing then f.end(e, n) else f.write(e, n)
  }

  // ----- The forest a caller describes -----

  datatype Item = Leaf(element: Element) | Raw(data: bytes) | Parent(tag: Tag, items: Items)

  datatype Items = Nil | Then(earlier: Items, last: Item)

  /** Recursive bottom-up encoding: a parent's Value is the encoding of its items. */
  function Text(f: Native, items: Items): bytes {
    match items
    case Nil => []
    case Then(earlier, last) => Text(f, earlier) + ItemText(f, last)
  }

  function ItemText(f: Native, item: Item): bytes {
    match item
    case Raw(data) => data
    case Leaf(e) => var c := Encode(f, e, false); if c.Coded? then c.data else []
    case Parent(tag, items) =>
      var c := Encode(f, Element(tag, Text(f, items)), true); if c.Coded? then c.data else []
  }

  /** Every element of the forest, at every depth, was measured and encoded without error. */
  predicate Encodes(f: Native, items: Items) {
    match items
    case Nil => true
    case Then(earlier, last) => Encodes(f, earlier) && ItemEncodes(f, last)
  }

  predicate ItemEncodes(f: Native, item: Item) {
    match item
    case Raw(_) => true
    case Leaf(e) => Encode(f, e, false).Coded?
    case Parent(tag, items) => Encodes(f, items) && Encode(f, Element(tag, Text(f, items)), true).Coded?
  }

  /** No raw bytes on this level. */
  predicate ElementsOnly(items: Items) {
    items.Nil? || (!items.last.Raw? && ElementsOnly(items.earlier))
  }

  // ----- The machine -----

  datatype Frame = Frame(tag: Tag, value: bytes)

  datatype WriteError = StatusError(code: Status) | CapacityError(required: int, available: int)

  /** The Writer's fields as one value; capacity counts only while fixed. */
  datatype Stage = Stage(format: Option<Native>, output: bytes, capacity: nat, fixed: bool, frames: seq<Frame>)

  /** The level an element is appended to: the innermost parent that stays open, or the root. */
  function Level(s: Stage, closing: bool): int {
    |s.frames| - if closing then 1 else 0
  }

  function Target(s: Stage, closing: bool): bytes
    requires closing ==> s.frames != []
  {
    if Level(s, closing) > 0 then s.frames[Level(s, closing) - 1].value else s.output
  }

  /** Why appending an element fails, if it does, in the order the checks are made. */
  function AppendError(s: Stage, e: Element, closing: bool): Option<WriteError>
    requires closing ==> s.frames != []
  {
    if s.format.None? then Some(StatusError(ErrInvalidArg))
    else
      match s.format.value.measure(e)
      case NoSize(code) => Some(StatusError(code))
      case Size(n) =>
        if |Target(s, closing)| + n > MAX_INT then Some(StatusError(ErrOverflow))
        else if Level(s, closing) == 0 && s.fixed && |s.output| + n > s.capacity then
          Some(CapacityError(|s.output| + n, s.capacity))
        else
          match Encode(s.format.value, e, closing)
          case NoBytes(code) => Some(StatusError(code))
          case Coded(_) => None
  }

  function Appended(s: Stage, e: Element, closing: bool): Stage
    requires (closing ==> s.frames != []) && AppendError(s, e, closing) == None
  {
    var text := Target(s, closing) + Encode(s.format.value, e, closing).data;
    var level := Level(s, closing);
    if level > 0 then s.(frames := s.frames[level - 1 := s.frames[level - 1].(value := text)])
    else s.(output := text)
  }

  /** One open parent and the items staged in it. */
  datatype Open = Open(tag: Tag, items: Items)

  class Writer {
    const format: Option<Native>
    var output: bytes
    var capacity: nat
    var fixed: bool
    var frames: seq<Frame>
    ghost var root: Items
    ghost var open: seq<Open>

    ghost function Now(): Stage
      reads this
    {
      Stage(format, output, capacity, fixed, frames)
    }

    /** Output and frames are the recursive encoding of the forest described so far; raw bytes need an open parent. */
    ghost predicate Valid()
      reads this
    {
      Describes(Now(), root, open)
    }

    static ghost predicate Describes(s: Stage, root: Items, open: seq<Open>) {
      && |s.output| <= MAX_INT && (s.fixed ==> |s.output| <= s.capacity <= MAX_INT)
      && |s.frames| == |open| && ElementsOnly(root)
      && (s.format.None? ==> root == Nil && open == [] && s.output == [])
      && (s.format.Some? ==>
          && Encodes(s.format.value, root) && s.output == Text(s.format.value, root)
          && forall i :: 0 <= i < |open| ==> FrameOk(s.format.value, s.frames[i], open[i]))
    }

    static ghost predicate FrameOk(f: Native, frame: Frame, open: Open) {
      && frame.tag == open.tag && |frame.value| <= MAX_INT
      && Encodes(f, open.items) && frame.value == Text(f, open.items)
    }

    /** Appending an item's text to a level keeps the level the text of its items. */
    static lemma FrameGrows(f: Native, frame: Frame, open: Open, item: Item)
      requires FrameOk(f, frame, open) && ItemEncodes(f, item) && |frame.value| + |ItemText(f, item)| <= MAX_INT
      ensures FrameOk(f, Frame(frame.tag, frame.value + ItemText(f, item)), Open(open.tag, Then(open.items, item)))
    {
    }

    /** A closing parent's encoding is the text of the item it becomes. */
    static lemma ParentEncodes(f: Native, frame: Frame, open: Open)
      requires FrameOk(f, frame, open) && Encode(f, Element(frame.tag, frame.value), true).Coded?
      ensures ItemEncodes(f, Parent(open.tag, open.items))
      ensures ItemText(f, Parent(open.tag, open.items)) == Encode(f, Element(frame.tag, frame.value), true).data
    {
    }

    static lemma Bounded(s: Stage, root: Items, open: seq<Open>)
      requires Describes(s, root, open)
      ensures |s.output| <= MAX_INT && (s.fixed ==> |s.output| <= s.capacity)
      ensures |s.frames| == |open| && (s.format.None? ==> open == [])
      ensures forall i :: 0 <= i < |open| ==> s.frames[i].tag == open[i].tag && |s.frames[i].value| <= MAX_INT
    {
    }

    static lemma LevelGrows(f: Native, items: Items, item: Item)
      requires Encodes(f, items) && ItemEncodes(f, item)
      ensures Encodes(f, Then(items, item)) && Text(f, Then(items, item)) == Text(f, items) + ItemText(f, item)
      ensures ElementsOnly(items) && !item.Raw? ==> ElementsOnly(Then(items, item))
    {
    }

    /** NewWriter. */
    constructor (format: Option<Native>)
      ensures Valid() && root == Nil && open == []
      ensures Now() == Stage(format, [], 0, false, [])
    {
      this.format, output, capacity, fixed, frames := format, [], 0, false, [];
      root, open := Nil, [];
    }

    /** NewWriterBuffer: the whole buffer is capacity, starting empty. */
    constructor Buffer(format: Option<Native>, size: nat)
      requires size <= MAX_INT
      ensures Valid() && root == Nil && open == []
      ensures Now() == Stage(format, [], size, true, [])
    {
      this.format, output, capacity, fixed, frames := format, [], size, true, [];
      root, open := Nil, [];
    }

    method Measure(e: Element) returns (n: nat, err: Option<WriteError>)
      ensures format.None? ==> err == Some(StatusError(ErrInvalidArg))
      ensures format.Some? ==>
        match format.value.measure(e)
        case Size(size) => n == size && err == None
        case NoSize(code) => err == Some(StatusError(code))
    {
      if format.None? {
        return 0, Some(StatusError(ErrInvalidArg));
      }
      match format.value.measure(e) {
        case Size(size) => return size, None;
        case NoSize(code) => return 0, Some(StatusError(code));
      }
    }

    /** Encode into independent storage, then publish. */
    method AppendElement(e: Element, closing: bool) returns (err: Option<WriteError>)
      requires closing ==> frames != []
      requires |output| <= MAX_INT && (fixed ==> |output| <= capacity)
      requires forall i :: 0 <= i < |frames| ==> |frames[i].value| <= MAX_INT
      modifies this`output, this`frames
      ensures err == AppendError(old(Now()), e, closing)
      ensures Now() == if err == None then Appended(old(Now()), e, closing) else old(Now())
      ensures format.Some? && format.value.measure(e).Size? ==>
        var n := format.value.measure(e).n;
        var level := |frames| - if closing then 1 else 0;
        var before := if level == 0 then old(output) else old(frames)[level - 1].value;
        var coded := if closing then format.value.end(e, n) else format.value.write(e, n);
        var fits := !(level == 0 && fixed && |before| + n > capacity);
        && (|before| + n > MAX_INT ==> err == Some(StatusError(ErrOverflow)))
        && (|before| + n <= MAX_INT ==>
            && (err == Some(CapacityError(|before| + n, capacity)) <==> !fits)
            && (err == None <==> fits && coded.Coded?)
            && (fits && coded.NoBytes? ==> err == Some(StatusError(coded.code)))
            && (err == None ==>
                before + coded.data == if level == 0 then output else frames[level - 1].value))
    {
      var n;
      n, err := Measure(e);
      if err.Some? {
        return;
      }
      var target := output;
      var depth := |frames|;
      if closing {
        depth := depth - 1;
      }
      if depth > 0 {
        target := frames[depth - 1].value;
      }
      if n > MAX_INT - |target| {
        return Some(StatusError(ErrOverflow));
      }
      if depth == 0 && fixed && n > capacity - |output| {
        return Some(CapacityError(|output| + n, capacity));
      }
      var encoded := if closing then format.value.end(e, n) else format.value.write(e, n);
      if encoded.NoBytes? {
        return Some(StatusError(encoded.code));
      }
      target := target + encoded.data;
      if depth > 0 {
        frames := frames[depth - 1 := frames[depth - 1].(value := target)];
      } else {
        output := target;
      }
      return None;
    }

    method WriteElement(tag: Tag, value: bytes) returns (err: Option<WriteError>)
      requires Valid()
      modifies this`output, this`frames, this`root, this`open
      ensures Valid()
      ensures err == AppendError(old(Now()), Element(tag, value), false)
      ensures format.Some? && format.value.measure(Element(tag, value)).Size? && old(open) == [] ==>
        var required := |old(output)| + format.value.measure(Element(tag, value)).n;
        required <= MAX_INT ==>
          (err == Some(CapacityError(required, capacity)) <==> fixed && required > capacity)
      ensures err.Some? ==> Now() == old(Now()) && root == old(root) && open == old(open)
      ensures err.None? ==>
        && (old(open) == [] ==> root == Then(old(root), Leaf(Element(tag, value))) && open == [])
        && (old(open) != [] ==> root == old(root) && open == Placed(old(open), Leaf(Element(tag, value))))
    {
      hide AppendError, Appended, Encodes, Text, ItemText, ElementsOnly, Placed;
      ghost var before, e := Now(), Element(tag, value);
      err := AppendElement(Element(tag, value), false);
      if err == None {
        LeafPlaced(before, root, open, e);
        if open == [] {
          root := Then(root, Leaf(e));
        } else {
          open := Placed(open, Leaf(e));
        }
      }
    }

    static lemma LeafPlaced(s: Stage, root: Items, open: seq<Open>, e: Element)
      requires Describes(s, root, open) && AppendError(s, e, false) == None
      ensures if open == [] then Describes(Appended(s, e, false), Then(root, Leaf(e)), [])
              else Describes(Appended(s, e, false), root, Placed(open, Leaf(e)))
    {
      if open == [] {
        LevelGrows(s.format.value, root, Leaf(e));
      } else {
        FrameGrows(s.format.value, s.frames[|open| - 1], open[|open| - 1], Leaf(e));
      }
      hide Text, Encodes, ElementsOnly;
    }

    /** The innermost open parent gains one item. */
    static ghost function Placed(open: seq<Open>, item: Item): seq<Open>
      requires open != []
    {
      open[|open| - 1 := Open(open[|open| - 1].tag, Then(open[|open| - 1].items, item))]
    }

    method Begin(tag: Tag) returns (err: Option<WriteError>)
      requires Valid()
      modifies this`frames, this`open
      ensures Valid() && output == old(output)
      ensures err == if format.None? then Some(StatusError(ErrInvalidArg))
                     else if format.value.begin(tag) != Ok then Some(StatusError(format.value.begin(tag))) else None
      ensures err.Some? ==> Now() == old(Now()) && open == old(open)
      ensures err.None? ==> frames == old(frames) + [Frame(tag, [])] && open == old(open) + [Open(tag, Nil)]
    {
      if format.None? {
        return Some(StatusError(ErrInvalidArg));
      }
      var code := format.value.begin(tag);
      if code != Ok {
        return Some(StatusError(code));
      }
      frames := frames + [Frame(tag, [])];
      open := open + [Open(tag, Nil)];
      return None;
    }

    method Value(value: bytes) returns (err: Option<WriteError>)
      requires Valid()
      modifies this`frames, this`open
      ensures Valid() && output == old(output)
      ensures err == if format.None? || old(frames) == [] then Some(StatusError(ErrInvalidArg))
                     else if |value| + |old(frames)[|old(frames)| - 1].value| > MAX_INT then
                       Some(StatusError(ErrOverflow))
                     else None
      ensures err.Some? ==> Now() == old(Now()) && open == old(open)
      ensures err.None? ==> open == Placed(old(open), Raw(value))
    {
      if format.None? || |frames| == 0 {
        return Some(StatusError(ErrInvalidArg));
      }
      var f := frames[|frames| - 1];
      if |value| > MAX_INT - |f.value| {
        return Some(StatusError(ErrOverflow));
      }
      frames := frames[|frames| - 1 := f.(value := f.value + value)];
      FrameGrows(format.value, f, open[|open| - 1], Raw(value));
      open := Placed(open, Raw(value));
      return None;
    }

    /** The element an open parent becomes. */
    static function Whole(frame: Frame): Element {
      Element(frame.tag, frame.value)
    }

    method End() returns (err: Option<WriteError>)
      requires Valid()
      modifies this`output, this`frames, this`root, this`open
      ensures Valid()
      ensures err == if old(frames) == [] then Some(StatusError(ErrInvalidArg)) else Closing(old(Now()))
      ensures format.Some? && |old(frames)| == 1 && format.value.measure(Whole(old(frames)[0])).Size? ==>
        var n := format.value.measure(Whole(old(frames)[0])).n;
        var required := |old(output)| + n;
        required <= MAX_INT ==>
          && (err == Some(CapacityError(required, capacity)) <==> fixed && required > capacity)
          && (!(fixed && required > capacity) ==>
              (err == None <==> format.value.end(Whole(old(frames)[0]), n).Coded?))
      ensures err.Some? ==> Now() == old(Now()) && root == old(root) && open == old(open)
      ensures err.None? ==>
        var k := |old(open)| - 1;
        var parent := Parent(old(open)[k].tag, old(open)[k].items);
        && (k == 0 ==> root == Then(old(root), parent) && open == [])
        && (k > 0 ==> root == old(root) && open == Placed(old(open)[..k], parent))
    {
      hide AppendError, Describes, Placed;
      Bounded(Now(), root, open);
      if |frames| == 0 {
        return Some(StatusError(ErrInvalidArg));
      }
      ghost var before := Now();
      var f := frames[|frames| - 1];
      err := AppendElement(Element(f.tag, f.value), true);
      if err.Some? {
        return;
      }
      frames := frames[..|frames| - 1];
      assert Now() == Closed(before) && Closing(before) == None;
      hide Closed;
      ghost var k := |open| - 1;
      ghost var parent := Parent(open[k].tag, open[k].items);
      if k == 0 {
        ClosesToRoot(before, root, open);
        root, open := Then(root, parent), [];
      } else {
        ClosesToParent(before, root, open);
        open := Placed(open[..k], parent);
      }
    }

    /** The stage once the innermost parent is encoded and gone. */
    static function Closed(s: Stage): Stage
      requires s.frames != [] && Closing(s) == None
    {
      var f := s.frames[|s.frames| - 1];
      var appended := Appended(s, Element(f.tag, f.value), true);
      appended.(frames := appended.frames[..|s.frames| - 1])
    }

    static lemma ClosesToRoot(s: Stage, root: Items, open: seq<Open>)
      requires Describes(s, root, open) && |open| == 1 && Closing(s) == None
      ensures Describes(Closed(s), Then(root, Parent(open[0].tag, open[0].items)), [])
    {
      ParentEncodes(s.format.value, s.frames[0], open[0]);
      hide Text, ItemText, Encodes, ItemEncodes, ElementsOnly;
      LevelGrows(s.format.value, root, Parent(open[0].tag, open[0].items));
    }

    static lemma ClosesToParent(s: Stage, root: Items, open: seq<Open>)
      requires Describes(s, root, open) && |open| > 1 && Closing(s) == None
      ensures var k := |open| - 1;
        Describes(Closed(s), root, Placed(open[..k], Parent(open[k].tag, open[k].items)))
    {
      var k := |open| - 1;
      ParentEncodes(s.format.value, s.frames[k], open[k]);
      hide Text, ItemText, Encodes, ItemEncodes, ElementsOnly;
      FrameGrows(s.format.value, s.frames[k - 1], open[k - 1], Parent(open[k].tag, open[k].items));
    }

    static function Closing(s: Stage): Option<WriteError>
      requires s.frames != []
    {
      var f := s.frames[|s.frames| - 1];
      AppendError(s, Element(f.tag, f.value), true)
    }

    method Finish() returns (err: Option<WriteError>)
      requires Valid()
      ensures err == None <==> format.Some? && open == []
      ensures err == None ==> output == Text(format.value, root)
      ensures err != None ==> err == Some(StatusError(ErrInvalidArg))
    {
      if format.None? || |frames| != 0 {
        return Some(StatusError(ErrInvalidArg));
      }
      return None;
    }

    /** Copy the finished prefix into caller storage of the given size and stop growing. */
    method SetBuffer(size: nat) returns (err: Option<WriteError>)
      requires Valid() && size <= MAX_INT
      modifies this`capacity, this`fixed
      ensures Valid()
      ensures err == if format.None? then Some(StatusError(ErrInvalidArg))
                     else if size < |output| then Some(CapacityError(|output|, size)) else None
      ensures Now() == if err == None then old(Now()).(capacity := size, fixed := true) else old(Now())
    {
      if format.None? {
        return Some(StatusError(ErrInvalidArg));
      }
      if size < |output| {
        return Some(CapacityError(|output|, size));
      }
      capacity, fixed := size, true;
      return None;
    }
  }

  /** A successful append leaves its level exactly as many bytes longer as Measure answers. */
  lemma MeasureForetells(s: Stage, e: Element, closing: bool)
    requires (closing ==> s.frames != []) && AppendError(s, e, closing) == None
    ensures var measured := s.format.value.measure(e);
      var before, after := Target(s, closing), Target(Appended(s, e, closing), closing);
      measured.Size? && before <= after && |after| == |before| + measured.n
  {
    if Level(s, closing) > 0 {
      assert Target(Appended(s, e, closing), closing) == Target(s, closing) + Encode(s.format.value, e, closing).data;
    }
  }

  /**
   * Retrying after a capacity error: a buffer of at least the reported size, and no smaller
   * one, lets the same element through to exactly what an unbounded Writer would hold.
   */
  lemma CapacityRetry(s: Stage, e: Element, closing: bool, size: nat)
    requires (closing ==> s.frames != []) && s.format.Some? && |s.output| <= size
    requires AppendError(s, e, closing).Some? && AppendError(s, e, closing).value.CapacityError?
    ensures var required := AppendError(s, e, closing).value.required;
      var larger := s.(capacity := size, fixed := true);
      && required > s.capacity
      && (size < required ==> AppendError(larger, e, closing) == Some(CapacityError(required, size)))
      && (size >= required ==> AppendError(larger, e, closing) == AppendError(s.(fixed := false), e, closing))
      && (AppendError(larger, e, closing) == None ==>
          && Appended(larger, e, closing).output == Appended(s.(fixed := false), e, closing).output
          && |Appended(larger, e, closing).output| == required)
  {
  }
}
