/** What a reader of the browser's JSON recovers: the elements visited, each at its nesting level. */
module JsonReading {
  import opened Tlv
  import opened JsonText
  import opened JsonTree
  import opened JsonEmitter
  import J = Json
  import E = JsonElement

  // ----- What one element shows -----

  datatype Shown = Shown(
    depth: nat, offset: nat, tag: bytes, length: nat, headerSize: nat, encodedSize: nat, source: Source,
    constructed: bool, name: Option<string>, value: Option<bytes>)

  /** The ranges, from the beginning of the input. */
  datatype Source = Source(header: E.Span, tag: E.Span, length: E.Span, value: E.Span, trailer: E.Span)

  function At(s: E.Span, offset: nat): E.Span {
    E.Span(offset + s.offset, s.size)
  }

  /** Everything but the Value of an element whose children are shown instead. */
  function ShownOf(e: E.Event): Shown {
    Shown(e.depth, e.offset, e.tag, |e.value|, e.headerSize, e.encodedSize,
          Source(At(e.header, e.offset), At(e.tagField, e.offset), At(e.lengthField, e.offset),
                 At(e.valueField, e.offset), At(e.trailer, e.offset)),
          e.constructed, e.name, if E.Nested(e) then None else Some(e.value))
  }

  // ----- Reading one element -----

  /** How much there is to read. */
  function Weight(j: J.Json): nat {
    match j
    case Array(items) => 1 + WeightOfItems(items)
    case Object(members) => 1 + WeightOfMembers(members)
    case _ => 1
  }

  function WeightOfItems(items: J.Items): nat {
    match items
    case NoItems => 0
    case Item(first, others) => 1 + Weight(first) + WeightOfItems(others)
  }

  function WeightOfMembers(members: J.Members): nat {
    match members
    case NoMembers => 0
    case Member(_, value, others) => 1 + Weight(value) + WeightOfMembers(others)
  }

  /** A member read off the front, or a failure. */
  datatype Taken<+T> = Missing | Taken(value: T, rest: J.Members) {
    predicate IsFailure() {
      Missing?
    }

    function PropagateFailure<U>(): Option<U>
      requires Missing?
    {
      None
    }

    function Extract(): (T, J.Members)
      requires !Missing?
    {
      (value, rest)
    }
  }

  function Take(ms: J.Members, name: string): (r: Taken<J.Json>)
    ensures r.Taken? ==> Weight(r.value) + WeightOfMembers(r.rest) < WeightOfMembers(ms)
  {
    if ms.Member? && ms.name == name then Taken(ms.value, ms.others) else Missing
  }

  function TakeNumber(ms: J.Members, name: string): (r: Taken<nat>)
    ensures r.Taken? ==> WeightOfMembers(r.rest) < WeightOfMembers(ms)
  {
    match Take(ms, name)
    case Taken(Number(n), rest) => Taken(n, rest)
    case _ => Missing
  }

  function TakeHex(ms: J.Members, name: string): (r: Taken<bytes>)
    ensures r.Taken? ==> WeightOfMembers(r.rest) < WeightOfMembers(ms)
  {
    match Take(ms, name)
    case Taken(Text(t), rest) => if Unhex(t).Some? then Taken(Unhex(t).value, rest) else Missing
    case _ => Missing
  }

  function TakeObject(ms: J.Members, name: string): (r: Taken<J.Members>)
    ensures r.Taken? ==> WeightOfMembers(r.rest) < WeightOfMembers(ms)
  {
    match Take(ms, name)
    case Taken(Object(members), rest) => Taken(members, rest)
    case _ => Missing
  }

  function TakeTruth(ms: J.Members, name: string): (r: Taken<bool>)
    ensures r.Taken? ==> WeightOfMembers(r.rest) < WeightOfMembers(ms)
  {
    match Take(ms, name)
    case Taken(Truth(holds), rest) => Taken(holds, rest)
    case _ => Missing
  }

  /** The name, if there is one. */
  function TakeName(ms: J.Members): (r: Taken<Option<string>>)
    ensures r.Taken? ==> WeightOfMembers(r.rest) <= WeightOfMembers(ms)
  {
    match Take(ms, "name")
    case Missing => Taken(None, ms)
    case Taken(Text(t), rest) => Taken(Some(t), rest)
    case Taken(_, _) => Missing
  }

  function ReadSpan(ms: J.Members): Option<E.Span> {
    var (offset, m1) :- TakeNumber(ms, "offset");
    var (size, m2) :- TakeNumber(m1, "length");
    if m2.NoMembers? then Some(E.Span(offset, size)) else None
  }

  function TakeSpan(ms: J.Members, name: string): (r: Taken<E.Span>)
    ensures r.Taken? ==> WeightOfMembers(r.rest) < WeightOfMembers(ms)
  {
    match TakeObject(ms, name)
    case Missing => Missing
    case Taken(members, rest) => if ReadSpan(members).Some? then Taken(ReadSpan(members).value, rest) else Missing
  }

  function ReadSource(ms: J.Members): Option<Source> {
    var (header, m1) :- TakeSpan(ms, "header");
    var (tag, m2) :- TakeSpan(m1, "tag");
    var (length, m3) :- TakeSpan(m2, "length");
    var (value, m4) :- TakeSpan(m3, "value");
    var (trailer, m5) :- TakeSpan(m4, "trailer");
    if m5.NoMembers? then Some(Source(header, tag, length, value, trailer)) else None
  }

  /** Either a Value or children. */
  function ReadContent(ms: J.Members): (r: Option<(Option<bytes>, J.Items)>)
    ensures r.Some? ==> WeightOfItems(r.value.1) < WeightOfMembers(ms)
  {
    match ms
    case Member("children", Array(items), NoMembers) => Some((None, items))
    case Member("value", Text(t), NoMembers) => if Unhex(t).Some? then Some((Some(Unhex(t).value), J.NoItems)) else None
    case _ => None
  }

  /** An element and its children. */
  function ReadElement(j: J.Json): (r: Option<(Shown, J.Items)>)
    ensures r.Some? ==> WeightOfItems(r.value.1) < Weight(j)
  {
    if !j.Object? then None
    else
      var (offset, m1) :- TakeNumber(j.members, "offset");
      var (depth, m2) :- TakeNumber(m1, "depth");
      var (tag, m3) :- TakeHex(m2, "tag");
      var (length, m4) :- TakeNumber(m3, "length");
      var (headerSize, m5) :- TakeNumber(m4, "headerSize");
      var (encodedSize, m6) :- TakeNumber(m5, "encodedSize");
      var (source, m7) :- TakeObject(m6, "source");
      var (constructed, m8) :- TakeTruth(m7, "constructed");
      var (name, m9) :- TakeName(m8);
      match (ReadSource(source), ReadContent(m9))
      case (Some(s), Some((value, kids))) =>
        Some((Shown(depth, offset, tag, length, headerSize, encodedSize, s, constructed, name, value), kids))
      case _ => None
  }

  /** All elements of one level in preorder, each with the depth its nesting has. */
  function ReadLevel(items: J.Items, depth: nat): Option<seq<Shown>>
    decreases WeightOfItems(items)
  {
    match items
    case NoItems => Some([])
    case Item(first, others) =>
      match ReadElement(first)
      case None => None
      case Some((shown, kids)) =>
        match (ReadLevel(kids, depth + 1), ReadLevel(others, depth))
        case (Some(below), Some(behind)) => if shown.depth == depth then Some([shown] + below + behind) else None
        case _ => None
  }

  // ----- An element reads back -----

  lemma SpanReadsBack(name: string, s: E.Span, offset: nat, ms: J.Members)
    ensures TakeSpan(J.Member(name, E.SpanJson(s, offset), ms), name) == Taken(At(s, offset), ms)
  {
  }

  lemma SourceReadsBack(e: E.Event)
    ensures ReadSource(E.SourceJson(e)) == Some(ShownOf(e).source)
  {
    hide E.SpanJson, TakeSpan;
    var m5 := J.Member("trailer", E.SpanJson(e.trailer, e.offset), J.NoMembers);
    var m4 := J.Member("value", E.SpanJson(e.valueField, e.offset), m5);
    var m3 := J.Member("length", E.SpanJson(e.lengthField, e.offset), m4);
    var m2 := J.Member("tag", E.SpanJson(e.tagField, e.offset), m3);
    SpanReadsBack("trailer", e.trailer, e.offset, J.NoMembers);
    SpanReadsBack("value", e.valueField, e.offset, m5);
    SpanReadsBack("length", e.lengthField, e.offset, m4);
    SpanReadsBack("tag", e.tagField, e.offset, m3);
    SpanReadsBack("header", e.header, e.offset, m2);
  }

  lemma ContentReadsBack(e: E.Event, kids: J.Items)
    requires !E.Nested(e) ==> kids.NoItems?
    ensures ReadContent(E.ContentJson(e, kids)) == Some((ShownOf(e).value, kids))
  {
    hide Hex, Unhex;
    UnhexInvertsHex(e.value);
  }

  lemma NameReadsBack(e: E.Event, kids: J.Items)
    ensures TakeName(E.NameJson(e, kids)) == Taken(e.name, E.ContentJson(e, kids))
  {
    hide Hex, WeightOfMembers;
    assert "children" != "name" && "value" != "name";
  }

  lemma ElementReadsBack(e: E.Event, kids: J.Items)
    requires !E.Nested(e) ==> kids.NoItems?
    ensures ReadElement(E.ElementJson(e, kids)) == Some((ShownOf(e), kids))
  {
    hide ReadSource, ReadContent, TakeName, E.SourceJson, E.ContentJson, E.NameJson;
    hide Hex, Unhex, Weight, WeightOfMembers;
    UnhexInvertsHex(e.tag);
    SourceReadsBack(e);
    ContentReadsBack(e, kids);
    NameReadsBack(e, kids);
  }

  // ----- A forest reads back -----

  /** The object's text, whatever children it gets, spells its element. */
  ghost predicate Spells(o: Object) {
    && o.nested == E.Nested(o.event)
    && forall kids: J.Items :: (o.nested || kids.NoItems?) ==>
         o.start + E.Rest(o.event, kids) == J.Spell(E.ElementJson(o.event, kids))
  }

  lemma DescribedSpells(e: E.Event)
    ensures Spells(ObjectOf(Describe(e)))
  {
    hide E.Parts, J.Spell, E.ElementJson, E.Rest;
    forall kids: J.Items | E.Nested(e) || kids.NoItems?
      ensures Rendered(E.Parts(e)) + E.Rest(e, kids) == J.Spell(E.ElementJson(e, kids))
    {
      E.ElementSpelled(e, kids);
    }
  }

  /** Every object spells its element, stands on its element's level, and has children only if it nests. */
  ghost predicate Sound(f: Forest, level: nat) {
    f.Grow? ==>
      && Sound(f.earlier, level) && Sound(f.children, level + 1)
      && Spells(f.last) && f.last.event.depth == level && (f.children.Grow? ==> f.last.nested)
  }

  lemma {:induction false} InsertKeepsSound(f: Forest, o: Object, d: nat, level: nat)
    requires Sound(f, level) && Fits(f, d) && Spells(o) && o.event.depth == level + d
    ensures Sound(Insert(f, o, d), level)
  {
    hide Spells;
    if d > 0 {
      InsertKeepsSound(f.children, o, d - 1, level + 1);
    }
  }

  lemma {:induction false} BuildIsSound(events: seq<E.Event>, n: nat)
    requires Preorder(Arrivals(events)) && n <= |events|
    ensures Sound(Build(Arrivals(events), n), 0)
  {
    hide Spells, E.Parts;
    if n > 0 {
      BuildIsSound(events, n - 1);
      DescribedSpells(events[n - 1]);
      NextFits(Arrivals(events), n - 1);
      InsertKeepsSound(Build(Arrivals(events), n - 1), ObjectOf(Describe(events[n - 1])), events[n - 1].depth, 0);
    }
  }

  /** The JSON values of a level's objects, in front of others. */
  function ItemsOf(f: Forest, behind: J.Items): J.Items {
    match f
    case Nil => behind
    case Grow(earlier, o, children) =>
      ItemsOf(earlier, J.Item(E.ElementJson(o.event, ItemsOf(children, J.NoItems)), behind))
  }

  /** The recursive printer spells those values. */
  lemma {:induction false} PrintSpells(f: Forest, level: nat, behind: J.Items)
    requires Sound(f, level)
    ensures J.SpellItems(ItemsOf(f, behind)) == Print(f) + if f.Nil? then J.SpellItems(behind) else J.MoreItems(behind)
    decreases f
  {
    hide Spells, J.Spell, J.SpellItems, J.MoreItems, E.ElementJson, Closer;
    Nothing();
    if f.Grow? {
      var o, kids := f.last, ItemsOf(f.children, J.NoItems);
      var element := E.ElementJson(o.event, kids);
      PrintSpells(f.children, level + 1, J.NoItems);
      PrintSpells(f.earlier, level, J.Item(element, behind));
      ObjectSpelled(o, kids, Print(f.children));
      OneMore(Print(f.earlier), Comma(f.earlier), o.start, Print(f.children), Closer(o), J.MoreItems(behind));
      FirstItem(element, behind);
    }
  }

  lemma ObjectSpelled(o: Object, kids: J.Items, children: string)
    requires Spells(o) && (o.nested || kids.NoItems?)
    requires J.SpellItems(kids) == children + "" || J.SpellItems(kids) == children
    ensures J.Spell(E.ElementJson(o.event, kids)) == o.start + (children + Closer(o))
  {
    assert o.start + E.Rest(o.event, kids) == J.Spell(E.ElementJson(o.event, kids));
    assert children + "" == children;
  }

  lemma Nothing()
    ensures J.SpellItems(J.NoItems) == "" && J.MoreItems(J.NoItems) == ""
  {
  }

  lemma FirstItem(j: J.Json, behind: J.Items)
    ensures J.SpellItems(J.Item(j, behind)) == J.Spell(j) + J.MoreItems(behind)
    ensures J.MoreItems(J.Item(j, behind)) == "," + (J.Spell(j) + J.MoreItems(behind))
  {
  }

  lemma OneMore(earlier: string, comma: string, start: string, children: string, closer: string, behind: string)
    ensures earlier + (comma + ((start + (children + closer)) + behind))
         == (earlier + comma + (start + children + closer)) + behind
  {
  }

  /** What a forest shows, in preorder. */
  function ShownIn(f: Forest): seq<Shown> {
    match f
    case Nil => []
    case Grow(earlier, o, children) => ShownIn(earlier) + [ShownOf(o.event)] + ShownIn(children)
  }

  lemma {:induction false} ShownInsert(f: Forest, o: Object, d: nat)
    requires Fits(f, d)
    ensures ShownIn(Insert(f, o, d)) == ShownIn(f) + [ShownOf(o.event)]
  {
    hide ShownOf;
    if d > 0 {
      ShownInsert(f.children, o, d - 1);
    }
  }

  function ShownUpTo(events: seq<E.Event>, n: nat): seq<Shown>
    requires n <= |events|
  {
    if n == 0 then [] else ShownUpTo(events, n - 1) + [ShownOf(events[n - 1])]
  }

  /** What is shown of each element visited: all but the Value of a constructed element that is not empty. */
  lemma {:induction false} ShowsExactly(events: seq<E.Event>, n: nat, i: nat)
    requires i < n <= |events|
    ensures |ShownUpTo(events, n)| == n
    ensures var shown, e := ShownUpTo(events, n)[i], events[i];
      && shown.depth == e.depth && shown.offset == e.offset && shown.tag == e.tag && shown.length == |e.value|
      && shown.headerSize == e.headerSize && shown.encodedSize == e.encodedSize
      && shown.constructed == e.constructed && shown.name == e.name
      && shown.source.value.offset == e.offset + e.valueField.offset && shown.source.value.size == e.valueField.size
      && shown.source.tag.offset == e.offset + e.tagField.offset && shown.source.tag.size == e.tagField.size
      && shown.source.length.offset == e.offset + e.lengthField.offset && shown.source.length.size == e.lengthField.size
      && shown.source.header.offset == e.offset + e.header.offset && shown.source.header.size == e.header.size
      && shown.source.trailer.offset == e.offset + e.trailer.offset && shown.source.trailer.size == e.trailer.size
      && shown.value == if e.constructed && |e.value| > 0 then None else Some(e.value)
  {
    ShownLength(events, n - 1);
    if i < n - 1 {
      ShowsExactly(events, n - 1, i);
    }
  }

  lemma {:induction false} ShownLength(events: seq<E.Event>, n: nat)
    requires n <= |events|
    ensures |ShownUpTo(events, n)| == n
  {
    if n > 0 {
      ShownLength(events, n - 1);
    }
  }

  lemma {:induction false} BuildShows(events: seq<E.Event>, n: nat)
    requires Preorder(Arrivals(events)) && n <= |events|
    ensures ShownIn(Build(Arrivals(events), n)) == ShownUpTo(events, n)
  {
    hide ShownOf, E.Parts;
    if n > 0 {
      BuildShows(events, n - 1);
      NextFits(Arrivals(events), n - 1);
      ShownInsert(Build(Arrivals(events), n - 1), ObjectOf(Describe(events[n - 1])), events[n - 1].depth);
    }
  }

  lemma SpellsFacts(o: Object)
    requires Spells(o)
    ensures o.nested == E.Nested(o.event) && ShownOf(o.event).depth == o.event.depth
  {
  }

  lemma NothingReadsBack(level: nat)
    ensures ReadLevel(J.NoItems, level) == Some([])
  {
  }

  lemma ItemReadsBack(
    first: J.Json, shown: Shown, kids: J.Items, below: seq<Shown>, behind: J.Items, more: seq<Shown>, level: nat)
    requires ReadElement(first) == Some((shown, kids)) && shown.depth == level
    requires ReadLevel(kids, level + 1) == Some(below) && ReadLevel(behind, level) == Some(more)
    ensures ReadLevel(J.Item(first, behind), level) == Some([shown] + below + more)
  {
    hide ReadElement;
  }

  lemma {:induction false} LevelReadsBack(f: Forest, level: nat, behind: J.Items, more: seq<Shown>)
    requires Sound(f, level) && ReadLevel(behind, level) == Some(more)
    ensures ReadLevel(ItemsOf(f, behind), level) == Some(ShownIn(f) + more)
    decreases f
  {
    hide Spells, ShownOf, E.ElementJson, ReadElement, E.Nested, ReadLevel;
    NothingReadsBack(level + 1);
    if f.Nil? {
      assert [] + more == more;
    } else {
      var o, kids := f.last, ItemsOf(f.children, J.NoItems);
      LevelReadsBack(f.children, level + 1, J.NoItems, []);
      assert ShownIn(f.children) + [] == ShownIn(f.children);
      SpellsFacts(o);
      assert !o.nested ==> f.children.Nil? && kids.NoItems?;
      ElementReadsBack(o.event, kids);
      ItemReadsBack(E.ElementJson(o.event, kids), ShownOf(o.event), kids, ShownIn(f.children), behind, more, level);
      var here := [ShownOf(o.event)] + ShownIn(f.children) + more;
      LevelReadsBack(f.earlier, level, J.Item(E.ElementJson(o.event, kids), behind), here);
      assert ShownIn(f.earlier) + here == ShownIn(f) + more;
    }
  }

  /**
   * The array of a visit is JSON, whatever stands behind it, and a reader recovers every element
   * visited: in order, each with all it shows, on the level of its depth.
   */
  lemma VisitReadsBack(events: seq<E.Event>, n: nat, rest: string)
    requires Preorder(Arrivals(events)) && n <= |events| && J.Ends(rest)
    ensures var text := "[" + Print(Build(Arrivals(events), n)) + "]";
      var read := J.Parse(text + rest);
      && read.Read? && read.rest == rest && read.value.Array?
      && ReadLevel(read.value.items, 0) == Some(ShownUpTo(events, n))
  {
    hide ShownOf, E.Parts, Spells, ItemsOf, Sound, ShownIn, Build, Print, J.SpellItems, J.Parse;
    var f := Build(Arrivals(events), n);
    var items := ItemsOf(f, J.NoItems);
    BuildIsSound(events, n);
    BuildShows(events, n);
    PrintSpells(f, 0, J.NoItems);
    LevelReadsBack(f, 0, J.NoItems, []);
    assert ShownIn(f) + [] == ShownIn(f);
    assert Print(f) + "" == Print(f);
    Nothing();
    J.ParseInvertsSpelling(J.Array(items), rest);
  }
}
