/**
 * The text of one element in the browser's JSON (bindings/wasm/src/opentlv_wasm.c), the JSON value it
 * spells, and a reader that recovers the element.
 */
module JsonElement {
  import opened Tlv
  import opened Decimals
  import opened JsonText
  import J = Json

  datatype Span = Span(offset: nat, size: nat)

  datatype Event = Event(
    depth: nat, offset: nat, tag: bytes, headerSize: nat, encodedSize: nat,
    header: Span, tagField: Span, lengthField: Span, valueField: Span, trailer: Span,
    constructed: bool, value: bytes, name: Option<string>)

  /** The visit descends into it next. */
  predicate Nested(e: Event) {
    e.constructed && e.value != []
  }

  /** Every range lies in an input of at most SIZE_MAX bytes, and no field takes more than half of that. */
  predicate InInput(e: Event) {
    && |e.tag| <= SIZE_MAX / 2 && |e.value| <= SIZE_MAX / 2
    && forall s :: s in [e.header, e.tagField, e.lengthField, e.valueField, e.trailer] ==>
         e.offset + s.offset + s.size <= SIZE_MAX
  }

  // ----- What emit_element appends -----

  function Label(lead: string, name: string): string {
    lead + "\"" + name + "\":"
  }

  function NumberParts(lead: string, name: string, n: nat, rest: seq<Part>): seq<Part> {
    [Plain(Label(lead, name)), Plain(Decimal(n))] + rest
  }

  /** Digits within a string literal whose closing quote is appended with what follows. */
  function HexParts(lead: string, name: string, data: bytes, rest: seq<Part>): seq<Part> {
    [Plain(Label(lead, name) + "\""), HexOf(data)] + rest
  }

  function SizePart(s: Span, rest: seq<Part>): seq<Part> {
    NumberParts(",", "length", s.size, [Plain("}")] + rest)
  }

  /** emit_range. */
  function SpanParts(lead: string, name: string, s: Span, offset: nat, rest: seq<Part>): seq<Part> {
    [Plain(Label(lead, name))] + NumberParts("{", "offset", offset + s.offset, SizePart(s, rest))
  }

  function SourceParts(e: Event, rest: seq<Part>): seq<Part> {
    SpanParts("", "header", e.header, e.offset,
    SpanParts(",", "tag", e.tagField, e.offset,
    SpanParts(",", "length", e.lengthField, e.offset,
    SpanParts(",", "value", e.valueField, e.offset,
    SpanParts(",", "trailer", e.trailer, e.offset, [Plain("}")] + rest)))))
  }

  function ContentParts(e: Event): seq<Part> {
    if Nested(e) then [Plain(Label(",", "children") + "[")]
    else HexParts(",", "value", e.value, [Plain("\"")])
  }

  /** An element shows its children exactly if it is constructed and has any bytes to hold them, else its Value. */
  lemma ContentSaysWhich(e: Event)
    ensures Rendered(ContentParts(e))
         == if e.constructed && |e.value| > 0 then ",\"children\":[" else ",\"value\":\"" + Hex(e.value) + "\""
  {
    assert Label(",", "children") + "[" == ",\"children\":[" && Label(",", "value") + "\"" == ",\"value\":\"";
    hide Label;
    var lead, close := Plain(",\"value\":\""), Plain("\"");
    assert [lead, HexOf(e.value)] + [close] == [lead] + ([HexOf(e.value)] + [close]);
    assert Rendered([close]) == "\"";
  }

  function NameParts(e: Event, rest: seq<Part>): seq<Part> {
    match e.name
    case None => rest
    case Some(name) => [Plain(Label(",", "name")), StringOf(name)] + rest
  }

  function ConstructedParts(e: Event, rest: seq<Part>): seq<Part> {
    [Plain(Label(",", "constructed") + if e.constructed then "true" else "false")] + rest
  }

  function SizeParts(e: Event, rest: seq<Part>): seq<Part> {
    NumberParts("\",", "length", |e.value|,
    NumberParts(",", "headerSize", e.headerSize,
    NumberParts(",", "encodedSize", e.encodedSize,
    [Plain(Label(",", "source") + "{")] + SourceParts(e, rest))))
  }

  /** Everything appended on an element's arrival: its object, still open. */
  function Parts(e: Event): seq<Part> {
    NumberParts("{", "offset", e.offset,
    NumberParts(",", "depth", e.depth,
    HexParts(",", "tag", e.tag, SizeParts(e, ConstructedParts(e, NameParts(e, ContentParts(e)))))))
  }

  lemma NumberFits(lead: string, name: string, n: nat, rest: seq<Part>)
    requires AllFit(rest)
    ensures AllFit(NumberParts(lead, name, n, rest))
  {
  }

  lemma HexFits(lead: string, name: string, data: bytes, rest: seq<Part>)
    requires AllFit(rest) && |data| <= SIZE_MAX / 2
    ensures AllFit(HexParts(lead, name, data, rest))
  {
  }

  lemma PlainFits(text: string, rest: seq<Part>)
    requires AllFit(rest)
    ensures AllFit([Plain(text)] + rest)
  {
  }

  lemma SpanFits(lead: string, name: string, s: Span, offset: nat, rest: seq<Part>)
    requires AllFit(rest)
    ensures AllFit(SpanParts(lead, name, s, offset, rest))
  {
    hide NumberParts;
    PlainFits("}", rest);
    NumberFits(",", "length", s.size, [Plain("}")] + rest);
    NumberFits("{", "offset", offset + s.offset, SizePart(s, rest));
    PlainFits(Label(lead, name), NumberParts("{", "offset", offset + s.offset, SizePart(s, rest)));
  }

  lemma SourceFits(e: Event, rest: seq<Part>)
    requires AllFit(rest)
    ensures AllFit(SourceParts(e, rest))
  {
    hide SpanParts;
    PlainFits("}", rest);
    var p5 := SpanParts(",", "trailer", e.trailer, e.offset, [Plain("}")] + rest);
    var p4 := SpanParts(",", "value", e.valueField, e.offset, p5);
    var p3 := SpanParts(",", "length", e.lengthField, e.offset, p4);
    var p2 := SpanParts(",", "tag", e.tagField, e.offset, p3);
    SpanFits(",", "trailer", e.trailer, e.offset, [Plain("}")] + rest);
    SpanFits(",", "value", e.valueField, e.offset, p5);
    SpanFits(",", "length", e.lengthField, e.offset, p4);
    SpanFits(",", "tag", e.tagField, e.offset, p3);
    SpanFits("", "header", e.header, e.offset, p2);
  }

  lemma SizesFit(e: Event, rest: seq<Part>)
    requires AllFit(rest)
    ensures AllFit(SizeParts(e, rest))
  {
    hide NumberParts, SourceParts;
    SourceFits(e, rest);
    var p1 := [Plain(Label(",", "source") + "{")] + SourceParts(e, rest);
    PlainFits(Label(",", "source") + "{", SourceParts(e, rest));
    var p2 := NumberParts(",", "encodedSize", e.encodedSize, p1);
    NumberFits(",", "encodedSize", e.encodedSize, p1);
    NumberFits(",", "headerSize", e.headerSize, p2);
    NumberFits("\",", "length", |e.value|, NumberParts(",", "headerSize", e.headerSize, p2));
  }

  /** The parts of an element inside its input can all be appended. */
  lemma PartsFit(e: Event)
    requires InInput(e)
    ensures AllFit(Parts(e))
  {
    hide NumberParts, HexParts, SizeParts;
    HexFits(",", "value", e.value, [Plain("\"")]);
    assert AllFit(ContentParts(e));
    var rest := ConstructedParts(e, NameParts(e, ContentParts(e)));
    assert AllFit(rest);
    SizesFit(e, rest);
    var p2 := HexParts(",", "tag", e.tag, SizeParts(e, rest));
    HexFits(",", "tag", e.tag, SizeParts(e, rest));
    NumberFits(",", "depth", e.depth, p2);
    NumberFits("{", "offset", e.offset, NumberParts(",", "depth", e.depth, p2));
  }

  // ----- The JSON value an element with its children is -----

  function SpanJson(s: Span, offset: nat): J.Json {
    J.Object(J.Member("offset", J.Number(offset + s.offset), J.Member("length", J.Number(s.size), J.NoMembers)))
  }

  function SourceJson(e: Event): J.Members {
    J.Member("header", SpanJson(e.header, e.offset),
    J.Member("tag", SpanJson(e.tagField, e.offset),
    J.Member("length", SpanJson(e.lengthField, e.offset),
    J.Member("value", SpanJson(e.valueField, e.offset),
    J.Member("trailer", SpanJson(e.trailer, e.offset), J.NoMembers)))))
  }

  function ContentJson(e: Event, kids: J.Items): J.Members {
    if Nested(e) then J.Member("children", J.Array(kids), J.NoMembers)
    else J.Member("value", J.Text(Hex(e.value)), J.NoMembers)
  }

  function NameJson(e: Event, kids: J.Items): J.Members {
    match e.name
    case None => ContentJson(e, kids)
    case Some(name) => J.Member("name", J.Text(name), ContentJson(e, kids))
  }

  function TailJson(e: Event, kids: J.Items): J.Members {
    J.Member("constructed", J.Truth(e.constructed), NameJson(e, kids))
  }

  function SizesJson(e: Event, kids: J.Items): J.Members {
    J.Member("length", J.Number(|e.value|),
    J.Member("headerSize", J.Number(e.headerSize),
    J.Member("encodedSize", J.Number(e.encodedSize),
    J.Member("source", J.Object(SourceJson(e)), TailJson(e, kids)))))
  }

  function ElementJson(e: Event, kids: J.Items): J.Json {
    J.Object(
      J.Member("offset", J.Number(e.offset),
      J.Member("depth", J.Number(e.depth),
      J.Member("tag", J.Text(Hex(e.tag)), SizesJson(e, kids)))))
  }

  // ----- The appended text spells that value -----

  lemma RenderedTwo(a: Part, b: Part, rest: seq<Part>)
    ensures Rendered([a, b] + rest) == Render(a) + (Render(b) + Rendered(rest))
  {
    assert ([a, b] + rest)[1..] == [b] + rest && ([b] + rest)[1..] == rest;
  }

  lemma RenderedOne(a: Part, rest: seq<Part>)
    ensures Rendered([a] + rest) == Render(a) + Rendered(rest)
  {
    assert ([a] + rest)[1..] == rest;
  }

  lemma FirstSpelled(name: string, value: J.Json, ms: J.Members)
    requires Verbatim(name)
    ensures J.SpellMembers(J.Member(name, value, ms)) == ("\"" + name + "\":") + J.Spell(value) + J.MoreMembers(ms)
  {
    VerbatimIsNotEscaped(name);
    assert Quoted(name) + ":" == "\"" + name + "\":";
  }

  /** A label and a value in front of further members. */
  lemma Labelled(lead: string, name: string, value: J.Json, ms: J.Members, end: string)
    requires Verbatim(name)
    ensures Label(lead, name) + (J.Spell(value) + (J.MoreMembers(ms) + end))
         == lead + (J.SpellMembers(J.Member(name, value, ms)) + end)
  {
    hide J.Spell, J.SpellMembers, J.MoreMembers;
    FirstSpelled(name, value, ms);
    Assemble(lead, "\"" + name + "\":", J.Spell(value), J.MoreMembers(ms), end);
    assert Label(lead, name) == lead + ("\"" + name + "\":");
  }

  lemma Assemble(lead: string, key: string, value: string, more: string, end: string)
    ensures (lead + key) + (value + (more + end)) == lead + ((key + value + more) + end)
  {
  }

  lemma NumberSpelled(lead: string, name: string, n: nat, rest: seq<Part>, ms: J.Members, tail: string, end: string)
    requires Verbatim(name) && Rendered(rest) + tail == J.MoreMembers(ms) + end
    ensures Rendered(NumberParts(lead, name, n, rest)) + tail
         == lead + (J.SpellMembers(J.Member(name, J.Number(n), ms)) + end)
  {
    RenderedTwo(Plain(Label(lead, name)), Plain(Decimal(n)), rest);
    Labelled(lead, name, J.Number(n), ms, end);
    Three(Label(lead, name), Decimal(n), Rendered(rest), tail);
  }

  lemma Three(a: string, b: string, c: string, d: string)
    ensures (a + (b + c)) + d == a + (b + (c + d))
  {
  }

  lemma HexSpelled(lead: string, name: string, data: bytes, rest: seq<Part>, ms: J.Members, tail: string, end: string)
    requires Verbatim(name) && Rendered(rest) + tail == "\"" + (J.MoreMembers(ms) + end)
    ensures Rendered(HexParts(lead, name, data, rest)) + tail
         == lead + (J.SpellMembers(J.Member(name, J.Text(Hex(data)), ms)) + end)
  {
    RenderedTwo(Plain(Label(lead, name) + "\""), HexOf(data), rest);
    Labelled(lead, name, J.Text(Hex(data)), ms, end);
    HexIsVerbatim(data);
    VerbatimIsNotEscaped(Hex(data));
    Three(Label(lead, name) + "\"", Hex(data), Rendered(rest), tail);
    Quote(Label(lead, name), Hex(data), J.MoreMembers(ms) + end);
  }

  lemma Quote(key: string, digits: string, behind: string)
    ensures (key + "\"") + (digits + ("\"" + behind)) == key + (("\"" + digits + "\"") + behind)
  {
  }

  lemma Closed(rest: seq<Part>, tail: string, after: string)
    requires Rendered(rest) + tail == after
    ensures Rendered([Plain("}")] + rest) + tail == J.MoreMembers(J.NoMembers) + ("}" + after)
  {
    RenderedOne(Plain("}"), rest);
    Regroup("}", Rendered(rest), tail);
    assert J.MoreMembers(J.NoMembers) + ("}" + after) == "}" + after;
  }

  lemma SpanBody(s: Span, offset: nat, rest: seq<Part>, tail: string, after: string)
    requires Rendered(rest) + tail == after
    ensures Rendered(NumberParts("{", "offset", offset + s.offset, SizePart(s, rest))) + tail
         == J.Spell(SpanJson(s, offset)) + after
  {
    hide Rendered, J.Spell, J.SpellMembers, J.SpellItems, J.MoreMembers, Label;
    var size := J.Member("length", J.Number(s.size), J.NoMembers);
    Closed(rest, tail, after);
    NumberSpelled(",", "length", s.size, [Plain("}")] + rest, J.NoMembers, tail, "}" + after);
    Comma(size, "}" + after);
    NumberSpelled("{", "offset", offset + s.offset, SizePart(s, rest), size, tail, "}" + after);
    Braces(J.Member("offset", J.Number(offset + s.offset), size), after);
  }

  lemma SpanSpelled(
    lead: string, name: string, s: Span, offset: nat, rest: seq<Part>, ms: J.Members, tail: string, end: string)
    requires Verbatim(name) && Rendered(rest) + tail == J.MoreMembers(ms) + end
    ensures Rendered(SpanParts(lead, name, s, offset, rest)) + tail
         == lead + (J.SpellMembers(J.Member(name, SpanJson(s, offset), ms)) + end)
  {
    hide Rendered, J.Spell, J.SpellMembers, J.SpellItems, J.MoreMembers, Label, NumberParts, SizePart;
    var body := NumberParts("{", "offset", offset + s.offset, SizePart(s, rest));
    SpanBody(s, offset, rest, tail, J.MoreMembers(ms) + end);
    RenderedOne(Plain(Label(lead, name)), body);
    Regroup(Label(lead, name), Rendered(body), tail);
    Labelled(lead, name, SpanJson(s, offset), ms, end);
  }

  lemma Comma(ms: J.Members, end: string)
    requires ms.Member?
    ensures "," + (J.SpellMembers(ms) + end) == J.MoreMembers(ms) + end
  {
    Regroup(",", J.SpellMembers(ms), end);
  }

  lemma Braced(ms: J.Members)
    ensures "{" + (J.SpellMembers(ms) + "}") == J.Spell(J.Object(ms))
  {
  }

  lemma SpellLeaf(t: string, holds: bool)
    ensures J.Spell(J.Text(t)) == Quoted(t) && J.Spell(J.Truth(holds)) == if holds then "true" else "false"
  {
  }

  lemma Braces(ms: J.Members, end: string)
    ensures "{" + (J.SpellMembers(ms) + ("}" + end)) == J.Spell(J.Object(ms)) + end
  {
  }

  // The chain from an element's last member back to its first.

  lemma ContentSpelled(e: Event, kids: J.Items)
    requires !Nested(e) ==> kids.NoItems?
    ensures Rendered(ContentParts(e)) + Rest(e, kids) == J.MoreMembers(ContentJson(e, kids)) + "}"
  {
    if Nested(e) {
      var lead := Plain(Label(",", "children") + "[");
      RenderedOne(lead, []);
      Labelled(",", "children", J.Array(kids), J.NoMembers, "}");
      Comma(ContentJson(e, kids), "}");
      Bracket(Label(",", "children"), J.SpellItems(kids));
      assert [lead] + [] == [lead];
    } else {
      RenderedOne(Plain("\""), []);
      assert [Plain("\"")] + [] == [Plain("\"")];
      assert J.SpellItems(kids) + "}" == "}";
      HexSpelled(",", "value", e.value, [Plain("\"")], J.NoMembers, "}", "}");
      Comma(ContentJson(e, kids), "}");
    }
  }

  lemma Bracket(key: string, items: string)
    ensures ((key + "[") + "") + (items + "]}") == key + (("[" + items + "]") + ("" + "}"))
  {
  }

  /** What closing adds behind an element's arrival: its children and the closers. */
  function Rest(e: Event, kids: J.Items): string {
    J.SpellItems(kids) + if Nested(e) then "]}" else "}"
  }

  lemma NameSpelled(e: Event, kids: J.Items)
    requires !Nested(e) ==> kids.NoItems?
    ensures Rendered(NameParts(e, ContentParts(e))) + Rest(e, kids) == J.MoreMembers(NameJson(e, kids)) + "}"
  {
    hide Rendered, J.Spell, J.SpellMembers, J.SpellItems, J.MoreMembers, Label, ContentParts;
    ContentSpelled(e, kids);
    if e.name.Some? {
      var name := e.name.value;
      RenderedTwo(Plain(Label(",", "name")), StringOf(name), ContentParts(e));
      Three(Label(",", "name"), Quoted(name), Rendered(ContentParts(e)), Rest(e, kids));
      SpellLeaf(name, true);
      Labelled(",", "name", J.Text(name), ContentJson(e, kids), "}");
      Comma(NameJson(e, kids), "}");
    }
  }

  lemma TailSpelled(e: Event, kids: J.Items)
    requires !Nested(e) ==> kids.NoItems?
    ensures Rendered(ConstructedParts(e, NameParts(e, ContentParts(e)))) + Rest(e, kids)
         == J.MoreMembers(TailJson(e, kids)) + "}"
  {
    hide Rendered, J.Spell, J.SpellMembers, J.SpellItems, J.MoreMembers, Label, ContentParts;
    var word := if e.constructed then "true" else "false";
    var rest := NameParts(e, ContentParts(e));
    NameSpelled(e, kids);
    RenderedOne(Plain(Label(",", "constructed") + word), rest);
    SpellLeaf("", e.constructed);
    Labelled(",", "constructed", J.Truth(e.constructed), NameJson(e, kids), "}");
    Comma(TailJson(e, kids), "}");
    Four(Label(",", "constructed"), word, Rendered(rest), Rest(e, kids));
  }

  lemma Four(a: string, b: string, c: string, d: string)
    ensures ((a + b) + c) + d == a + (b + (c + d))
  {
  }

  lemma SourceSpelled(e: Event, rest: seq<Part>, tail: string, after: string)
    requires Rendered(rest) + tail == after
    ensures Rendered(SourceParts(e, rest)) + tail == J.SpellMembers(SourceJson(e)) + ("}" + after)
  {
    hide Rendered, J.Spell, J.SpellMembers, J.SpellItems, J.MoreMembers, Label, NumberParts, HexParts, SpanParts;
    var end, p := "}" + after, [Plain("}")] + rest;
    Closed(rest, tail, after);
    var m5 := J.Member("trailer", SpanJson(e.trailer, e.offset), J.NoMembers);
    SpanSpelled(",", "trailer", e.trailer, e.offset, p, J.NoMembers, tail, end);
    Comma(m5, end);
    var p5 := SpanParts(",", "trailer", e.trailer, e.offset, p);
    var m4 := J.Member("value", SpanJson(e.valueField, e.offset), m5);
    SpanSpelled(",", "value", e.valueField, e.offset, p5, m5, tail, end);
    Comma(m4, end);
    var p4 := SpanParts(",", "value", e.valueField, e.offset, p5);
    var m3 := J.Member("length", SpanJson(e.lengthField, e.offset), m4);
    SpanSpelled(",", "length", e.lengthField, e.offset, p4, m4, tail, end);
    Comma(m3, end);
    var p3 := SpanParts(",", "length", e.lengthField, e.offset, p4);
    var m2 := J.Member("tag", SpanJson(e.tagField, e.offset), m3);
    SpanSpelled(",", "tag", e.tagField, e.offset, p3, m3, tail, end);
    Comma(m2, end);
    var p2 := SpanParts(",", "tag", e.tagField, e.offset, p3);
    SpanSpelled("", "header", e.header, e.offset, p2, m2, tail, end);
  }

  lemma SizesSpelled(e: Event, kids: J.Items)
    requires !Nested(e) ==> kids.NoItems?
    ensures Rendered(SizeParts(e, ConstructedParts(e, NameParts(e, ContentParts(e))))) + Rest(e, kids)
         == "\"" + (J.MoreMembers(SizesJson(e, kids)) + "}")
  {
    hide Rendered, J.Spell, J.SpellMembers, J.SpellItems, J.MoreMembers, Label, NumberParts, HexParts, SpanParts;
    var tail, rest := Rest(e, kids), ConstructedParts(e, NameParts(e, ContentParts(e)));
    TailSpelled(e, kids);
    SourceMember(e, rest, TailJson(e, kids), tail, "}");
    var p1 := [Plain(Label(",", "source") + "{")] + SourceParts(e, rest);
    var m1 := J.Member("source", J.Object(SourceJson(e)), TailJson(e, kids));
    var p2 := NumberParts(",", "encodedSize", e.encodedSize, p1);
    var m2 := J.Member("encodedSize", J.Number(e.encodedSize), m1);
    NumberSpelled(",", "encodedSize", e.encodedSize, p1, m1, tail, "}");
    Comma(m2, "}");
    var p3 := NumberParts(",", "headerSize", e.headerSize, p2);
    var m3 := J.Member("headerSize", J.Number(e.headerSize), m2);
    NumberSpelled(",", "headerSize", e.headerSize, p2, m2, tail, "}");
    Comma(m3, "}");
    NumberSpelled("\",", "length", |e.value|, p3, m3, tail, "}");
    QuoteComma(SizesJson(e, kids), "}");
  }

  lemma QuoteComma(ms: J.Members, end: string)
    requires ms.Member?
    ensures "\"," + (J.SpellMembers(ms) + end) == "\"" + (J.MoreMembers(ms) + end)
  {
    Comma(ms, end);
    assert "\"," == "\"" + ",";
    Regroup("\"", ",", J.SpellMembers(ms) + end);
  }

  lemma SourceMember(e: Event, rest: seq<Part>, ms: J.Members, tail: string, end: string)
    requires Rendered(rest) + tail == J.MoreMembers(ms) + end
    ensures Rendered([Plain(Label(",", "source") + "{")] + SourceParts(e, rest)) + tail
         == J.MoreMembers(J.Member("source", J.Object(SourceJson(e)), ms)) + end
  {
    hide Rendered, J.Spell, J.SpellMembers, J.SpellItems, J.MoreMembers, Label, SourceParts;
    var after := J.MoreMembers(ms) + end;
    SourceSpelled(e, rest, tail, after);
    RenderedOne(Plain(Label(",", "source") + "{"), SourceParts(e, rest));
    Four(Label(",", "source"), "{", Rendered(SourceParts(e, rest)), tail);
    Braces(SourceJson(e), after);
    Labelled(",", "source", J.Object(SourceJson(e)), ms, end);
    Comma(J.Member("source", J.Object(SourceJson(e)), ms), end);
  }

  /** An element's arrival, its children and its closers spell its JSON value. */
  lemma ElementSpelled(e: Event, kids: J.Items)
    requires !Nested(e) ==> kids.NoItems?
    ensures Rendered(Parts(e)) + Rest(e, kids) == J.Spell(ElementJson(e, kids))
  {
    hide Rendered, J.Spell, J.SpellMembers, J.SpellItems, J.MoreMembers, Label, NumberParts, HexParts, SpanParts;
    var tail := Rest(e, kids);
    var p1 := SizeParts(e, ConstructedParts(e, NameParts(e, ContentParts(e))));
    SizesSpelled(e, kids);
    var m2 := J.Member("tag", J.Text(Hex(e.tag)), SizesJson(e, kids));
    var p2 := HexParts(",", "tag", e.tag, p1);
    HexSpelled(",", "tag", e.tag, p1, SizesJson(e, kids), tail, "}");
    Comma(m2, "}");
    var p3 := NumberParts(",", "depth", e.depth, p2);
    var m3 := J.Member("depth", J.Number(e.depth), m2);
    NumberSpelled(",", "depth", e.depth, p2, m2, tail, "}");
    Comma(m3, "}");
    var m4 := J.Member("offset", J.Number(e.offset), m3);
    NumberSpelled("{", "offset", e.offset, p3, m3, tail, "}");
    Braced(m4);
  }
}
