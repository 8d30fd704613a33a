/** Compact JSON texts (sections 2 to 7 of RFC 8259): a printer, an independent reader, and their agreement. */
module Json {
  import opened Tlv
  import opened Decimals
  import opened JsonText

  datatype Json =
    | Text(text: string)
    | Number(n: nat)
    | Truth(holds: bool)
    | Array(items: Items)
    | Object(members: Members)

  datatype Items = NoItems | Item(first: Json, others: Items)

  datatype Members = NoMembers | Member(name: string, value: Json, others: Members)

  // ----- Printing -----

  function Spell(j: Json): string {
    match j
    case Text(t) => Quoted(t)
    case Number(n) => Decimal(n)
    case Truth(holds) => if holds then "true" else "false"
    case Array(items) => "[" + SpellItems(items) + "]"
    case Object(members) => "{" + SpellMembers(members) + "}"
  }

  function SpellItems(items: Items): string {
    match items
    case NoItems => ""
    case Item(first, others) => Spell(first) + (if others.NoItems? then "" else "," + SpellItems(others))
  }

  function SpellMembers(members: Members): string {
    match members
    case NoMembers => ""
    case Member(name, value, others) =>
      Quoted(name) + ":" + Spell(value) + (if others.NoMembers? then "" else "," + SpellMembers(others))
  }

  function MoreItems(items: Items): string {
    if items.NoItems? then "" else "," + SpellItems(items)
  }

  function MoreMembers(members: Members): string {
    if members.NoMembers? then "" else "," + SpellMembers(members)
  }

  // ----- Reading -----

  datatype Reply = Unreadable | Read(value: Json, rest: string)

  datatype ItemsReply = NotItems | ReadItems(items: Items, rest: string)

  datatype MembersReply = NotMembers | ReadMembers(members: Members, rest: string)

  predicate Digit(c: char) {
    '0' <= c <= '9'
  }

  function DigitRun(s: string): (n: nat)
    ensures n <= |s|
  {
    if s == "" || !Digit(s[0]) then 0 else 1 + DigitRun(s[1..])
  }

  /** The value at the front of a text, and what follows it. */
  function Parse(s: string): (r: Reply)
    ensures r.Read? ==> |r.rest| < |s|
    decreases |s|, 0
  {
    if s == "" then Unreadable
    else if s[0] == '"' then ParseText(s)
    else if s[0] == '[' then
      if |s| > 1 && s[1] == ']' then Read(Array(NoItems), s[2..])
      else
        match ParseItems(s[1..])
        case NotItems => Unreadable
        case ReadItems(items, rest) => Read(Array(items), rest)
    else if s[0] == '{' then
      if |s| > 1 && s[1] == '}' then Read(Object(NoMembers), s[2..])
      else
        match ParseMembers(s[1..])
        case NotMembers => Unreadable
        case ReadMembers(members, rest) => Read(Object(members), rest)
    else if s[0] == 't' then if |s| >= 4 && s[..4] == "true" then Read(Truth(true), s[4..]) else Unreadable
    else if s[0] == 'f' then if |s| >= 5 && s[..5] == "false" then Read(Truth(false), s[5..]) else Unreadable
    else ParseNumber(s)
  }

  /** A string literal and what follows it. */
  function ReadQuoted(s: string): (r: Literal)
    ensures r.Literal? ==> |r.rest| < |s|
  {
    if s == "" || s[0] != '"' then Malformed else Unescape(s[1..])
  }

  function ParseText(s: string): (r: Reply)
    ensures r.Read? ==> |r.rest| < |s|
  {
    match ReadQuoted(s)
    case Malformed => Unreadable
    case Literal(text, rest) => Read(Text(text), rest)
  }

  /** Digits without a leading zero. */
  function ParseNumber(s: string): (r: Reply)
    ensures r.Read? ==> |r.rest| < |s|
  {
    var n := DigitRun(s);
    if n == 0 || (n > 1 && s[0] == '0') then Unreadable else Read(Number(ValueOf(s[..n])), s[n..])
  }

  /** One or more values up to the closing bracket. */
  function ParseItems(s: string): (r: ItemsReply)
    ensures r.ReadItems? ==> |r.rest| < |s|
    decreases |s|, 1
  {
    match Parse(s)
    case Unreadable => NotItems
    case Read(first, rest) =>
      if rest == "" then NotItems
      else if rest[0] == ']' then ReadItems(Item(first, NoItems), rest[1..])
      else if rest[0] != ',' then NotItems
      else
        match ParseItems(rest[1..])
        case NotItems => NotItems
        case ReadItems(others, end) => ReadItems(Item(first, others), end)
  }

  /** One or more members up to the closing brace. */
  function ParseMembers(s: string): (r: MembersReply)
    ensures r.ReadMembers? ==> |r.rest| < |s|
    decreases |s|, 1
  {
    match ReadQuoted(s)
    case Malformed => NotMembers
    case Literal(name, behind) =>
      if behind == "" || behind[0] != ':' then NotMembers
      else
        match Parse(behind[1..])
        case Unreadable => NotMembers
        case Read(value, rest) =>
          if rest == "" then NotMembers
          else if rest[0] == '}' then ReadMembers(Member(name, value, NoMembers), rest[1..])
          else if rest[0] != ',' then NotMembers
          else
            match ParseMembers(rest[1..])
            case NotMembers => NotMembers
            case ReadMembers(others, end) => ReadMembers(Member(name, value, others), end)
  }

  // ----- Reading what was printed -----

  /** What may stand behind a value. */
  predicate Ends(rest: string) {
    rest == "" || !Digit(rest[0])
  }

  lemma {:induction false} DigitsEnd(t: string, rest: string)
    requires AllDigits(t) && Ends(rest)
    ensures DigitRun(t + rest) == |t|
  {
    if t == "" {
      assert t + rest == rest;
    } else {
      assert t[0] in t && (t + rest)[1..] == t[1..] + rest;
      forall c | c in t[1..]
        ensures c in t
      {
        var k :| 0 <= k < |t| - 1 && t[1..][k] == c;
        assert t[k + 1] == c;
      }
      DigitsEnd(t[1..], rest);
    }
  }

  lemma {:induction false} NoLeadingZero(n: nat)
    ensures |Decimal(n)| > 1 ==> Decimal(n)[0] != '0'
    ensures n > 0 ==> Decimal(n)[0] != '0'
  {
    if n >= 10 {
      NoLeadingZero(n / 10);
    }
  }

  lemma NumbersReadBack(n: nat, rest: string)
    requires Ends(rest)
    ensures Parse(Decimal(n) + rest) == Read(Number(n), rest)
  {
    var t, s := Decimal(n), Decimal(n) + rest;
    DigitsEnd(t, rest);
    NoLeadingZero(n);
    DecimalDenotes(n);
    assert s[0] == t[0] && t[0] in t;
    assert s[..|t|] == t && s[|t|..] == rest;
  }

  lemma QuotedReadsBack(t: string, rest: string)
    ensures ReadQuoted(Quoted(t) + rest) == Literal(t, rest)
    ensures Quoted(t) != "" && Quoted(t)[0] == '"'
  {
    hide Escaped, Unescape;
    UnescapeInvertsQuoting(t, rest);
    assert (Quoted(t) + rest)[1..] == Escaped(t) + "\"" + rest;
  }

  lemma TextsReadBack(t: string, rest: string)
    ensures Parse(Quoted(t) + rest) == Read(Text(t), rest)
  {
    QuotedReadsBack(t, rest);
  }

  lemma TruthsReadBack(holds: bool, rest: string)
    ensures Parse((if holds then "true" else "false") + rest) == Read(Truth(holds), rest)
  {
    var word := if holds then "true" else "false";
    var s := word + rest;
    assert s[..|word|] == word && s[|word|..] == rest && s[0] == word[0];
  }

  lemma SpellsSomething(j: Json)
    ensures Spell(j) != "" && Spell(j)[0] != ']'
  {
    if j.Number? {
      assert Decimal(j.n)[0] in Decimal(j.n);
    }
  }

  lemma ArrayText(items: Items, rest: string)
    requires items.Item?
    ensures var s := Spell(Array(items)) + rest;
      |s| > 1 && s[0] == '[' && s[1] != ']' && s[1..] == SpellItems(items) + "]" + rest
  {
    SpellsSomething(items.first);
    var s := Spell(Array(items)) + rest;
    assert s[1..] == SpellItems(items) + "]" + rest;
    assert SpellItems(items)[0] == Spell(items.first)[0];
  }

  lemma ObjectText(members: Members, rest: string)
    requires members.Member?
    ensures var s := Spell(Object(members)) + rest;
      |s| > 1 && s[0] == '{' && s[1] != '}' && s[1..] == SpellMembers(members) + "}" + rest
  {
    assert Spell(Object(members)) == "{" + SpellMembers(members) + "}";
    MembersOpen(members);
    hide Spell, SpellMembers;
    Bracketed("{", SpellMembers(members), "}", rest);
  }

  lemma MembersOpen(members: Members)
    requires members.Member?
    ensures SpellMembers(members) != "" && SpellMembers(members)[0] == '"'
  {
    var q := Quoted(members.name);
    assert q[0] == '"';
    hide Quoted, Spell;
    assert SpellMembers(members)[0] == q[0];
  }

  lemma Bracketed(open: string, body: string, close: string, rest: string)
    requires |open| == 1 && body != ""
    ensures var s := open + body + close + rest;
      |s| > 1 && s[0] == open[0] && s[1] == body[0] && s[1..] == body + close + rest
  {
  }

  lemma ArraysReadBack(items: Items, rest: string)
    requires items.Item? ==> ParseItems(SpellItems(items) + "]" + rest) == ReadItems(items, rest)
    ensures Parse(Spell(Array(items)) + rest) == Read(Array(items), rest)
  {
    if items.NoItems? {
      var s := "[]" + rest;
      assert Spell(Array(items)) == "[]" && s[2..] == rest;
    } else {
      ArrayText(items, rest);
    }
  }

  lemma ObjectsReadBack(members: Members, rest: string)
    requires members.Member? ==> ParseMembers(SpellMembers(members) + "}" + rest) == ReadMembers(members, rest)
    ensures Parse(Spell(Object(members)) + rest) == Read(Object(members), rest)
  {
    if members.NoMembers? {
      var s := "{}" + rest;
      assert Spell(Object(members)) == "{}" && s[2..] == rest;
    } else {
      ObjectText(members, rest);
    }
  }

  /** Reading a printed value gives the value back and stops right behind it. */
  lemma {:induction false} ParseInvertsSpelling(j: Json, rest: string)
    requires Ends(rest)
    ensures Parse(Spell(j) + rest) == Read(j, rest)
    decreases j, 0
  {
    match j
    case Text(t) => TextsReadBack(t, rest);
    case Number(n) => NumbersReadBack(n, rest);
    case Truth(holds) => TruthsReadBack(holds, rest);
    case Array(items) =>
      if items.Item? {
        ItemsReadBack(items, rest);
      }
      ArraysReadBack(items, rest);
    case Object(members) =>
      if members.Member? {
        MembersReadBack(members, rest);
      }
      ObjectsReadBack(members, rest);
  }

  lemma {:induction false} ItemsReadBack(items: Items, rest: string)
    requires items.Item?
    ensures ParseItems(SpellItems(items) + "]" + rest) == ReadItems(items, rest)
    decreases items, 1
  {
    hide Parse;
    var first := Spell(items.first);
    if items.others.NoItems? {
      var behind := "]" + rest;
      assert SpellItems(items) + "]" + rest == first + behind;
      ParseInvertsSpelling(items.first, behind);
      assert behind[1..] == rest;
    } else {
      var more := SpellItems(items.others) + "]" + rest;
      var behind := "," + more;
      assert SpellItems(items) + "]" + rest == first + behind;
      ParseInvertsSpelling(items.first, behind);
      assert behind[1..] == more;
      ItemsReadBack(items.others, rest);
    }
  }

  /** The first member read, whatever spells its name and value. */
  lemma FirstMember(s: string, name: string, tail: string, value: Json, behind: string)
    requires ReadQuoted(s) == Literal(name, [':'] + tail) && Parse(tail) == Read(value, behind) && behind != ""
    ensures behind[0] == '}' ==> ParseMembers(s) == ReadMembers(Member(name, value, NoMembers), behind[1..])
    ensures behind[0] == ',' && ParseMembers(behind[1..]).ReadMembers? ==>
      var more := ParseMembers(behind[1..]);
      ParseMembers(s) == ReadMembers(Member(name, value, more.members), more.rest)
  {
    assert ([':'] + tail)[1..] == tail;
  }

  lemma {:induction false} MembersReadBack(members: Members, rest: string)
    requires members.Member?
    ensures ParseMembers(SpellMembers(members) + "}" + rest) == ReadMembers(members, rest)
    decreases members, 1
  {
    hide Parse, ParseMembers, ReadQuoted, Quoted;
    var name, value := members.name, Spell(members.value);
    var more := if members.others.NoMembers? then "" else SpellMembers(members.others) + "}" + rest;
    var behind := if members.others.NoMembers? then "}" + rest else "," + more;
    var s := SpellMembers(members) + "}" + rest;
    assert s == Quoted(name) + ([':'] + (value + behind));
    ParseInvertsSpelling(members.value, behind);
    QuotedReadsBack(name, [':'] + (value + behind));
    FirstMember(s, name, value + behind, members.value, behind);
    if members.others.NoMembers? {
      assert behind[1..] == rest;
    } else {
      assert behind[1..] == more;
      MembersReadBack(members.others, rest);
    }
  }
}
