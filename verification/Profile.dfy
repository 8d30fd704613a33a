/** The Callgrind profile parser of scripts/callgrind_report.py, over lines already cut into fields. */
module Profile {
  import opened Tlv

  /** A column: a decimal or hexadecimal number, a relative or repeated position, or neither. */
  datatype Field = Number(n: nat) | Relative | Junk

  datatype Group = ObjectNames | FileNames | FunctionNames

  /** How a name line's value reads: empty, plain, `(id)` with or without a name, or a broken `(digit`. */
  datatype NameText = Empty | Plain(name: string) | Compressed(id: string, definition: Option<string>) | Broken

  datatype Position = Instr | BasicBlock | LineNumber

  datatype Association = Calls | JumpTo | ConditionalJump

  datatype Line =
    | Ignored
    | Cost(fields: seq<Field>)
    | Name(group: Group, selects: bool, text: string)
    | Edge(kind: Association, fields: seq<Field>)
    | Events(names: seq<string>)
    | Positions(items: seq<Position>)
    | Summary(fields: seq<Field>)
    | Totals(fields: seq<Field>)
    | Version(supported: bool)
    | Part(field: Field)
    | Thread(field: Field)
    | Metadata
    | Unrecognized

  datatype State = State(
    events: Option<seq<string>>, positions: seq<Position>,
    summary: Option<seq<Field>>, totals: Option<seq<nat>>, costs: seq<nat>,
    functions: map<string, nat>, names: map<(Group, string), string>,
    current: Option<string>, pendingCall: bool, bodyStarted: bool, partSeen: bool, threadSeen: bool)

  const START := State(None, [LineNumber], None, None, [], map[], map[], None, false, false, false, false)

  // ----- Helpers of the parser -----

  /** The counters of a line, padded with zeros to one per event. */
  function EventCosts(events: Option<seq<string>>, fields: seq<Field>): (r: Option<seq<nat>>)
    ensures r.Some? ==> events.Some? && |r.value| == |events.value|
  {
    if events.None? || |fields| > |events.value| || exists f :: f in fields && !f.Number? then None
    else
      Some(seq(|events.value|, i requires 0 <= i < |events.value| =>
        if i < |fields| then Counter(fields[i]) else 0))
  }

  function Counter(f: Field): nat {
    if f.Number? then f.n else 0
  }

  predicate IsPosition(f: Field) {
    !f.Junk?
  }

  function IndexOf(names: seq<string>, name: string): (i: nat)
    requires name in names
    ensures i < |names| && names[i] == name
  {
    if names[0] == name then 0 else 1 + IndexOf(names[1..], name)
  }

  predicate Distinct(names: seq<string>) {
    forall i, j :: 0 <= i < j < |names| ==> names[i] != names[j]
  }

  predicate EventsOk(names: seq<string>) {
    Distinct(names) && "Ir" in names
  }

  /** A nonempty selection of the three position columns, in their order. */
  predicate PositionsOk(items: seq<Position>) {
    items in {[Instr], [BasicBlock], [LineNumber], [Instr, BasicBlock], [Instr, LineNumber],
              [BasicBlock, LineNumber], [Instr, BasicBlock, LineNumber]}
  }

  predicate Digit(c: char) {
    '0' <= c <= '9'
  }

  predicate Blank(c: char) {
    c in " \t"
  }

  /** The length of the longest prefix of digits, and of blanks. */
  function Digits(t: string): (n: nat)
    ensures n <= |t|
  {
    if t == "" || !Digit(t[0]) then 0 else 1 + Digits(t[1..])
  }

  function Blanks(t: string): (n: nat)
    ensures n <= |t|
  {
    if t == "" || !Blank(t[0]) then 0 else 1 + Blanks(t[1..])
  }

  predicate LooksCompressed(t: string) {
    |t| >= 2 && t[0] == '(' && Digit(t[1])
  }

  /** `(digits)`, optionally followed by blanks and a name; any other text from `(digit` on is broken. */
  function Read(t: string): NameText {
    if t == "" then Empty
    else if !LooksCompressed(t) then Plain(t)
    else
      var n := Digits(t[1..]);
      var rest := t[1 + n..];
      if rest == "" || rest[0] != ')' then Broken
      else if |rest| == 1 then Compressed(t[1..1 + n], None)
      else if Blanks(rest[1..]) == 0 then Broken
      else Compressed(t[1..1 + n], Some(rest[1 + Blanks(rest[1..])..]))
  }

  /** The name a text stands for and the table afterwards. */
  function Resolve(names: map<(Group, string), string>, group: Group, text: string):
    Option<(string, map<(Group, string), string>)>
  {
    match Read(text)
    case Empty => None
    case Broken => None
    case Plain(name) => Some((name, names))
    case Compressed(id, None) => if (group, id) in names then Some((names[(group, id)], names)) else None
    case Compressed(id, Some(name)) =>
      if name == "" || ((group, id) in names && names[(group, id)] != name) then None
      else Some((name, names[(group, id) := name]))
  }

  function Add(a: seq<nat>, b: seq<nat>): (c: seq<nat>)
    requires |a| == |b|
    ensures |c| == |a|
  {
    seq(|a|, i requires 0 <= i < |a| => a[i] + b[i])
  }

  predicate Consistent(s: State) {
    s.events.Some? ==> EventsOk(s.events.value) && |s.costs| == |s.events.value|
  }

  // ----- One line -----

  function StepCost(s: State, fields: seq<Field>): Option<State>
    requires Consistent(s)
  {
    var p := |s.positions|;
    if s.events.None? || s.current.None? || |fields| < p then None
    else if !(forall i :: 0 <= i < p ==> IsPosition(fields[i])) then None
    else
      var values := EventCosts(s.events, fields[p..]);
      if values.None? then None
      else if s.pendingCall then Some(s.(bodyStarted := true, pendingCall := false))
      else
        var f := s.current.value;
        var ir := values.value[IndexOf(s.events.value, "Ir")];
        Some(s.(bodyStarted := true, costs := Add(s.costs, values.value),
                functions := s.functions[f := (if f in s.functions then s.functions[f] else 0) + ir]))
  }

  function StepEdge(s: State, kind: Association, fields: seq<Field>): Option<State> {
    var counts := if kind.ConditionalJump? then 2 else 1;
    if |fields| != counts + |s.positions| || (exists i :: 0 <= i < counts && !fields[i].Number?)
      || (exists i :: counts <= i < |fields| && !IsPosition(fields[i])) then None
    else Some(s.(pendingCall := kind.Calls?))
  }

  function Step(s: State, line: Line): (r: Option<State>)
    requires Consistent(s)
    ensures r.Some? ==> Consistent(r.value)
  {
    if line.Ignored? then Some(s)
    else if s.totals.Some? then None
    else if s.pendingCall && !line.Cost? then None
    else
      match line
      case Cost(fields) => StepCost(s, fields)
      case Name(group, selects, text) =>
        var r := Resolve(s.names, group, text);
        if r.None? then None
        else Some(s.(names := r.value.1, current := if selects then Some(r.value.0) else s.current))
      case Edge(kind, fields) => StepEdge(s, kind, fields)
      case Events(names) =>
        if s.events.Some? || s.bodyStarted || !EventsOk(names) then None
        else Some(s.(events := Some(names), costs := seq(|names|, i => 0)))
      case Positions(items) =>
        if s.bodyStarted || !PositionsOk(items) then None else Some(s.(positions := items))
      case Summary(fields) =>
        if s.summary.Some? || s.bodyStarted then None else Some(s.(summary := Some(fields)))
      case Totals(fields) =>
        if fields == [] || EventCosts(s.events, fields).None? then None
        else Some(s.(totals := EventCosts(s.events, fields)))
      case Version(supported) => if supported then Some(s) else None
      case Part(field) =>
        if s.bodyStarted || s.partSeen || !field.Number? then None else Some(s.(partSeen := true))
      case Thread(field) =>
        if s.bodyStarted || s.threadSeen || !field.Number? then None else Some(s.(threadSeen := true))
      case Metadata => Some(s)
      case Unrecognized => None
  }

  // ----- A whole profile -----

  datatype Report = Report(instructions: nat, own: nat, unattributed: int, functions: map<string, nat>)

  /** The checks made at the end of the file. */
  function Conclude(s: State): Option<Report>
    requires Consistent(s)
  {
    if s.pendingCall || s.events.None? || s.totals.None? || Some(s.costs) != s.totals then None
    else
      var full := if s.summary.Some? then EventCosts(s.events, s.summary.value) else s.totals;
      var ir := IndexOf(s.events.value, "Ir");
      if full.None? || (exists i :: 0 <= i < |s.costs| && full.value[i] < s.costs[i]) then None
      else Some(Report(full.value[ir], s.costs[ir], full.value[ir] - s.costs[ir], s.functions))
  }

  function Run(s: State, lines: seq<Line>): (r: Option<State>)
    requires Consistent(s)
    ensures r.Some? ==> Consistent(r.value)
    decreases |lines|
  {
    if lines == [] then Some(s)
    else
      match Step(s, lines[0])
      case None => None
      case Some(t) => Run(t, lines[1..])
  }

  /** The report of a file: its lines, and whether it ends with a line break. */
  function Parse(lines: seq<Line>, complete: bool): Option<Report> {
    if !complete then None
    else
      match Run(START, lines)
      case None => None
      case Some(s) => Conclude(s)
  }

  // ----- The parser -----

  class Parser {
    var events: Option<seq<string>>
    var positions: seq<Position>
    var summary: Option<seq<Field>>
    var totals: Option<seq<nat>>
    var costs: seq<nat>
    var functions: map<string, nat>
    var names: map<(Group, string), string>
    var current: Option<string>
    var pendingCall: bool
    var bodyStarted: bool
    var partSeen: bool
    var threadSeen: bool

    function Now(): State
      reads this
    {
      State(events, positions, summary, totals, costs, functions, names, current,
            pendingCall, bodyStarted, partSeen, threadSeen)
    }

    constructor ()
      ensures Now() == START
    {
      events, positions, summary, totals, costs := None, [LineNumber], None, None, [];
      functions, names, current := map[], map[], None;
      pendingCall, bodyStarted, partSeen, threadSeen := false, false, false, false;
    }

    method CostLine(fields: seq<Field>) returns (ok: bool)
      requires Consistent(Now())
      modifies this
      ensures ok <==> StepCost(old(Now()), fields).Some?
      ensures ok ==> Now() == StepCost(old(Now()), fields).value
    {
      hide EventCosts, IndexOf, Add;
      var p := |positions|;
      if events.None? || current.None? {
        return false;
      }
      if |fields| < p {
        return false;
      }
      if exists i :: 0 <= i < p && !IsPosition(fields[i]) {
        return false;
      }
      var values := EventCosts(events, fields[p..]);
      if values.None? {
        return false;
      }
      bodyStarted := true;
      if pendingCall {
        pendingCall := false;
        return true;
      }
      costs := Add(costs, values.value);
      var f := current.value;
      var ir := values.value[IndexOf(events.value, "Ir")];
      functions := functions[f := (if f in functions then functions[f] else 0) + ir];
      return true;
    }

    method HeaderLine(line: Line) returns (ok: bool)
      requires Consistent(Now()) && totals.None? && !pendingCall
      requires !line.Ignored? && !line.Cost? && !line.Name? && !line.Edge?
      modifies this
      ensures ok <==> Step(old(Now()), line).Some?
      ensures ok ==> Now() == Step(old(Now()), line).value
    {
      match line {
        case Events(declared) =>
          if events.Some? || bodyStarted || !EventsOk(declared) { return false; }
          events, costs := Some(declared), seq(|declared|, i => 0);
        case Positions(items) =>
          if bodyStarted || !PositionsOk(items) { return false; }
          positions := items;
        case Summary(fields) =>
          if summary.Some? || bodyStarted { return false; }
          summary := Some(fields);
        case Totals(fields) =>
          if |fields| == 0 { return false; }
          totals := EventCosts(events, fields);
          if totals.None? { return false; }
        case Version(supported) =>
          if !supported { return false; }
        case Part(field) =>
          if bodyStarted || partSeen || !field.Number? { return false; }
          partSeen := true;
        case Thread(field) =>
          if bodyStarted || threadSeen || !field.Number? { return false; }
          threadSeen := true;
        case Metadata =>
        case Unrecognized =>
          return false;
      }
      return true;
    }

    method OneLine(line: Line) returns (ok: bool)
      requires Consistent(Now())
      modifies this
      ensures ok <==> Step(old(Now()), line).Some?
      ensures ok ==> Now() == Step(old(Now()), line).value
    {
      if line.Ignored? {
        return true;
      }
      if totals.Some? {
        return false;
      }
      if pendingCall && !line.Cost? {
        return false;
      }
      if line.Cost? {
        ok := CostLine(line.fields);
      } else if line.Name? {
        var r := Resolve(names, line.group, line.text);
        if r.None? {
          return false;
        }
        names := r.value.1;
        if line.selects {
          current := Some(r.value.0);
        }
        return true;
      } else if line.Edge? {
        if StepEdge(Now(), line.kind, line.fields).None? {
          return false;
        }
        pendingCall := line.kind.Calls?;
        return true;
      } else {
        ok := HeaderLine(line);
      }
    }
  }

  /** parse_profile; None stands for a raised ProfileError. */
  method ParseProfile(lines: seq<Line>, complete: bool) returns (report: Option<Report>)
    ensures report == Parse(lines, complete)
  {
    if !complete {
      return None;
    }
    var p := new Parser();
    for i := 0 to |lines|
      invariant Consistent(p.Now()) && Run(p.Now(), lines[i..]) == Run(START, lines)
    {
      assert lines[i..][1..] == lines[i + 1..];
      var ok := p.OneLine(lines[i]);
      if !ok {
        return None;
      }
    }
    return Conclude(p.Now());
  }

  // ----- Costs are conserved -----

  ghost function Sum(m: map<string, nat>): nat {
    if m == map[] then 0
    else
      var k :| k in m;
      m[k] + Sum(m - {k})
  }

  lemma {:induction false} SumWithout(m: map<string, nat>, k: string)
    requires k in m
    ensures Sum(m) == m[k] + Sum(m - {k})
    decreases |m|
  {
    var j :| j in m && Sum(m) == m[j] + Sum(m - {j});
    if j != k {
      SumWithout(m - {j}, k);
      SumWithout(m - {k}, j);
      assert m - {j} - {k} == m - {k} - {j};
    }
  }

  lemma SumUpdate(m: map<string, nat>, k: string, add: nat)
    ensures Sum(m[k := (if k in m then m[k] else 0) + add]) == Sum(m) + add
  {
    var n := m[k := (if k in m then m[k] else 0) + add];
    SumWithout(n, k);
    assert n - {k} == m - {k};
    if k in m {
      SumWithout(m, k);
    } else {
      assert m - {k} == m;
    }
  }

  /** The functions' costs add up to the instruction total collected so far. */
  ghost predicate Balanced(s: State)
    requires Consistent(s)
  {
    if s.events.None? then s.functions == map[]
    else Sum(s.functions) == s.costs[IndexOf(s.events.value, "Ir")]
  }

  lemma StepBalances(s: State, line: Line)
    requires Consistent(s) && Balanced(s)
    ensures Step(s, line).Some? ==> Balanced(Step(s, line).value)
  {
    if Step(s, line).Some? && line.Cost? && !s.pendingCall {
      var values := EventCosts(s.events, line.fields[|s.positions|..]).value;
      SumUpdate(s.functions, s.current.value, values[IndexOf(s.events.value, "Ir")]);
    }
  }

  lemma {:induction false} RunBalances(s: State, lines: seq<Line>)
    requires Consistent(s) && Balanced(s)
    ensures Run(s, lines).Some? ==> Balanced(Run(s, lines).value)
    decreases |lines|
  {
    if lines != [] {
      StepBalances(s, lines[0]);
      if Step(s, lines[0]).Some? {
        RunBalances(Step(s, lines[0]).value, lines[1..]);
      }
    }
  }

  /** An accepted report attributes every self instruction to a function, and nothing below zero is left over. */
  lemma CostsAreConserved(lines: seq<Line>, complete: bool)
    requires Parse(lines, complete).Some?
    ensures var r := Parse(lines, complete).value;
      Sum(r.functions) == r.own && r.instructions == r.own + r.unattributed && r.unattributed >= 0
  {
    RunBalances(START, lines);
  }

  // ----- A cut profile is rejected -----

  lemma {:induction false} RunSplits(s: State, a: seq<Line>, b: seq<Line>)
    requires Consistent(s)
    ensures Run(s, a + b) == match Run(s, a) case None => None case Some(t) => Run(t, b)
    decreases |a|
  {
    if a == [] {
      assert a + b == b;
    } else {
      assert (a + b)[1..] == a[1..] + b;
      if Step(s, a[0]).Some? {
        RunSplits(Step(s, a[0]).value, a[1..], b);
      }
    }
  }

  /** Once the totals are read, only ignored lines may follow. */
  lemma {:induction false} NothingAfterTotals(s: State, lines: seq<Line>)
    requires Consistent(s) && s.totals.Some?
    ensures Run(s, lines) == if forall l :: l in lines ==> l.Ignored? then Some(s) else None
    decreases |lines|
  {
    if lines != [] && lines[0].Ignored? {
      NothingAfterTotals(s, lines[1..]);
      assert forall l :: l in lines <==> l == lines[0] || l in lines[1..];
    }
  }

  /** Only a totals line records totals. */
  lemma {:induction false} NoTotalsYet(s: State, lines: seq<Line>)
    requires Consistent(s) && s.totals.None? && forall l :: l in lines ==> !l.Totals?
    ensures Run(s, lines).Some? ==> Run(s, lines).value.totals.None?
    decreases |lines|
  {
    if lines != [] {
      if Step(s, lines[0]).Some? {
        NoTotalsYet(Step(s, lines[0]).value, lines[1..]);
      }
    }
  }

  /** The position of the first totals line. */
  function TotalsAt(lines: seq<Line>): (k: nat)
    ensures k <= |lines| && (k < |lines| ==> lines[k].Totals?)
    ensures forall i :: 0 <= i < k ==> !lines[i].Totals?
  {
    if lines == [] || lines[0].Totals? then 0 else 1 + TotalsAt(lines[1..])
  }

  lemma CutTooEarly(lines: seq<Line>, k: nat)
    requires k <= TotalsAt(lines)
    ensures Parse(lines[..k], true) == None
  {
    forall l | l in lines[..k]
      ensures !l.Totals?
    {
      var i :| 0 <= i < k && lines[i] == l;
    }
    NoTotalsYet(START, lines[..k]);
  }

  lemma {:induction false} TotalsStay(s: State, lines: seq<Line>, t: nat)
    requires Consistent(s) && Run(s, lines).Some? && t < |lines| && lines[t].Totals?
    ensures Run(s, lines).value.totals.Some?
    decreases |lines|
  {
    var u := Step(s, lines[0]).value;
    if t == 0 {
      NothingAfterTotals(u, lines[1..]);
    } else {
      TotalsStay(u, lines[1..], t - 1);
    }
  }

  lemma CutLateEnough(lines: seq<Line>, k: nat)
    requires Parse(lines, true).Some? && TotalsAt(lines) < k <= |lines|
    ensures Parse(lines[..k], true) == Parse(lines, true)
  {
    var first, rest := lines[..k], lines[k..];
    assert lines == first + rest;
    RunSplits(START, first, rest);
    TotalsStay(START, first, TotalsAt(lines));
    NothingAfterTotals(Run(START, first).value, rest);
  }

  /** A file cut behind its first k lines, or within the next, of which something else may then be read. */
  function CutAt(lines: seq<Line>, k: nat, begun: Option<Line>): seq<Line>
    requires k <= |lines|
  {
    lines[..k] + if begun.Some? then [begun.value] else []
  }

  /**
   * A cut of an accepted profile is accepted exactly when it falls between lines and behind the
   * totals line, however an unfinished line would read; what it then says is unchanged.
   */
  lemma CutsAreRejected(lines: seq<Line>, k: nat, begun: Option<Line>)
    requires Parse(lines, true).Some? && k <= |lines|
    ensures Parse(CutAt(lines, k, begun), begun.None?).Some? <==> begun.None? && k > TotalsAt(lines)
    ensures begun.None? && k > TotalsAt(lines) ==> Parse(CutAt(lines, k, begun), true) == Parse(lines, true)
  {
    assert lines[..k] + [] == lines[..k];
    if k <= TotalsAt(lines) {
      CutTooEarly(lines, k);
    } else {
      CutLateEnough(lines, k);
    }
  }

  // ----- Call edges are never counted -----

  /** The lines without call associations and the cost line each is followed by. */
  function WithoutEdges(lines: seq<Line>, pending: bool): seq<Line> {
    if lines == [] then []
    else if lines[0].Edge? && lines[0].kind.Calls? then WithoutEdges(lines[1..], true)
    else if lines[0].Cost? && pending then WithoutEdges(lines[1..], false)
    else [lines[0]] + WithoutEdges(lines[1..], pending)
  }

  /** Same state but for the pending call, and perhaps without a started body. */
  ghost predicate SameCosts(s: State, t: State) {
    t == s.(pendingCall := false, bodyStarted := t.bodyStarted) && (t.bodyStarted ==> s.bodyStarted)
  }

  lemma EdgeStep(s: State, t: State, line: Line)
    requires Consistent(s) && Consistent(t) && SameCosts(s, t) && Step(s, line).Some?
    ensures var u := Step(s, line).value;
      if line.Edge? && line.kind.Calls? then SameCosts(u, t) && u.pendingCall
      else if line.Cost? && s.pendingCall then SameCosts(u, t) && !u.pendingCall
      else Step(t, line).Some? && SameCosts(u, Step(t, line).value) && u.pendingCall == s.pendingCall
  {
  }

  lemma {:induction false} EdgesDoNotMatter(s: State, t: State, lines: seq<Line>)
    requires Consistent(s) && Consistent(t) && SameCosts(s, t) && Run(s, lines).Some?
    ensures Run(t, WithoutEdges(lines, s.pendingCall)).Some?
    ensures SameCosts(Run(s, lines).value, Run(t, WithoutEdges(lines, s.pendingCall)).value)
    decreases |lines|
  {
    if lines != [] {
      var line := lines[0];
      var u := Step(s, line).value;
      EdgeStep(s, t, line);
      if (line.Edge? && line.kind.Calls?) || (line.Cost? && s.pendingCall) {
        EdgesDoNotMatter(u, t, lines[1..]);
      } else {
        EdgesDoNotMatter(u, Step(t, line).value, lines[1..]);
        assert ([line] + WithoutEdges(lines[1..], s.pendingCall))[1..] == WithoutEdges(lines[1..], s.pendingCall);
      }
    }
  }

  /** Removing every call association together with its cost line changes nothing in the report. */
  lemma CallEdgesAreNotCounted(lines: seq<Line>)
    requires Parse(lines, true).Some?
    ensures Parse(WithoutEdges(lines, false), true) == Parse(lines, true)
  {
    EdgesDoNotMatter(START, START, lines);
  }

  // ----- Name compression is only an abbreviation -----

  /** The name table after one line. */
  function TableAfter(names: map<(Group, string), string>, line: Line): map<(Group, string), string> {
    if line.Name? && Resolve(names, line.group, line.text).Some?
    then Resolve(names, line.group, line.text).value.1
    else names
  }

  /** Every name line written out in full. */
  function WrittenOut(names: map<(Group, string), string>, lines: seq<Line>): seq<Line>
    decreases |lines|
  {
    if lines == [] then []
    else [WrittenLine(names, lines[0])] + WrittenOut(TableAfter(names, lines[0]), lines[1..])
  }

  /** No name the profile resolves looks like a compressed name itself. */
  predicate Unambiguous(names: map<(Group, string), string>, lines: seq<Line>)
    decreases |lines|
  {
    lines == []
    || ((lines[0].Name? && Resolve(names, lines[0].group, lines[0].text).Some? ==>
           !LooksCompressed(Resolve(names, lines[0].group, lines[0].text).value.0))
        && Unambiguous(TableAfter(names, lines[0]), lines[1..]))
  }

  function WrittenLine(names: map<(Group, string), string>, line: Line): Line {
    if line.Name? && Resolve(names, line.group, line.text).Some?
    then line.(text := Resolve(names, line.group, line.text).value.0)
    else line
  }

  ghost predicate NamesSpelled(s: State) {
    forall k :: k in s.names ==> s.names[k] != ""
  }

  lemma WrittenStep(s: State, t: State, line: Line)
    requires Consistent(s) && Consistent(t) && t == s.(names := t.names)
    requires NamesSpelled(s) && Step(s, line).Some?
    requires line.Name? ==> !LooksCompressed(Resolve(s.names, line.group, line.text).value.0)
    ensures NamesSpelled(Step(s, line).value) && Step(s, line).value.names == TableAfter(s.names, line)
    ensures var u := Step(t, WrittenLine(s.names, line));
      u.Some? && u.value == Step(s, line).value.(names := t.names)
  {
    if line.Name? {
      WrittenName(s.names, t.names, line.group, line.text);
    } else {
      NamesOnlyMatterToNames(s, t, line);
    }
  }

  lemma WrittenName(
    names: map<(Group, string), string>, others: map<(Group, string), string>, group: Group, text: string)
    requires Resolve(names, group, text).Some? && forall k :: k in names ==> names[k] != ""
    requires !LooksCompressed(Resolve(names, group, text).value.0)
    ensures Resolve(others, group, Resolve(names, group, text).value.0)
         == Some((Resolve(names, group, text).value.0, others))
    ensures forall k :: k in Resolve(names, group, text).value.1 ==> Resolve(names, group, text).value.1[k] != ""
  {
    assert Resolve(names, group, text).value.0 != "";
  }

  lemma NamesOnlyMatterToNames(s: State, t: State, line: Line)
    requires Consistent(s) && Consistent(t) && t == s.(names := t.names)
    requires !line.Name? && Step(s, line).Some?
    ensures Step(s, line).value.names == s.names
    ensures Step(t, line) == Some(Step(s, line).value.(names := t.names))
  {
    hide EventCosts, IndexOf, Add, EventsOk, PositionsOk, IsPosition, Resolve;
  }

  lemma {:induction false} WritingOutKeepsRuns(s: State, t: State, lines: seq<Line>)
    requires Consistent(s) && Consistent(t) && t == s.(names := t.names)
    requires NamesSpelled(s) && Unambiguous(s.names, lines) && Run(s, lines).Some?
    ensures var u := Run(t, WrittenOut(s.names, lines));
      u.Some? && u.value == Run(s, lines).value.(names := t.names)
    decreases |lines|
  {
    if lines != [] {
      var line, rest := lines[0], lines[1..];
      var u := Step(s, line).value;
      WrittenStep(s, t, line);
      WritingOutKeepsRuns(u, u.(names := t.names), rest);
      RunCons(t, WrittenLine(s.names, line), u.(names := t.names), WrittenOut(u.names, rest));
    }
  }

  lemma RunCons(t: State, line: Line, u: State, rest: seq<Line>)
    requires Consistent(t) && Consistent(u) && Step(t, line) == Some(u)
    ensures Run(t, [line] + rest) == Run(u, rest)
  {
    assert ([line] + rest)[1..] == rest;
  }

  /** Writing every compressed name out leaves the report unchanged. */
  lemma CompressionIsOnlyAbbreviation(lines: seq<Line>)
    requires Parse(lines, true).Some? && Unambiguous(map[], lines)
    ensures Parse(WrittenOut(map[], lines), true) == Parse(lines, true)
  {
    WritingOutKeepsRuns(START, START, lines);
  }

  predicate AllDigits(t: string) {
    forall i :: 0 <= i < |t| ==> Digit(t[i])
  }

  predicate AllBlanks(t: string) {
    forall i :: 0 <= i < |t| ==> Blank(t[i])
  }

  lemma {:induction false} DigitsEnd(id: string, rest: string)
    requires AllDigits(id) && (rest == "" || !Digit(rest[0]))
    ensures Digits(id + rest) == |id|
    decreases |id|
  {
    if id == "" {
      assert id + rest == rest;
    } else {
      assert (id + rest)[1..] == id[1..] + rest;
      DigitsEnd(id[1..], rest);
    }
  }

  lemma {:induction false} BlanksEnd(blanks: string, rest: string)
    requires AllBlanks(blanks) && (rest == "" || !Blank(rest[0]))
    ensures Blanks(blanks + rest) == |blanks|
    decreases |blanks|
  {
    if blanks == "" {
      assert blanks + rest == rest;
    } else {
      assert (blanks + rest)[1..] == blanks[1..] + rest;
      BlanksEnd(blanks[1..], rest);
    }
  }

  lemma {:induction false} DigitsAreDigits(t: string)
    ensures AllDigits(t[..Digits(t)])
  {
    if t != "" && Digit(t[0]) {
      DigitsAreDigits(t[1..]);
      assert t[..Digits(t)] == [t[0]] + t[1..][..Digits(t[1..])];
    }
  }

  lemma {:induction false} BlanksAreBlanks(t: string)
    ensures AllBlanks(t[..Blanks(t)])
  {
    if t != "" && Blank(t[0]) {
      BlanksAreBlanks(t[1..]);
      assert t[..Blanks(t)] == [t[0]] + t[1..][..Blanks(t[1..])];
    }
  }

  function Spelled(id: string, blanks: string, name: string): string {
    ['('] + (id + ([')'] + (blanks + name)))
  }

  /** A number in parentheses, alone or before blanks and a name, reads as just that. */
  lemma ReadsCompressed(id: string, blanks: string, name: string)
    requires id != "" && AllDigits(id) && AllBlanks(blanks) && (name == "" || !Blank(name[0]))
    ensures Read(Spelled(id, blanks, name))
         == if blanks + name == "" then Compressed(id, None)
            else if blanks == "" then Broken else Compressed(id, Some(name))
  {
    hide Digits, Blanks, Spelled;
    var t, rest := Spelled(id, blanks, name), [')'] + (blanks + name);
    SpelledPieces(id, blanks, name);
    assert Digit(id[0]);
    DigitsEnd(id, rest);
    BlanksEnd(blanks, name);
  }

  lemma SpelledPieces(id: string, blanks: string, name: string)
    requires id != ""
    ensures var t, rest := Spelled(id, blanks, name), [')'] + (blanks + name);
      && |t| == 2 + |id| + |blanks| + |name| && t[0] == '(' && t[1] == id[0] && t[1..] == id + rest
      && t[1..1 + |id|] == id && t[1 + |id|..] == rest
      && rest[1..] == blanks + name && rest[1 + |blanks|..] == name
  {
  }

  /** Whatever reads as a number in parentheses is spelled so. */
  lemma CompressedIsSpelled(t: string) returns (blanks: string)
    requires Read(t).Compressed?
    ensures Read(t).id != "" && AllDigits(Read(t).id) && AllBlanks(blanks)
    ensures match Read(t).definition
      case None => t == Spelled(Read(t).id, "", "")
      case Some(name) => t == Spelled(Read(t).id, blanks, name) && blanks != ""
  {
    var n := Digits(t[1..]);
    var id, rest := t[1..1 + n], t[1 + n..];
    var m := Blanks(rest[1..]);
    blanks := rest[1..][..m];
    DigitsAreDigits(t[1..]);
    BlanksAreBlanks(rest[1..]);
    assert t[1..][..n] == id && rest[1 + m..] == rest[1..][m..];
    Pieces(t, n, m);
  }

  lemma Pieces(t: string, n: nat, m: nat)
    requires 1 + n < |t| && t[0] == '(' && t[1 + n] == ')' && m <= |t[1 + n..][1..]|
    ensures var rest := t[1 + n..][1..]; t == Spelled(t[1..1 + n], rest[..m], rest[m..])
    ensures |t| == 2 + n ==> t == Spelled(t[1..1 + n], "", "")
  {
    var rest := t[1 + n..][1..];
    assert rest == rest[..m] + rest[m..];
    assert t[1 + n..] == [')'] + rest;
    assert t == ['('] + (t[1..1 + n] + t[1 + n..]);
  }

  lemma ReadsDefinition(d: char, name: string)
    requires Digit(d) && name != "" && !Blank(name[0])
    ensures Read(['(', d, ')', ' '] + name) == Compressed([d], Some(name))
  {
    ReadsCompressed([d], " ", name);
    assert Spelled([d], " ", name) == ['(', d, ')', ' '] + name;
  }

  /** A defined name may itself read as compressed: written out, the line then stands for another function. */
  lemma AmbiguousDefinition(names: map<(Group, string), string>, group: Group, d: char, e: char, name: string)
    requires Digit(d) && Digit(e) && name != "" && !Blank(name[0])
    requires (group, [d]) !in names && (group, [e]) !in names
    ensures var written := ['(', e, ')', ' '] + name;
      var original := Resolve(names, group, ['(', d, ')', ' '] + written);
      && original.Some? && original.value.0 == written && LooksCompressed(written)
      && Resolve(names, group, written).Some? && Resolve(names, group, written).value.0 == name != written
  {
    ReadsDefinition(e, name);
    ReadsDefinition(d, ['(', e, ')', ' '] + name);
    assert |['(', e, ')', ' '] + name| == 4 + |name|;
  }

  // ----- The condition is exact -----

  /** The name table only ever grows. */
  lemma {:induction false} TableGrows(s: State, lines: seq<Line>)
    requires Consistent(s) && Run(s, lines).Some?
    ensures s.names.Keys <= Run(s, lines).value.names.Keys
    decreases |lines|
  {
    if lines != [] {
      StepGrows(s, lines[0]);
      TableGrows(Step(s, lines[0]).value, lines[1..]);
    }
  }

  lemma StepGrows(s: State, line: Line)
    requires Consistent(s) && Step(s, line).Some?
    ensures s.names.Keys <= Step(s, line).value.names.Keys
  {
  }

  /** Read with an empty table, a name that looks compressed fails or defines something. */
  lemma CompressedDefines(group: Group, name: string)
    requires LooksCompressed(name)
    ensures Resolve(map[], group, name).Some? ==> Resolve(map[], group, name).value.1.Keys != {}
  {
    if Resolve(map[], group, name).Some? {
      var id := Read(name).id;
      assert (group, id) in Resolve(map[], group, name).value.1.Keys;
    }
  }

  /** An ambiguous line, written out, fails or leaves a table behind. */
  lemma AmbiguousStep(t: State, line: Line, rest: seq<Line>)
    requires Consistent(t) && t.names == map[] && line.Name? && LooksCompressed(line.text)
    ensures Run(t, [line] + rest).Some? ==> Run(t, [line] + rest).value.names != map[]
  {
    CompressedDefines(line.group, line.text);
    assert ([line] + rest)[1..] == rest;
    if Step(t, line).Some? && Run(t, [line] + rest).Some? {
      var u := Step(t, line).value;
      assert u.names.Keys != {};
      TableGrows(u, rest);
    }
  }

  /**
   * A run over the written-out lines, without a table, ends like the original run exactly when no
   * name along it looks compressed.
   */
  lemma {:induction false} WritingOutIsExact(s: State, lines: seq<Line>)
    requires Consistent(s) && NamesSpelled(s) && Run(s, lines).Some?
    ensures Run(s.(names := map[]), WrittenOut(s.names, lines)) == Some(Run(s, lines).value.(names := map[]))
       <==> Unambiguous(s.names, lines)
    decreases |lines|
  {
    if lines != [] {
      var line, rest, t := lines[0], lines[1..], s.(names := map[]);
      var u := Step(s, line).value;
      if line.Name? && LooksCompressed(Resolve(s.names, line.group, line.text).value.0) {
        AmbiguousStep(t, WrittenLine(s.names, line), WrittenOut(TableAfter(s.names, line), rest));
      } else {
        WrittenStep(s, t, line);
        WritingOutIsExact(u, rest);
        RunCons(t, WrittenLine(s.names, line), u.(names := map[]), WrittenOut(u.names, rest));
      }
    }
  }

  /** The same for a whole profile. */
  lemma CompressionIsExactlyAbbreviation(lines: seq<Line>)
    requires Run(START, lines).Some?
    ensures Run(START, WrittenOut(map[], lines)) == Some(Run(START, lines).value.(names := map[]))
       <==> Unambiguous(map[], lines)
  {
    WritingOutIsExact(START, lines);
  }

  /** A complete profile of one function, spelled so, that costs n instructions. */
  function OneFunction(text: string, n: nat): seq<Line> {
    [Events(["Ir"])]
    + ([Name(FunctionNames, true, text)] + ([Cost([Number(1), Number(n)])] + ([Totals([Number(n)])] + [])))
  }

  lemma OneEvent(n: nat)
    ensures EventCosts(Some(["Ir"]), [Number(n)]) == Some([n])
    ensures Step(START, Events(["Ir"])) == Some(START.(events := Some(["Ir"]), costs := [0]))
  {
    var names := ["Ir"];
    assert names[0] == "Ir" && "Ir" in names && EventsOk(names);
    assert seq(|names|, i => 0) == [0];
    var fields := [Number(n)];
    assert forall f :: f in fields ==> f.Number?;
    var values := EventCosts(Some(names), fields);
    assert values.Some? && |values.value| == 1 && values.value[0] == n;
    assert values.value == [n];
  }

  lemma OneFunctionParses(text: string, n: nat)
    requires Resolve(map[], FunctionNames, text).Some?
    ensures Parse(OneFunction(text, n), true)
         == Some(Report(n, n, 0, map[Resolve(map[], FunctionNames, text).value.0 := n]))
  {
    var (name, table) := Resolve(map[], FunctionNames, text).value;
    var a := START.(events := Some(["Ir"]), costs := [0]);
    var b := a.(names := table, current := Some(name));
    var c := b.(bodyStarted := true, costs := [n], functions := map[name := n]);
    var d := c.(totals := Some([n]));
    assert IndexOf(["Ir"], "Ir") == 0;
    OneEvent(n);
    assert [Number(1), Number(n)][1..] == [Number(n)];
    assert Add([0], [n]) == [n];
    RunCons(START, Events(["Ir"]), a,
      [Name(FunctionNames, true, text)] + ([Cost([Number(1), Number(n)])] + ([Totals([Number(n)])] + [])));
    RunCons(a, Name(FunctionNames, true, text), b, [Cost([Number(1), Number(n)])] + ([Totals([Number(n)])] + []));
    RunCons(b, Cost([Number(1), Number(n)]), c, [Totals([Number(n)])] + []);
    RunCons(c, Totals([Number(n)]), d, []);
  }

  /** An accepted profile whose report changes when its one name is written out. */
  lemma AmbiguousReportChanges(d: char, e: char, name: string, n: nat)
    requires Digit(d) && Digit(e) && name != "" && !Blank(name[0])
    ensures var written := ['(', e, ')', ' '] + name;
      var lines := OneFunction(['(', d, ')', ' '] + written, n);
      && Parse(lines, true) == Some(Report(n, n, 0, map[written := n]))
      && Parse(WrittenOut(map[], lines), true) == Some(Report(n, n, 0, map[name := n]))
      && Parse(WrittenOut(map[], lines), true) != Parse(lines, true)
  {
    var written := ['(', e, ')', ' '] + name;
    var text := ['(', d, ')', ' '] + written;
    AmbiguousDefinition(map[], FunctionNames, d, e, name);
    OneFunctionParses(text, n);
    OneFunctionParses(written, n);
    WrittenOneFunction(text, n);
    assert name in map[name := n] && name !in map[written := n];
  }

  lemma WrittenOneFunction(text: string, n: nat)
    requires Resolve(map[], FunctionNames, text).Some?
    ensures WrittenOut(map[], OneFunction(text, n)) == OneFunction(Resolve(map[], FunctionNames, text).value.0, n)
  {
    var (name, table) := Resolve(map[], FunctionNames, text).value;
    var l3 := [Totals([Number(n)])] + [];
    var l2 := [Cost([Number(1), Number(n)])] + l3;
    var l1 := [Name(FunctionNames, true, text)] + l2;
    assert OneFunction(text, n)[1..] == l1 && l1[1..] == l2 && l2[1..] == l3 && l3[1..] == [];
    assert WrittenOut(table, l3) == l3;
    assert WrittenOut(table, l2) == l2;
    assert WrittenOut(map[], l1) == [Name(FunctionNames, true, name)] + l2;
  }
}
