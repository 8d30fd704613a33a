/**
 * What a Callgrind profile says (scripts/callgrind_report.py), read off its lines: which line each
 * declaration, name and cost refers to. The parser's runs and reports are exactly this reading.
 */
module ProfileMeaning {
  import opened Tlv
  import opened Profile

  // ----- What stands in front of a line -----

  /** The events declared before line k. */
  function EventsBefore(lines: seq<Line>, k: nat): Option<seq<string>>
    requires k <= |lines|
  {
    if k == 0 then None
    else if lines[k - 1].Events? then Some(lines[k - 1].names) else EventsBefore(lines, k - 1)
  }

  /** The position columns in force at line k. */
  function PositionsBefore(lines: seq<Line>, k: nat): seq<Position>
    requires k <= |lines|
  {
    if k == 0 then [LineNumber]
    else if lines[k - 1].Positions? then lines[k - 1].items else PositionsBefore(lines, k - 1)
  }

  function SummaryBefore(lines: seq<Line>, k: nat): Option<seq<Field>>
    requires k <= |lines|
  {
    if k == 0 then None
    else if lines[k - 1].Summary? then Some(lines[k - 1].fields) else SummaryBefore(lines, k - 1)
  }

  function TotalsBefore(lines: seq<Line>, k: nat): Option<seq<Field>>
    requires k <= |lines|
  {
    if k == 0 then None
    else if lines[k - 1].Totals? then Some(lines[k - 1].fields) else TotalsBefore(lines, k - 1)
  }

  /** The last line that matters is a call association. */
  predicate CallPending(lines: seq<Line>, k: nat)
    requires k <= |lines|
  {
    k > 0 && if lines[k - 1].Ignored? then CallPending(lines, k - 1) else lines[k - 1].Edge? && lines[k - 1].kind.Calls?
  }

  predicate Begun(lines: seq<Line>, k: nat)
    requires k <= |lines|
  {
    exists j :: 0 <= j < k && lines[j].Cost?
  }

  predicate Numbered(lines: seq<Line>, k: nat)
    requires k <= |lines|
  {
    exists j :: 0 <= j < k && lines[j].Part?
  }

  predicate Threaded(lines: seq<Line>, k: nat)
    requires k <= |lines|
  {
    exists j :: 0 <= j < k && lines[j].Thread?
  }

  /** The text defines this number. */
  predicate Defines(text: string, id: string) {
    var t := Read(text);
    t.Compressed? && t.id == id && t.definition.Some?
  }

  /** The name last given to a number of a group before line k. */
  function DefinedAs(lines: seq<Line>, k: nat, group: Group, id: string): Option<string>
    requires k <= |lines|
  {
    if k == 0 then None
    else if lines[k - 1].Name? && lines[k - 1].group == group && Defines(lines[k - 1].text, id) then
      Read(lines[k - 1].text).definition
    else DefinedAs(lines, k - 1, group, id)
  }

  /** The name that a name line at k stands for. */
  function Meant(lines: seq<Line>, k: nat, group: Group, text: string): Option<string>
    requires k <= |lines|
  {
    match Read(text)
    case Plain(name) => Some(name)
    case Compressed(_, Some(name)) => Some(name)
    case Compressed(id, None) => DefinedAs(lines, k, group, id)
    case _ => None
  }

  /** The function that costs at line k belong to: the nearest selecting name line says. */
  function CurrentAt(lines: seq<Line>, k: nat): Option<string>
    requires k <= |lines|
  {
    if k == 0 then None
    else if lines[k - 1].Name? && lines[k - 1].selects then Meant(lines, k - 1, lines[k - 1].group, lines[k - 1].text)
    else CurrentAt(lines, k - 1)
  }

  // ----- Costs -----

  /** A field's number; missing counters are zero. */
  function At(fields: seq<Field>, i: nat): nat {
    if i < |fields| && fields[i].Number? then fields[i].n else 0
  }

  /** A cost line that is not the inclusive cost of a call. */
  predicate Counted(lines: seq<Line>, k: nat)
    requires k < |lines|
  {
    lines[k].Cost? && !CallPending(lines, k)
  }

  /** The counter in one event column, behind the position columns. */
  function CounterOf(lines: seq<Line>, k: nat, column: nat): nat
    requires k < |lines| && lines[k].Cost?
  {
    At(lines[k].fields, |PositionsBefore(lines, k)| + column)
  }

  /** The self cost of the first k lines in one event column. */
  function SelfCost(lines: seq<Line>, k: nat, column: nat): nat
    requires k <= |lines|
  {
    if k == 0 then 0
    else SelfCost(lines, k - 1, column) + if Counted(lines, k - 1) then CounterOf(lines, k - 1, column) else 0
  }

  /** Line k counts for this function. */
  predicate Credits(lines: seq<Line>, k: nat, g: string)
    requires k < |lines|
  {
    Counted(lines, k) && CurrentAt(lines, k) == Some(g)
  }

  predicate Credited(lines: seq<Line>, k: nat, g: string)
    requires k <= |lines|
  {
    exists j :: 0 <= j < k && Credits(lines, j, g)
  }

  /** The self cost of one function in the first k lines. */
  function CostOf(lines: seq<Line>, k: nat, g: string, column: nat): nat
    requires k <= |lines|
  {
    if k == 0 then 0
    else CostOf(lines, k - 1, g, column) + if Credits(lines, k - 1, g) then CounterOf(lines, k - 1, column) else 0
  }

  // ----- Which profiles are accepted -----

  predicate AllNumbers(fields: seq<Field>, from: nat, to: nat)
    requires from <= to <= |fields|
  {
    forall i :: from <= i < to ==> fields[i].Number?
  }

  predicate AllPositions(fields: seq<Field>, from: nat, to: nat)
    requires from <= to <= |fields|
  {
    forall i :: from <= i < to ==> fields[i].Number? || fields[i].Relative?
  }

  /** Counters for these events. */
  predicate Fits(events: Option<seq<string>>, fields: seq<Field>, from: nat)
    requires from <= |fields|
  {
    events.Some? && |fields| - from <= |events.value| && AllNumbers(fields, from, |fields|)
  }

  function Rank(p: Position): nat {
    match p case Instr => 0 case BasicBlock => 1 case LineNumber => 2
  }

  /** Line k may stand where it does. */
  predicate Permitted(lines: seq<Line>, k: nat)
    requires k < |lines|
  {
    var p := |PositionsBefore(lines, k)|;
    || lines[k].Ignored?
    || (TotalsBefore(lines, k).None? && (CallPending(lines, k) ==> lines[k].Cost?)
        && match lines[k]
           case Cost(fields) =>
             && CurrentAt(lines, k).Some? && p <= |fields|
             && AllPositions(fields, 0, p) && Fits(EventsBefore(lines, k), fields, p)
           case Name(group, _, text) => NamePermitted(lines, k, group, text)
           case Edge(kind, fields) =>
             var counts := if kind.ConditionalJump? then 2 else 1;
             |fields| == counts + p && AllNumbers(fields, 0, counts) && AllPositions(fields, counts, |fields|)
           case Events(names) =>
             && EventsBefore(lines, k).None? && !Begun(lines, k) && "Ir" in names
             && forall i, j :: 0 <= i < j < |names| ==> names[i] != names[j]
           case Positions(items) =>
             && !Begun(lines, k) && items != []
             && forall i, j :: 0 <= i < j < |items| ==> Rank(items[i]) < Rank(items[j])
           case Summary(_) => SummaryBefore(lines, k).None? && !Begun(lines, k)
           case Totals(fields) => fields != [] && Fits(EventsBefore(lines, k), fields, 0)
           case Version(supported) => supported
           case Part(field) => !Begun(lines, k) && !Numbered(lines, k) && field.Number?
           case Thread(field) => !Begun(lines, k) && !Threaded(lines, k) && field.Number?
           case Metadata => true
           case Unrecognized => false)
  }

  /** A name line names something, and does not give a number a second name. */
  predicate NamePermitted(lines: seq<Line>, k: nat, group: Group, text: string)
    requires k <= |lines|
  {
    && Meant(lines, k, group, text).Some? && Meant(lines, k, group, text) != Some("")
    && (Read(text).Compressed? ==>
        DefinedAs(lines, k, group, Read(text).id) in {None, Meant(lines, k, group, text)})
  }

  /** Every line is permitted, and totals and summary bear out the costs. */
  predicate Acceptable(lines: seq<Line>) {
    var n := |lines|;
    var events, totals, summary := EventsBefore(lines, n), TotalsBefore(lines, n), SummaryBefore(lines, n);
    && (forall k :: 0 <= k < n ==> Permitted(lines, k))
    && !CallPending(lines, n) && events.Some? && totals.Some?
    && (forall c :: 0 <= c < |events.value| ==> SelfCost(lines, n, c) == At(totals.value, c))
    && (summary.Some? ==>
        && Fits(events, summary.value, 0)
        && forall c :: 0 <= c < |events.value| ==> SelfCost(lines, n, c) <= At(summary.value, c))
  }

  // ----- The parser's state is this reading -----

  ghost predicate NamesMean(lines: seq<Line>, k: nat, names: map<(Group, string), string>)
    requires k <= |lines|
  {
    && (forall group, id :: (group, id) in names <==> DefinedAs(lines, k, group, id).Some?)
    && (forall group, id :: (group, id) in names ==> Some(names[(group, id)]) == DefinedAs(lines, k, group, id))
    && (forall key :: key in names ==> names[key] != "")
  }

  ghost predicate CostsMean(lines: seq<Line>, k: nat, s: State)
    requires k <= |lines| && Consistent(s)
  {
    if s.events.None? then s.costs == []
    else forall c :: 0 <= c < |s.costs| ==> s.costs[c] == SelfCost(lines, k, c)
  }

  ghost predicate FunctionsMean(lines: seq<Line>, k: nat, s: State)
    requires k <= |lines| && Consistent(s)
  {
    && (forall g :: g in s.functions <==> Credited(lines, k, g))
    && (forall g :: g in s.functions ==>
          s.events.Some? && s.functions[g] == CostOf(lines, k, g, IndexOf(s.events.value, "Ir")))
  }

  ghost predicate TotalsMean(lines: seq<Line>, k: nat, s: State)
    requires k <= |lines|
  {
    && (s.totals.Some? <==> TotalsBefore(lines, k).Some?)
    && (s.totals.Some? ==>
        && s.events.Some? && |s.totals.value| == |s.events.value|
        && forall c :: 0 <= c < |s.totals.value| ==> s.totals.value[c] == At(TotalsBefore(lines, k).value, c))
  }

  ghost predicate HeadersMean(lines: seq<Line>, k: nat, s: State)
    requires k <= |lines|
  {
    && s.events == EventsBefore(lines, k) && s.positions == PositionsBefore(lines, k)
    && s.summary == SummaryBefore(lines, k)
    && (s.bodyStarted <==> Begun(lines, k))
    && (s.partSeen <==> Numbered(lines, k)) && (s.threadSeen <==> Threaded(lines, k))
  }

  /** The state after the first k lines. */
  ghost predicate Means(lines: seq<Line>, k: nat, s: State)
    requires k <= |lines|
  {
    && Consistent(s) && HeadersMean(lines, k, s)
    && s.current == CurrentAt(lines, k) && s.pendingCall == CallPending(lines, k)
    && NamesMean(lines, k, s.names) && CostsMean(lines, k, s) && FunctionsMean(lines, k, s) && TotalsMean(lines, k, s)
    && (s.functions != map[] ==> s.bodyStarted)
  }

  lemma CounterValues(events: Option<seq<string>>, fields: seq<Field>, p: nat)
    requires p <= |fields|
    ensures EventCosts(events, fields[p..]).Some? <==> Fits(events, fields, p)
    ensures Fits(events, fields, p) ==>
      var values := EventCosts(events, fields[p..]).value;
      |values| == |events.value| && forall c :: 0 <= c < |values| ==> values[c] == At(fields, p + c)
  {
    var rest := fields[p..];
    if forall i :: 0 <= i < |rest| ==> rest[i].Number? {
      forall i | p <= i < |fields|
        ensures fields[i].Number?
      {
        assert rest[i - p].Number?;
      }
    }
    if AllNumbers(fields, p, |fields|) {
      assert forall i :: 0 <= i < |rest| ==> rest[i] == fields[p + i] && rest[i].Number?;
    }
  }

  lemma {:induction false} NothingCounted(lines: seq<Line>, k: nat, c: nat)
    requires k <= |lines| && !Begun(lines, k)
    ensures SelfCost(lines, k, c) == 0
    decreases k
  {
    if k > 0 {
      NothingCounted(lines, k - 1, c);
    }
  }

  /** What is in force behind a line. */
  lemma HeadersKept(lines: seq<Line>, k: nat)
    requires k < |lines|
    ensures Begun(lines, k + 1) <==> Begun(lines, k) || lines[k].Cost?
    ensures Numbered(lines, k + 1) <==> Numbered(lines, k) || lines[k].Part?
    ensures Threaded(lines, k + 1) <==> Threaded(lines, k) || lines[k].Thread?
  {
  }

  lemma Credit(lines: seq<Line>, k: nat, g: string)
    requires k < |lines|
    ensures Credited(lines, k + 1, g) <==> Credited(lines, k, g) || Credits(lines, k, g)
  {
  }

  lemma {:induction false} UncreditedCostsNothing(lines: seq<Line>, k: nat, g: string, c: nat)
    requires k <= |lines| && !Credited(lines, k, g)
    ensures CostOf(lines, k, g, c) == 0
    decreases k
  {
    if k > 0 {
      assert !Credits(lines, k - 1, g);
      UncreditedCostsNothing(lines, k - 1, g, c);
    }
  }

  lemma RankTells(p: Position)
    ensures p == [Instr, BasicBlock, LineNumber][Rank(p)]
  {
    match p
    case Instr =>
    case BasicBlock =>
    case LineNumber =>
  }

  lemma {:induction false} RankAtLeast(items: seq<Position>, i: nat)
    requires i < |items| && forall a, b :: 0 <= a < b < |items| ==> Rank(items[a]) < Rank(items[b])
    ensures Rank(items[i]) >= i
  {
    if i > 0 {
      RankAtLeast(items, i - 1);
    }
  }

  /** The positions a header may declare. */
  lemma PositionsAreRanked(items: seq<Position>)
    ensures PositionsOk(items) <==>
      items != [] && forall i, j :: 0 <= i < j < |items| ==> Rank(items[i]) < Rank(items[j])
  {
    if items != [] && forall i, j :: 0 <= i < j < |items| ==> Rank(items[i]) < Rank(items[j]) {
      RankAtLeast(items, |items| - 1);
      if |items| == 1 {
        assert items == [items[0]];
        RankTells(items[0]);
      } else if |items| == 2 {
        assert items == [items[0], items[1]] && Rank(items[0]) < Rank(items[1]);
        RankTells(items[0]);
        RankTells(items[1]);
      } else {
        assert items == [items[0], items[1], items[2]] && Rank(items[0]) < Rank(items[1]) < Rank(items[2]);
        RankTells(items[0]);
        RankTells(items[1]);
        RankTells(items[2]);
      }
    }
  }

  // ----- One line -----

  /** Resolving a name finds what it means. */
  lemma ResolvesToMeaning(lines: seq<Line>, k: nat, names: map<(Group, string), string>, group: Group, text: string)
    requires k <= |lines| && NamesMean(lines, k, names)
    ensures var r := Resolve(names, group, text);
      && (r.Some? <==> NamePermitted(lines, k, group, text))
      && (r.Some? ==> Some(r.value.0) == Meant(lines, k, group, text))
  {
  }

  lemma NameDefined(lines: seq<Line>, k: nat, names: map<(Group, string), string>)
    requires k < |lines| && NamesMean(lines, k, names) && lines[k].Name?
    requires Resolve(names, lines[k].group, lines[k].text).Some?
    ensures NamesMean(lines, k + 1, Resolve(names, lines[k].group, lines[k].text).value.1)
  {
  }

  /** A line that is not a cost line leaves the costs as they are. */
  lemma CostsKept(lines: seq<Line>, k: nat, s: State, t: State)
    requires k < |lines| && Consistent(s) && Consistent(t) && !Counted(lines, k)
    requires CostsMean(lines, k, s) && FunctionsMean(lines, k, s)
    requires t.costs == s.costs && t.functions == s.functions && t.events == s.events
    ensures CostsMean(lines, k + 1, t) && FunctionsMean(lines, k + 1, t)
  {
    forall g
      ensures Credited(lines, k + 1, g) <==> Credited(lines, k, g)
    {
      Credit(lines, k, g);
    }
  }

  lemma NamesKept(lines: seq<Line>, k: nat, names: map<(Group, string), string>)
    requires k < |lines| && NamesMean(lines, k, names) && !lines[k].Name?
    ensures NamesMean(lines, k + 1, names)
  {
    assert forall group, id :: DefinedAs(lines, k + 1, group, id) == DefinedAs(lines, k, group, id);
  }

  lemma TotalsKept(lines: seq<Line>, k: nat, s: State)
    requires k < |lines| && TotalsMean(lines, k, s) && !lines[k].Totals?
    ensures TotalsMean(lines, k + 1, s)
  {
  }

  /** A counted cost line adds its counters to every sum, and its instructions to its function. */
  lemma CostsGrow(lines: seq<Line>, k: nat, s: State, t: State, f: string, values: seq<nat>)
    requires k < |lines| && Consistent(s) && Consistent(t) && s.events.Some? && t.events == s.events
    requires CostsMean(lines, k, s) && FunctionsMean(lines, k, s)
    requires Counted(lines, k) && CurrentAt(lines, k) == Some(f)
    requires |values| == |s.costs| && forall c :: 0 <= c < |values| ==> values[c] == CounterOf(lines, k, c)
    requires t.costs == Add(s.costs, values)
    requires var ir := values[IndexOf(s.events.value, "Ir")];
      t.functions == s.functions[f := (if f in s.functions then s.functions[f] else 0) + ir]
    ensures CostsMean(lines, k + 1, t) && FunctionsMean(lines, k + 1, t)
  {
    var column := IndexOf(s.events.value, "Ir");
    forall g
      ensures g in t.functions <==> Credited(lines, k + 1, g)
      ensures g in t.functions ==> t.functions[g] == CostOf(lines, k + 1, g, column)
    {
      Credit(lines, k, g);
      if !Credited(lines, k, g) {
        UncreditedCostsNothing(lines, k, g, column);
      }
    }
  }

  lemma CostPermitted(lines: seq<Line>, k: nat, s: State)
    requires k < |lines| && Consistent(s) && HeadersMean(lines, k, s) && s.current == CurrentAt(lines, k)
    requires lines[k].Cost? && TotalsBefore(lines, k).None?
    ensures StepCost(s, lines[k].fields).Some? <==> Permitted(lines, k)
    ensures Permitted(lines, k) ==>
      var values := EventCosts(s.events, lines[k].fields[|s.positions|..]);
      && |s.positions| <= |lines[k].fields| && s.events.Some? && s.current.Some?
      && values.Some? && |values.value| == |s.costs|
      && forall c :: 0 <= c < |values.value| ==> values.value[c] == CounterOf(lines, k, c)
  {
    var fields, p := lines[k].fields, |s.positions|;
    if p <= |fields| {
      CounterValues(s.events, fields, p);
    }
    hide EventCosts, Fits, Begun, Numbered, Threaded, EventsBefore, SummaryBefore, CurrentAt, CallPending, Add;
  }

  /** What a cost line leaves behind. */
  lemma CostOutcome(s: State, fields: seq<Field>)
    requires Consistent(s) && StepCost(s, fields).Some?
    ensures var t := StepCost(s, fields).value;
      && Consistent(t)
      && t == s.(bodyStarted := true, pendingCall := false, costs := t.costs, functions := t.functions)
      && (s.pendingCall ==> t.costs == s.costs && t.functions == s.functions)
      && (!s.pendingCall ==>
          && |s.positions| <= |fields| && s.current.Some? && s.events.Some?
          && EventCosts(s.events, fields[|s.positions|..]).Some?
          && var values := EventCosts(s.events, fields[|s.positions|..]).value;
          && |values| == |s.costs| && t.costs == Add(s.costs, values)
          && var f, ir := s.current.value, values[IndexOf(s.events.value, "Ir")];
          t.functions == s.functions[f := (if f in s.functions then s.functions[f] else 0) + ir])
  {
    hide EventCosts, Add, IndexOf;
  }

  lemma CostHeaders(lines: seq<Line>, k: nat, s: State, t: State)
    requires k < |lines| && HeadersMean(lines, k, s) && lines[k].Cost?
    requires t == s.(bodyStarted := true, pendingCall := false, costs := t.costs, functions := t.functions)
    ensures HeadersMean(lines, k + 1, t)
  {
    HeadersKept(lines, k);
    hide Begun, Numbered, Threaded;
  }

  lemma CostStep(lines: seq<Line>, k: nat, s: State)
    requires k < |lines| && Means(lines, k, s) && lines[k].Cost? && s.totals.None?
    ensures Step(s, lines[k]).Some? <==> Permitted(lines, k)
    ensures Step(s, lines[k]).Some? ==> Means(lines, k + 1, Step(s, lines[k]).value)
  {
    hide HeadersMean, NamesMean, CostsMean, FunctionsMean, EventCosts, Permitted, StepCost, Add, IndexOf;
    CostPermitted(lines, k, s);
    NamesKept(lines, k, s.names);
    TotalsKept(lines, k, s);
    assert Step(s, lines[k]) == StepCost(s, lines[k].fields);
    if StepCost(s, lines[k].fields).Some? {
      var t := StepCost(s, lines[k].fields).value;
      CostOutcome(s, lines[k].fields);
      CostHeaders(lines, k, s, t);
      if s.pendingCall {
        CostsKept(lines, k, s, t);
      } else {
        CostsGrow(lines, k, s, t, s.current.value, EventCosts(s.events, lines[k].fields[|s.positions|..]).value);
      }
    }
  }

  lemma NameStep(lines: seq<Line>, k: nat, s: State)
    requires k < |lines| && Means(lines, k, s) && lines[k].Name? && s.totals.None?
    ensures Step(s, lines[k]).Some? <==> Permitted(lines, k)
    ensures Step(s, lines[k]).Some? ==> Means(lines, k + 1, Step(s, lines[k]).value)
  {
    HeadersKept(lines, k);
    TotalsKept(lines, k, s);
    ResolvesToMeaning(lines, k, s.names, lines[k].group, lines[k].text);
    if Step(s, lines[k]).Some? {
      NameDefined(lines, k, s.names);
      CostsKept(lines, k, s, Step(s, lines[k]).value);
    }
    hide NamesMean, CostsMean, FunctionsMean, TotalsMean, Resolve, Meant, NamePermitted, Begun, Numbered, Threaded;
  }

  lemma EventsStep(lines: seq<Line>, k: nat, s: State)
    requires k < |lines| && Means(lines, k, s) && lines[k].Events? && s.totals.None?
    ensures Step(s, lines[k]).Some? <==> Permitted(lines, k)
    ensures Step(s, lines[k]).Some? ==> Means(lines, k + 1, Step(s, lines[k]).value)
  {
    HeadersKept(lines, k);
    NamesKept(lines, k, s.names);
    TotalsKept(lines, k, s);
    hide NamesMean, Begun, Numbered, Threaded;
    if Step(s, lines[k]).Some? {
      var after := k + 1;
      forall c: nat
        ensures SelfCost(lines, after, c) == 0
      {
        NothingCounted(lines, k, c);
      }
      forall g
        ensures Credited(lines, k + 1, g) <==> Credited(lines, k, g)
      {
        Credit(lines, k, g);
      }
      hide SelfCost, Credited, CostOf;
      assert s.functions == map[];
    }
  }

  lemma TotalsStep(lines: seq<Line>, k: nat, s: State)
    requires k < |lines| && Means(lines, k, s) && lines[k].Totals? && s.totals.None?
    ensures Step(s, lines[k]).Some? <==> Permitted(lines, k)
    ensures Step(s, lines[k]).Some? ==> Means(lines, k + 1, Step(s, lines[k]).value)
  {
    var fields := lines[k].fields;
    HeadersKept(lines, k);
    NamesKept(lines, k, s.names);
    CounterValues(s.events, fields, 0);
    assert fields[0..] == fields;
    hide NamesMean, EventCosts, Fits, Begun, Numbered, Threaded;
    if Step(s, lines[k]).Some? {
      CostsKept(lines, k, s, Step(s, lines[k]).value);
    }
    hide CostsMean, FunctionsMean;
  }

  predicate Plainly(line: Line) {
    !line.Cost? && !line.Name? && !line.Events? && !line.Totals?
  }

  lemma OtherPermitted(lines: seq<Line>, k: nat, s: State)
    requires k < |lines| && Consistent(s) && HeadersMean(lines, k, s) && s.pendingCall == CallPending(lines, k)
    requires s.totals.None? && TotalsBefore(lines, k).None? && Plainly(lines[k])
    ensures Step(s, lines[k]).Some? <==> Permitted(lines, k)
  {
    hide EventsBefore, SummaryBefore, CurrentAt, CallPending, PositionsOk, Begun, Numbered, Threaded;
    hide StepCost, Resolve, EventCosts, EventsOk;
    if lines[k].Positions? {
      PositionsAreRanked(lines[k].items);
    }
  }

  lemma OtherOutcome(s: State, line: Line)
    requires Consistent(s) && Step(s, line).Some? && Plainly(line)
    ensures var t := Step(s, line).value;
      && t == s.(pendingCall := t.pendingCall, positions := t.positions, summary := t.summary,
                 partSeen := t.partSeen, threadSeen := t.threadSeen)
      && t.pendingCall == (if line.Ignored? then s.pendingCall else line.Edge? && line.kind.Calls?)
      && t.positions == (if line.Positions? then line.items else s.positions)
      && t.summary == (if line.Summary? then Some(line.fields) else s.summary)
      && t.partSeen == (s.partSeen || line.Part?) && t.threadSeen == (s.threadSeen || line.Thread?)
  {
    hide StepCost, Resolve, EventCosts, PositionsOk, EventsOk;
  }

  lemma OtherHeaders(lines: seq<Line>, k: nat, s: State)
    requires k < |lines| && Consistent(s) && HeadersMean(lines, k, s) && Step(s, lines[k]).Some? && Plainly(lines[k])
    ensures HeadersMean(lines, k + 1, Step(s, lines[k]).value)
  {
    hide Step, Begun, Numbered, Threaded;
    OtherOutcome(s, lines[k]);
    HeadersKept(lines, k);
  }

  lemma OtherStep(lines: seq<Line>, k: nat, s: State)
    requires k < |lines| && Means(lines, k, s) && s.totals.None? && Plainly(lines[k])
    ensures Step(s, lines[k]).Some? <==> Permitted(lines, k)
    ensures Step(s, lines[k]).Some? ==> Means(lines, k + 1, Step(s, lines[k]).value)
  {
    hide HeadersMean, NamesMean, CostsMean, FunctionsMean, Permitted, Step;
    OtherPermitted(lines, k, s);
    NamesKept(lines, k, s.names);
    TotalsKept(lines, k, s);
    if Step(s, lines[k]).Some? {
      OtherOutcome(s, lines[k]);
      OtherHeaders(lines, k, s);
      CostsKept(lines, k, s, Step(s, lines[k]).value);
    }
  }

  lemma AnyStep(lines: seq<Line>, k: nat, s: State)
    requires k < |lines| && Means(lines, k, s)
    ensures Step(s, lines[k]).Some? <==> Permitted(lines, k)
    ensures Step(s, lines[k]).Some? ==> Means(lines, k + 1, Step(s, lines[k]).value)
  {
    if s.totals.Some? {
      HeadersKept(lines, k);
      if lines[k].Ignored? {
        NamesKept(lines, k, s.names);
        TotalsKept(lines, k, s);
        CostsKept(lines, k, s, s);
      }
      hide NamesMean, CostsMean, FunctionsMean, Begun, Numbered, Threaded;
    } else if lines[k].Cost? {
      CostStep(lines, k, s);
    } else if lines[k].Name? {
      NameStep(lines, k, s);
    } else if lines[k].Events? {
      EventsStep(lines, k, s);
    } else if lines[k].Totals? {
      TotalsStep(lines, k, s);
    } else {
      OtherStep(lines, k, s);
    }
  }

  // ----- Whole profiles -----

  /** The parser accepts the first k lines exactly if each is permitted, and its state is what they say. */
  lemma {:induction false} PrefixMeans(lines: seq<Line>, k: nat)
    requires k <= |lines|
    ensures Run(START, lines[..k]).Some? <==> forall j :: 0 <= j < k ==> Permitted(lines, j)
    ensures Run(START, lines[..k]).Some? ==> Means(lines, k, Run(START, lines[..k]).value)
  {
    if k == 0 {
      NothingRead(lines);
    } else {
      PrefixMeans(lines, k - 1);
      hide Means, Permitted, Step;
      assert lines[..k] == lines[..k - 1] + [lines[k - 1]];
      RunSplits(START, lines[..k - 1], [lines[k - 1]]);
      if Run(START, lines[..k - 1]).Some? {
        var s := Run(START, lines[..k - 1]).value;
        AnyStep(lines, k - 1, s);
        OneLineRun(s, lines[k - 1]);
      }
    }
  }

  lemma NothingRead(lines: seq<Line>)
    ensures Means(lines, 0, START)
  {
  }

  lemma OneLineRun(s: State, line: Line)
    requires Consistent(s)
    ensures Run(s, [line]) == Step(s, line)
  {
    assert [line][1..] == [];
  }

  /**
   * A profile is accepted exactly if it is complete and acceptable, and its report is then read off its lines:
   * the functions named are those some counted cost line belongs to, each with the sum of those lines'
   * instructions; the total is the summary's, or without one the costs' own.
   */
  lemma ReportIsExact(lines: seq<Line>, complete: bool)
    ensures Parse(lines, complete).Some? <==> complete && Acceptable(lines)
    ensures Parse(lines, complete).Some? ==>
      var n, r := |lines|, Parse(lines, complete).value;
      && "Ir" in EventsBefore(lines, n).value
      && var ir := IndexOf(EventsBefore(lines, n).value, "Ir");
      && (forall g :: g in r.functions <==> Credited(lines, n, g))
      && (forall g :: g in r.functions ==> r.functions[g] == CostOf(lines, n, g, ir))
      && r.own == SelfCost(lines, n, ir)
      && r.instructions
         == (if SummaryBefore(lines, n).Some? then At(SummaryBefore(lines, n).value, ir) else SelfCost(lines, n, ir))
      && r.unattributed == r.instructions - r.own
  {
    var n := |lines|;
    PrefixMeans(lines, n);
    assert lines[..n] == lines;
    hide Permitted;
    if Run(START, lines).Some? {
      ConclusionMeans(lines, Run(START, lines).value);
    }
  }

  lemma ConclusionMeans(lines: seq<Line>, s: State)
    requires Means(lines, |lines|, s)
    ensures var n := |lines|;
      var events, totals, summary := EventsBefore(lines, n), TotalsBefore(lines, n), SummaryBefore(lines, n);
      && (Conclude(s).Some? <==>
            && !CallPending(lines, n) && events.Some? && totals.Some?
            && (forall c :: 0 <= c < |events.value| ==> SelfCost(lines, n, c) == At(totals.value, c))
            && (summary.Some? ==>
                && Fits(events, summary.value, 0)
                && forall c :: 0 <= c < |events.value| ==> SelfCost(lines, n, c) <= At(summary.value, c)))
      && (Conclude(s).Some? ==>
          var r, ir := Conclude(s).value, IndexOf(events.value, "Ir");
          && r.functions == s.functions && r.own == SelfCost(lines, n, ir)
          && r.instructions == (if summary.Some? then At(summary.value, ir) else SelfCost(lines, n, ir))
          && r.unattributed == r.instructions - r.own)
  {
    var n := |lines|;
    if s.summary.Some? {
      CounterValues(s.events, s.summary.value, 0);
      assert s.summary.value[0..] == s.summary.value;
    }
    hide EventCosts, Fits, SelfCost, NamesMean, FunctionsMean;
    if s.events.Some? && s.totals.Some? {
      var totals := TotalsBefore(lines, n).value;
      if forall c :: 0 <= c < |s.events.value| ==> SelfCost(lines, n, c) == At(totals, c) {
        assert s.costs == s.totals.value;
      } else {
        var c :| 0 <= c < |s.events.value| && SelfCost(lines, n, c) != At(totals, c);
        assert s.costs[c] != s.totals.value[c];
      }
    }
  }
}
