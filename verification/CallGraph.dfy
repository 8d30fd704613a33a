/** The call-graph closure audit of scripts/check_query_contracts.py. */
module CallGraph {

  type Name = string
  type Graph = map<Name, set<Name>>

  const FORBIDDEN: set<Name> := {
    "malloc", "calloc", "realloc", "free", "aligned_alloc", "posix_memalign",
    "_aligned_malloc", "_aligned_realloc", "_aligned_free", "alloca", "_alloca"
  }

  function Callees(g: Graph, n: Name): set<Name> {
    if n in g then g[n] else {}
  }

  /** One audit: the call graph, where it starts, and the names that must not be reached. */
  datatype Scope = Scope(graph: Graph, roots: set<Name>, forbidden: set<Name>)

  datatype Error = Allocation(chain: seq<Name>) | Recursion(chain: seq<Name>)

  // ----- What the audit is about -----

  /** A nonempty chain of direct calls from a root. */
  ghost predicate Route(s: Scope, p: seq<Name>) {
    p != [] && p[0] in s.roots && Linked(s, p)
  }

  ghost predicate Linked(s: Scope, p: seq<Name>) {
    forall i :: 0 < i < |p| ==> Link(s, p, i)
  }

  ghost predicate Link(s: Scope, p: seq<Name>, i: nat)
    requires 0 < i < |p|
  {
    p[i] in Callees(s.graph, p[i - 1])
  }

  ghost predicate Clean(s: Scope, p: seq<Name>) {
    forall i :: 0 <= i < |p| ==> p[i] !in s.forbidden
  }

  ghost predicate Reached(s: Scope, n: Name) {
    exists p :: Route(s, p) && Clean(s, p) && p[|p| - 1] == n
  }

  /** An allocation chain ends in a forbidden name; a recursive one repeats one of its names. */
  ghost predicate Genuine(s: Scope, e: Error) {
    && Route(s, e.chain)
    && var before, last := e.chain[..|e.chain| - 1], e.chain[|e.chain| - 1];
    && Clean(s, before)
    && match e
       case Allocation(_) => last in s.forbidden
       case Recursion(_) => last in before
  }

  /** Some allocation chain ends in this call. */
  ghost predicate Named(errors: seq<Error>, caller: Name, name: Name) {
    exists e :: e in errors && e.Allocation? && |e.chain| >= 2
             && e.chain[|e.chain| - 2] == caller && e.chain[|e.chain| - 1] == name
  }

  /** Every forbidden callee of this name is named by an error. */
  ghost predicate CallsNamed(s: Scope, errors: seq<Error>, caller: Name) {
    forall m :: m in Callees(s.graph, caller) && m in s.forbidden ==> Named(errors, caller, m)
  }

  ghost predicate Distinct(s: seq<Name>) {
    forall i, j :: 0 <= i < j < |s| ==> s[i] != s[j]
  }

  ghost function Names(s: seq<Name>): set<Name> {
    set n | n in s
  }

  /** Some recursive chain ends in this call. */
  ghost predicate Repeated(errors: seq<Error>, caller: Name, name: Name) {
    exists e :: e in errors && e.Recursion? && |e.chain| >= 2
             && e.chain[|e.chain| - 2] == caller && e.chain[|e.chain| - 1] == name
  }

  /** Finished names, every one behind its callees, but for the forbidden and the calls reported as recursive. */
  ghost predicate InOrder(s: Scope, errors: seq<Error>, order: seq<Name>) {
    forall i, m :: 0 <= i < |order| && m in Callees(s.graph, order[i]) ==>
      m in order[..i] || m in s.forbidden || Repeated(errors, order[i], m)
  }

  /** A chain of calls among reachable names, none forbidden, that returns to where it began. */
  ghost predicate Cycle(s: Scope, p: seq<Name>) {
    |p| > 1 && p[0] == p[|p| - 1] && Linked(s, p) && Clean(s, p) && Reached(s, p[0])
  }

  /** One of its calls is reported as recursive. */
  ghost predicate Broken(errors: seq<Error>, p: seq<Name>) {
    exists i :: 0 < i < |p| && Repeated(errors, p[i - 1], p[i])
  }

  /** The call an error is about; none if a root is forbidden. */
  function LastCall(chain: seq<Name>): seq<Name> {
    if |chain| < 2 then chain else chain[|chain| - 2..]
  }

  /** The name whose call an error is about. */
  function Caller(e: Error): Name
    requires |e.chain| >= 2
  {
    e.chain[|e.chain| - 2]
  }

  /** No call is reported twice. */
  ghost predicate Once(errors: seq<Error>) {
    forall i, j :: 0 <= i < j < |errors| ==> LastCall(errors[i].chain) != LastCall(errors[j].chain)
  }

  ghost predicate NoRecursion(errors: seq<Error>) {
    forall e :: e in errors ==> !e.Recursion?
  }

  ghost predicate AllNamed(s: Scope, errors: seq<Error>, caller: Name, targets: seq<Name>, n: nat)
    requires n <= |targets|
  {
    forall k :: 0 <= k < n && targets[k] in s.forbidden ==> Named(errors, caller, targets[k])
  }

  /** Errors are only ever added. */
  lemma OneMoreNamed(s: Scope, before: seq<Error>, after: seq<Error>, active: seq<Name>, targets: seq<Name>, i: nat)
    requires before <= after && active != [] && i < |targets| && AllNamed(s, before, active[|active| - 1], targets, i)
    requires targets[i] in s.forbidden ==> Allocation(active + [targets[i]]) in after
    ensures AllNamed(s, after, active[|active| - 1], targets, i + 1)
  {
    var chain := active + [targets[i]];
    assert chain[|chain| - 2] == active[|active| - 1];
  }

  lemma AllCallsNamed(s: Scope, errors: seq<Error>, caller: Name, targets: seq<Name>)
    requires AllNamed(s, errors, caller, targets, |targets|) && Names(targets) == Callees(s.graph, caller)
    ensures CallsNamed(s, errors, caller)
  {
    forall m | m in Callees(s.graph, caller) && m in s.forbidden
      ensures Named(errors, caller, m)
    {
      assert m in Names(targets);
    }
  }

  lemma OrderGrows(s: Scope, errors: seq<Error>, order: seq<Name>, n: Name)
    requires InOrder(s, errors, order)
    requires forall m :: m in Callees(s.graph, n) ==> m in order || m in s.forbidden || Repeated(errors, n, m)
    ensures InOrder(s, errors, order + [n])
  {
    var longer := order + [n];
    assert forall i :: 0 <= i <= |order| ==> longer[..i] == order[..i];
    assert order[..|order|] == order;
  }

  lemma RouteReaches(s: Scope, p: seq<Name>)
    requires Clean(s, p) && Route(s, p)
    ensures Reached(s, p[|p| - 1])
  {
  }

  lemma NamesGrow(s: seq<Name>, name: Name)
    ensures Names(s + [name]) == Names(s) + {name}
  {
  }

  lemma Shortened(s: Scope, p: seq<Name>)
    requires Distinct(p) && Clean(s, p) && Route(s, p)
    ensures var q, last := p[..|p| - 1], p[|p| - 1];
      && Names(p) == Names(q) + {last} && last !in Names(q)
      && Distinct(q) && Clean(s, q) && (q != [] ==> Route(s, q))
  {
    var q := p[..|p| - 1];
    assert p == q + [p[|p| - 1]];
    forall i | 0 < i < |q|
      ensures Link(s, q, i)
    {
      assert Link(s, p, i);
    }
  }

  method Enumerate(s: set<Name>) returns (r: seq<Name>)
    ensures Names(r) == s && Distinct(r)
  {
    r := [];
    var rest := s;
    while rest != {}
      invariant rest <= s && Names(r) == s - rest && Distinct(r)
      decreases rest
    {
      var n :| n in rest;
      NamesGrow(r, n);
      r, rest := r + [n], rest - {n};
    }
  }

  // ----- Where reports come from -----

  /** The error is about a call from one of these names. */
  ghost predicate CalledFrom(e: Error, names: set<Name>) {
    |e.chain| >= 2 && Caller(e) in names
  }

  /** Errors were only added, each about this chain's last call or about a call from one of these names. */
  ghost predicate Since(before: seq<Error>, after: seq<Error>, chain: seq<Name>, names: set<Name>) {
    before <= after
    && forall i :: |before| <= i < |after| ==> after[i].chain == chain || CalledFrom(after[i], names)
  }

  /** Errors were only added, each about a call from one of these names. */
  ghost predicate AddedFrom(before: seq<Error>, after: seq<Error>, names: set<Name>) {
    before <= after && forall i :: |before| <= i < |after| ==> CalledFrom(after[i], names)
  }

  /** Every error about a call from this name is about one of these targets. */
  ghost predicate AskedFrom(errors: seq<Error>, caller: Name, targets: seq<Name>) {
    forall e :: e in errors && CalledFrom(e, {caller}) ==> e.chain[|e.chain| - 1] in targets
  }

  lemma NotAskedYet(errors: seq<Error>, active: seq<Name>, targets: seq<Name>, i: nat)
    requires active != [] && Distinct(targets) && i < |targets|
    requires AskedFrom(errors, active[|active| - 1], targets[..i])
    ensures forall e :: e in errors ==> LastCall(e.chain) != LastCall(active + [targets[i]])
  {
    assert targets[i] !in targets[..i];
    forall e | e in errors
      ensures LastCall(e.chain) != LastCall(active + [targets[i]])
    {
      SameCall(e, active, targets[i]);
    }
  }

  lemma SameCall(e: Error, active: seq<Name>, name: Name)
    requires active != []
    ensures LastCall(e.chain) == LastCall(active + [name]) ==>
      CalledFrom(e, {active[|active| - 1]}) && e.chain[|e.chain| - 1] == name
  {
    var call := LastCall(active + [name]);
    assert |call| == 2 && call[0] == active[|active| - 1] && call[1] == name;
    if |e.chain| >= 2 {
      assert LastCall(e.chain)[0] == Caller(e) && LastCall(e.chain)[1] == e.chain[|e.chain| - 1];
    }
  }

  lemma OneMoreAsked(
    before: seq<Error>, after: seq<Error>, active: seq<Name>, targets: seq<Name>, i: nat, added: set<Name>)
    requires active != [] && i < |targets| && AskedFrom(before, active[|active| - 1], targets[..i])
    requires Since(before, after, active + [targets[i]], added) && active[|active| - 1] !in added
    ensures AskedFrom(after, active[|active| - 1], targets[..i + 1])
  {
    forall e | e in after && CalledFrom(e, {active[|active| - 1]})
      ensures e.chain[|e.chain| - 1] in targets[..i + 1]
    {
      var k :| 0 <= k < |after| && after[k] == e;
      if k < |before| {
        assert e == before[k];
      }
    }
  }

  lemma SinceThen(
    first: seq<Error>, before: seq<Error>, after: seq<Error>, active: seq<Name>, name: Name,
    earlier: set<Name>, added: set<Name>)
    requires active != [] && AddedFrom(first, before, earlier + {active[|active| - 1]})
    requires Since(before, after, active + [name], added)
    ensures AddedFrom(first, after, earlier + added + {active[|active| - 1]})
  {
    forall i | |first| <= i < |after|
      ensures CalledFrom(after[i], earlier + added + {active[|active| - 1]})
    {
      if i < |before| {
        assert after[i] == before[i];
      } else if after[i].chain == active + [name] {
        assert Caller(after[i]) == active[|active| - 1];
      }
    }
  }

  lemma StaysNamed(s: Scope, errors: seq<Error>, e: Error, names: set<Name>)
    requires forall n :: n in names ==> CallsNamed(s, errors, n)
    ensures forall n :: n in names ==> CallsNamed(s, errors + [e], n)
  {
    forall n, m | n in names && m in Callees(s.graph, n) && m in s.forbidden
      ensures Named(errors + [e], n, m)
    {
      assert Named(errors, n, m);
    }
  }

  lemma StaysInOrder(s: Scope, errors: seq<Error>, e: Error, order: seq<Name>)
    requires InOrder(s, errors, order)
    ensures InOrder(s, errors + [e], order)
  {
    forall n, m | Repeated(errors, n, m)
      ensures Repeated(errors + [e], n, m)
    {
    }
  }

  lemma StaysOnce(errors: seq<Error>, e: Error)
    requires Once(errors) && forall d :: d in errors ==> LastCall(d.chain) != LastCall(e.chain)
    ensures Once(errors + [e])
  {
  }

  // ----- What a closed set of finished names implies -----

  /** Roots and callees are finished or forbidden. */
  ghost predicate Closed(s: Scope, done: set<Name>) {
    && (forall r :: r in s.roots ==> r in done || r in s.forbidden)
    && (forall n, m {:trigger m in Callees(s.graph, n)} ::
          n in done && m in Callees(s.graph, n) ==> m in done || m in s.forbidden)
  }

  /** Clean routes never leave the finished names. */
  lemma {:induction false} StaysInside(s: Scope, done: set<Name>, p: seq<Name>)
    requires Closed(s, done) && Route(s, p) && Clean(s, p)
    ensures p[|p| - 1] in done
    decreases |p|
  {
    if |p| > 1 {
      var q := p[..|p| - 1];
      LinkedUpTo(s, p, |p| - 1);
      StaysInside(s, done, q);
      assert Link(s, p, |p| - 1);
    }
  }

  lemma ReachedIsInside(s: Scope, done: set<Name>, n: Name)
    requires Closed(s, done) && Reached(s, n)
    ensures n in done
  {
    var p :| Route(s, p) && Clean(s, p) && p[|p| - 1] == n;
    StaysInside(s, done, p);
  }

  lemma LinkedFrom(s: Scope, p: seq<Name>, k: nat)
    requires Linked(s, p) && k < |p|
    ensures Linked(s, p[k..])
  {
    forall i | 0 < i < |p| - k
      ensures Link(s, p[k..], i)
    {
      assert Link(s, p, k + i);
    }
  }

  lemma CleanFrom(s: Scope, p: seq<Name>, k: nat)
    requires Clean(s, p) && k < |p|
    ensures Clean(s, p[k..])
  {
  }

  lemma LinkedUpTo(s: Scope, p: seq<Name>, k: nat)
    requires Linked(s, p) && k <= |p|
    ensures Linked(s, p[..k])
  {
    forall i | 0 < i < k
      ensures Link(s, p[..k], i)
    {
      assert Link(s, p, i);
    }
  }

  lemma WholeBehind(errors: seq<Error>, p: seq<Name>)
    requires |p| > 1 && !Broken(errors, p)
    ensures !Broken(errors, p[1..])
  {
    forall i | 0 < i < |p[1..]|
      ensures !Repeated(errors, p[1..][i - 1], p[1..][i])
    {
      assert !Repeated(errors, p[i + 1 - 1], p[i + 1]);
    }
  }

  /** In the finishing order a clean chain without reported calls leads strictly backwards. */
  lemma {:induction false} Descends(s: Scope, errors: seq<Error>, order: seq<Name>, p: seq<Name>, k: nat)
    requires InOrder(s, errors, order) && k < |order| && p != [] && p[0] == order[k] && Clean(s, p) && Linked(s, p)
    requires !Broken(errors, p)
    ensures |p| > 1 ==> p[|p| - 1] in order[..k]
    decreases |p|
  {
    if |p| > 1 {
      var q := p[1..];
      assert Link(s, p, 1);
      LinkedFrom(s, p, 1);
      assert !Repeated(errors, p[0], p[1]);
      assert q[0] in order[..k];
      var j :| 0 <= j < k && order[j] == q[0];
      WholeBehind(errors, p);
      Descends(s, errors, order, q, j);
      assert order[..j] <= order[..k];
    }
  }

  /** The finishing order has no clean cyclic chain without a reported call. */
  lemma NoCycle(s: Scope, errors: seq<Error>, order: seq<Name>, p: seq<Name>, k: nat)
    requires InOrder(s, errors, order) && k < |order| && |p| > 1 && p[0] == order[k] == p[|p| - 1]
    requires Clean(s, p) && Linked(s, p) && !Broken(errors, p)
    ensures false
    decreases k
  {
    Descends(s, errors, order, p, k);
    var j :| 0 <= j < k && order[j] == p[0];
    NoCycle(s, errors, order, p, j);
  }

  /** Every cycle through finished names contains a call that is reported as recursive. */
  lemma CyclesAreBroken(s: Scope, errors: seq<Error>, order: seq<Name>, p: seq<Name>)
    requires Closed(s, Names(order)) && InOrder(s, errors, order) && Cycle(s, p)
    ensures Broken(errors, p)
  {
    ReachedIsInside(s, Names(order), p[0]);
    var k :| 0 <= k < |order| && order[k] == p[0];
    if !Broken(errors, p) {
      NoCycle(s, errors, order, p, k);
    }
  }

  /** A recursive chain is clean throughout: its last name is one of the others. */
  lemma CleanCycle(s: Scope, e: Error) returns (i: nat)
    requires Genuine(s, e) && e.Recursion?
    ensures Clean(s, e.chain) && i < |e.chain| - 1 && e.chain[i] == e.chain[|e.chain| - 1]
  {
    var chain, n := e.chain, |e.chain|;
    i :| 0 <= i < n - 1 && chain[..n - 1][i] == chain[n - 1];
    assert forall k :: 0 <= k < n - 1 ==> chain[k] == chain[..n - 1][k];
  }

  /** A recursion that could be reported ends in a cycle, so some recursion is. */
  lemma CyclesAreReported(s: Scope, errors: seq<Error>, order: seq<Name>, e: Error)
    requires Closed(s, Names(order)) && InOrder(s, errors, order) && Genuine(s, e) && e.Recursion?
    ensures !NoRecursion(errors)
  {
    var i := CleanCycle(s, e);
    LinkedFrom(s, e.chain, i);
    CleanFrom(s, e.chain, i);
    RouteReaches(s, e.chain);
    var p := e.chain[i..];
    CyclesAreBroken(s, errors, order, p);
    var j :| 0 < j < |p| && Repeated(errors, p[j - 1], p[j]);
  }

  /** A forbidden name that can be reached leaves an allocation error. */
  lemma AllocationsAreReported(s: Scope, done: set<Name>, errors: seq<Error>, e: Error)
    requires Closed(s, done) && Genuine(s, e) && e.Allocation?
    requires forall n :: n in done ==> CallsNamed(s, errors, n)
    requires forall r :: r in s.roots && r in s.forbidden ==> Allocation([r]) in errors
    ensures exists a :: a in errors && a.Allocation?
  {
    var chain, n := e.chain, |e.chain|;
    if n == 1 {
      assert chain[0] in s.roots && Allocation([chain[0]]) in errors;
    } else {
      var before := chain[..n - 1];
      LinkedUpTo(s, chain, n - 1);
      StaysInside(s, done, before);
      assert Link(s, chain, n - 1);
      assert Named(errors, before[n - 2], chain[n - 1]);
    }
  }

  class Audit {
    const scope: Scope
    var active: seq<Name>
    var done: set<Name>
    var errors: seq<Error>
    ghost const universe: set<Name>
    ghost var order: seq<Name>

    ghost predicate Valid()
      reads this
    {
      && scope.roots <= universe
      && (forall n, m {:trigger m in Callees(scope.graph, n)} ::
            n in universe && m in Callees(scope.graph, n) ==> m in universe)
      && Clean(scope, active) && Distinct(active) && (active != [] ==> Route(scope, active))
      && Names(active) <= universe && Names(active) !! done
      && done == Names(order)
      && (forall n {:trigger Reached(scope, n)} :: n in done ==> Reached(scope, n))
      && (forall n, m {:trigger m in Callees(scope.graph, n)} ::
            n in done && m in Callees(scope.graph, n) ==> Covered(m))
      && (forall i :: 0 <= i < |errors| ==> Genuine(scope, errors[i]))
      && InOrder(scope, errors, order)
      && (forall n :: n in done ==> CallsNamed(scope, errors, n))
      && Once(errors)
      && (forall e :: e in errors && |e.chain| >= 2 ==> Caller(e) in done || Caller(e) in active)
    }

    /** This call has not been reported yet. */
    ghost predicate Unreported(name: Name)
      reads this
    {
      forall e :: e in errors ==> LastCall(e.chain) != LastCall(active + [name])
    }

    /** Finished, or forbidden. */
    ghost predicate Settled(m: Name)
      reads this
    {
      m in done || m in scope.forbidden
    }

    /** A callee of the innermost active name that is settled, or reported as recursive. */
    ghost predicate Answered(m: Name)
      requires active != []
      reads this
    {
      Settled(m) || (m in active && Repeated(errors, active[|active| - 1], m))
    }

    /** Settled, or still being visited. */
    ghost predicate Covered(m: Name)
      reads this
    {
      Settled(m) || m in active
    }

    constructor (scope: Scope)
      ensures Valid() && this.scope == scope
      ensures active == [] && done == {} && errors == []
    {
      this.scope := scope;
      active, done, errors, order := [], {}, [], [];
      universe := scope.roots + scope.graph.Keys + set n, m | n in scope.graph && m in scope.graph[n] :: m;
    }

    method Visit(name: Name)
      requires Valid() && name in universe
      requires Route(scope, active + [name])
      requires Unreported(name)
      modifies this
      ensures Valid() && active == old(active)
      ensures old(done) <= done
      ensures Settled(name) || (name in active && Recursion(active + [name]) in errors)
      ensures name in scope.forbidden ==> Allocation(active + [name]) in errors
      ensures Since(old(errors), errors, active + [name], done - old(done))
      decreases universe - Names(active), 1
    {
      if name in scope.forbidden {
        Report(name, Allocation(active + [name]));
        return;
      }
      if name in active {
        Report(name, Recursion(active + [name]));
        return;
      }
      if name in done {
        return;
      }
      Explore(name);
    }

    /** A name that is entered for the first time. */
    method Explore(name: Name)
      requires Valid() == true && name in universe && Route(scope, active + [name])
      requires name !in scope.forbidden && name !in active && name !in done
      modifies this
      ensures Valid() == true && active == old(active)
      ensures old(done) <= done && name in done
      ensures AddedFrom(old(errors), errors, done - old(done))
      decreases universe - Names(active), 0
    {
      NotAsked(name);
      Enter(name);
      var targets := Enumerate(Callees(scope.graph, name));
      VisitAll(targets);
      Finish(name);
    }

    /** A name that was never entered has not called anything. */
    lemma NotAsked(name: Name)
      requires Valid() && name !in active && name !in done
      ensures AskedFrom(errors, name, [])
    {
    }

    /** The loop over a name's callees. */
    method VisitAll(targets: seq<Name>)
      requires Valid() && active != [] && Names(targets) == Callees(scope.graph, active[|active| - 1])
      requires Distinct(targets) && AskedFrom(errors, active[|active| - 1], [])
      modifies this
      ensures Valid() && active == old(active)
      ensures old(done) <= done
      ensures forall m :: m in targets ==> Answered(m)
      ensures CallsNamed(scope, errors, active[|active| - 1])
      ensures AddedFrom(old(errors), errors, done - old(done) + {active[|active| - 1]})
      decreases universe - Names(active), 2
    {
      hide Valid, Named, Repeated, CallsNamed, AskedFrom, Route, Distinct;
      ghost var caller := active[|active| - 1];
      assert targets[..0] == [];
      for i := 0 to |targets|
        invariant Valid() && active == old(active)
        invariant old(done) <= done
        invariant forall k :: 0 <= k < i ==> Answered(targets[k])
        invariant AllNamed(scope, errors, caller, targets, i) == true
        invariant AskedFrom(errors, caller, targets[..i])
        invariant AddedFrom(old(errors), errors, done - old(done) + {caller}) == true
      {
        assert targets[i] in Names(targets);
        Visitable(targets[i]);
        NotAskedYet(errors, active, targets, i);
        ghost var before, known := errors, done;
        Visit(targets[i]);
        Disjoint();
        OneMoreNamed(scope, before, errors, active, targets, i);
        OneMoreAnswered(known, before, targets, i);
        OneMoreAsked(before, errors, active, targets, i, done - known);
        SinceThen(old(errors), before, errors, active, targets[i], known - old(done), done - known);
        assert done - old(done) == (known - old(done)) + (done - known);
      }
      assert targets[..|targets|] == targets;
      AllCallsNamed(scope, errors, caller, targets);
    }

    lemma Disjoint()
      requires Valid()
      ensures Names(active) !! done && (active != [] ==> active[|active| - 1] !in done)
    {
      assert active != [] ==> active[|active| - 1] in Names(active);
    }

    /** Reports are only ever added. */
    lemma OneMoreAnswered(known: set<Name>, before: seq<Error>, targets: seq<Name>, i: nat)
      requires active != [] && i < |targets| && known <= done && before <= errors
      requires forall k :: 0 <= k < i ==>
        || targets[k] in known || targets[k] in scope.forbidden
        || (targets[k] in active && Repeated(before, active[|active| - 1], targets[k]))
      requires Settled(targets[i]) || (targets[i] in active && Recursion(active + [targets[i]]) in errors)
      ensures forall k :: 0 <= k <= i ==> Answered(targets[k])
    {
      var chain := active + [targets[i]];
      assert chain[|chain| - 2] == active[|active| - 1];
    }

    /** A callee of the innermost active name may be visited. */
    lemma Visitable(target: Name)
      requires Valid() && active != [] && target in Callees(scope.graph, active[|active| - 1])
      ensures target in universe && Route(scope, active + [target])
    {
      assert active[|active| - 1] in Names(active);
      Extended(active, target);
    }

    lemma Extended(p: seq<Name>, n: Name)
      requires Route(scope, p) && n in Callees(scope.graph, p[|p| - 1])
      ensures Route(scope, p + [n])
    {
      forall i | 0 < i < |p + [n]|
        ensures Link(scope, p + [n], i)
      {
        assert i < |p| ==> Link(scope, p, i);
      }
    }

    method Report(name: Name, e: Error)
      requires Unreported(name)
      requires Valid() && e.chain == active + [name] && Route(scope, active + [name])
      requires match e case Allocation(_) => name in scope.forbidden case Recursion(_) => name in active
      modifies this`errors
      ensures Valid() && errors == old(errors) + [e]
    {
      assert e.chain[..|e.chain| - 1] == active;
      assert Genuine(scope, e) && (active != [] ==> Caller(e) == active[|active| - 1]);
      hide Reached, Route, Clean, Distinct, Genuine, CallsNamed, InOrder, Once, LastCall;
      StaysInOrder(scope, errors, e, order);
      StaysNamed(scope, errors, e, done);
      StaysOnce(errors, e);
      errors := errors + [e];
    }

    /** active.append(name). */
    method Enter(name: Name)
      requires Valid() && name in universe && Route(scope, active + [name])
      requires name !in scope.forbidden && name !in active && name !in done
      modifies this`active
      ensures Valid() && active == old(active) + [name] && Names(active) == Names(old(active)) + {name}
    {
      active := active + [name];
      NamesGrow(old(active), name);
    }

    /** active.pop(); done.add(name). */
    method Finish(name: Name)
      requires Valid() && active != [] && active[|active| - 1] == name
      requires forall m :: m in Callees(scope.graph, name) ==> Answered(m)
      requires CallsNamed(scope, errors, name)
      modifies this`active, this`done, this`order
      ensures Valid() && active == old(active)[..|old(active)| - 1]
      ensures done == old(done) + {name}
    {
      hide Reached, Route, Clean, Distinct, Genuine, CallsNamed, InOrder, Repeated, Once;
      ghost var before := active;
      active := active[..|active| - 1];
      Shortened(scope, before);
      RouteReaches(scope, before);
      NamesGrow(order, name);
      done := done + {name};
      OrderGrows(scope, errors, order, name);
      order := order + [name];
    }

    // ----- The roots -----

    /** The first i roots have been visited, and nothing else was asked for. */
    ghost predicate AfterRoots(todo: seq<Name>, i: nat)
      reads this
    {
      && Valid() && active == [] && i <= |todo|
      && (forall k :: 0 <= k < i ==> Settled(todo[k]))
      && (forall k :: 0 <= k < i && todo[k] in scope.forbidden ==> Allocation([todo[k]]) in errors)
      && (forall e :: e in errors && |e.chain| == 1 ==> e.chain[0] in todo[..i])
    }

    lemma NoRootsYet(todo: seq<Name>)
      requires Valid() && active == [] && errors == []
      ensures AfterRoots(todo, 0)
    {
    }

    method VisitRoot(todo: seq<Name>, i: nat)
      requires AfterRoots(todo, i) && i < |todo| && todo[i] in scope.roots && Distinct(todo)
      modifies this
      ensures AfterRoots(todo, i + 1)
    {
      hide Reached, Genuine, CallsNamed, InOrder, Once;
      ghost var before := errors;
      assert [] + [todo[i]] == [todo[i]];
      forall e | e in errors
        ensures LastCall(e.chain) != LastCall(active + [todo[i]])
      {
        assert LastCall(e.chain) == [todo[i]] ==> |e.chain| == 1;
      }
      Visit(todo[i]);
      forall e | e in errors && |e.chain| == 1
        ensures e.chain[0] in todo[..i + 1]
      {
        var k :| 0 <= k < |errors| && errors[k] == e;
        assert k < |before| ==> e == before[k];
      }
    }

    // ----- What a finished audit knows -----

    lemma Concludes(todo: seq<Name>)
      requires AfterRoots(todo, |todo|) && Names(todo) == scope.roots
      ensures forall n :: n in done <==> Reached(scope, n)
      ensures forall e :: e in errors ==> Genuine(scope, e)
      ensures NoRecursion(errors) <==> forall e :: Genuine(scope, e) ==> !e.Recursion?
      ensures errors == [] <==> forall e :: !Genuine(scope, e)
      ensures forall n :: Reached(scope, n) ==> CallsNamed(scope, errors, n)
      ensures forall r :: r in scope.roots && r in scope.forbidden ==> Allocation([r]) in errors
      ensures forall p :: Cycle(scope, p) ==> Broken(errors, p)
      ensures Once(errors)
    {
      assert forall r :: r in todo <==> r in Names(todo);
      hide Reached, Cycle, Broken, Once, CallsNamed, NoRecursion, Genuine, InOrder;
      Complete();
      NothingOverlooked();
      forall p | Cycle(scope, p)
        ensures Broken(errors, p)
      {
        CyclesAreBroken(scope, errors, order, p);
      }
    }

    lemma Complete()
      requires Valid() && active == [] && (forall r :: r in scope.roots ==> Settled(r))
      ensures forall n :: n in done <==> Reached(scope, n)
    {
      forall n | Reached(scope, n)
        ensures n in done
      {
        ReachedIsInside(scope, done, n);
      }
    }

    /** There are recursion errors exactly when there are genuine ones, and errors at all likewise. */
    lemma NothingOverlooked()
      requires Valid() && active == [] && (forall r :: r in scope.roots ==> Settled(r))
      requires forall r :: r in scope.roots && r in scope.forbidden ==> Allocation([r]) in errors
      ensures NoRecursion(errors) <==> forall e :: Genuine(scope, e) ==> !e.Recursion?
      ensures errors == [] <==> forall e :: !Genuine(scope, e)
    {
      if NoRecursion(errors) {
        forall e | Genuine(scope, e)
          ensures !e.Recursion?
        {
          if e.Recursion? {
            CyclesAreReported(scope, errors, order, e);
          }
        }
      } else {
        var e :| e in errors && e.Recursion?;
        assert Genuine(scope, e);
      }
      if errors == [] {
        forall e
          ensures !Genuine(scope, e)
        {
          if Genuine(scope, e) && e.Allocation? {
            AllocationsAreReported(scope, done, errors, e);
          }
        }
      } else {
        assert Genuine(scope, errors[0]);
      }
    }
  }

  /** The whole audit, for any set of forbidden names. */
  method Run(scope: Scope) returns (errors: seq<Error>, done: set<Name>)
    ensures forall n :: n in done <==> Reached(scope, n)
    ensures forall e :: e in errors ==> Genuine(scope, e)
    ensures NoRecursion(errors) <==> forall e :: Genuine(scope, e) ==> !e.Recursion?
    ensures errors == [] <==> forall e :: !Genuine(scope, e)
    ensures forall n :: Reached(scope, n) ==> CallsNamed(scope, errors, n)
    ensures forall r :: r in scope.roots && r in scope.forbidden ==> Allocation([r]) in errors
    ensures forall p :: Cycle(scope, p) ==> Broken(errors, p)
    ensures Once(errors)
  {
    hide Audit.Valid, Reached, Cycle, Broken, Once, CallsNamed, NoRecursion, Genuine, Distinct;
    var audit := new Audit(scope);
    var todo := Enumerate(scope.roots);
    audit.NoRootsYet(todo);
    for i := 0 to |todo|
      invariant audit.AfterRoots(todo, i) && audit.scope == scope && fresh(audit)
    {
      assert todo[i] in Names(todo);
      audit.VisitRoot(todo, i);
    }
    audit.Concludes(todo);
    errors, done := audit.errors, audit.done;
  }

  /**
   * violations(graph, roots): the finished names are exactly the reachable ones; every error is genuine and
   * about a call of its own; every forbidden root or call that can be reached is named, and every cycle that
   * can be reached is broken by a call reported as recursive; there are errors of a kind only where due.
   */
  method Violations(graph: Graph, roots: set<Name>) returns (errors: seq<Error>, done: set<Name>)
    ensures var s := Scope(graph, roots, FORBIDDEN);
      && (forall n :: n in done <==> Reached(s, n))
      && (forall e :: e in errors ==> Genuine(s, e))
      && Once(errors)
      && (NoRecursion(errors) <==> forall e :: Genuine(s, e) ==> !e.Recursion?)
      && (errors == [] <==> forall e :: !Genuine(s, e))
      && (forall n :: Reached(s, n) ==> CallsNamed(s, errors, n))
      && (forall r :: r in s.roots && r in s.forbidden ==> Allocation([r]) in errors)
      && (forall p :: Cycle(s, p) ==> Broken(errors, p))
  {
    hide Reached, Cycle, Broken, Once, CallsNamed, NoRecursion, Genuine;
    errors, done := Run(Scope(graph, roots, FORBIDDEN));
  }
}
