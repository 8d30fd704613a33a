/**
 * Nested JSON from a flat preorder visit (bindings/wasm/src/opentlv_wasm.c): objects are opened
 * as events arrive and closed late, from an open count and per-level counters and flags.
 */
module JsonEmitter {
  import opened Tlv
  import opened JsonText
  import opened JsonTree
  import E = JsonElement

  const CAPACITY: nat := 64

  /** One call of emit_element: the element's depth, whether it nests, and the parts it appends. */
  datatype Arrival = Arrival(depth: nat, nested: bool, parts: seq<Part>, event: E.Event)

  function Describe(e: E.Event): Arrival {
    Arrival(e.depth, E.Nested(e), E.Parts(e), e)
  }

  function Arrivals(events: seq<E.Event>): (a: seq<Arrival>)
    ensures |a| == |events| && forall i :: 0 <= i < |a| ==> a[i] == Describe(events[i])
  {
    seq(|events|, i requires 0 <= i < |events| => Describe(events[i]))
  }

  function ObjectOf(a: Arrival): Object {
    Object(Rendered(a.parts), a.nested, a.event)
  }

  function Objects(arrivals: seq<Arrival>, n: nat): seq<Object>
    requires n <= |arrivals|
  {
    if n == 0 then [] else Objects(arrivals, n - 1) + [ObjectOf(arrivals[n - 1])]
  }

  // ----- Preorder arrivals and their forest -----

  /** Arrival k may follow its predecessor: as its child if that nests, or as a sibling of it or of an ancestor. */
  predicate MayFollow(arrivals: seq<Arrival>, k: nat)
    requires k < |arrivals|
  {
    if k == 0 then arrivals[0].depth == 0
    else arrivals[k].depth <= arrivals[k - 1].depth + if arrivals[k - 1].nested then 1 else 0
  }

  predicate Preorder(arrivals: seq<Arrival>) {
    forall k :: 0 <= k < |arrivals| ==> MayFollow(arrivals, k)
  }

  /** The forest the first n arrivals describe, each hung below the rightmost element of the level above. */
  function Build(arrivals: seq<Arrival>, n: nat): (f: Forest)
    requires Preorder(arrivals) && n <= |arrivals|
    ensures InnerNested(f)
    ensures if n == 0 then f == Nil
            else f.Grow? && SpineLength(f) == arrivals[n - 1].depth + 1 && Innermost(f).nested == arrivals[n - 1].nested
  {
    if n == 0 then Nil
    else
      var e := arrivals[n - 1];
      assert MayFollow(arrivals, n - 1);
      RightmostFits(Build(arrivals, n - 1), e.depth);
      InsertSpine(Build(arrivals, n - 1), ObjectOf(e), e.depth);
      Insert(Build(arrivals, n - 1), ObjectOf(e), e.depth)
  }

  lemma NextFits(arrivals: seq<Arrival>, n: nat)
    requires Preorder(arrivals) && n < |arrivals|
    ensures Fits(Build(arrivals, n), arrivals[n].depth) && arrivals[n].depth <= SpineLength(Build(arrivals, n))
    ensures Build(arrivals, n + 1) == Insert(Build(arrivals, n), ObjectOf(arrivals[n]), arrivals[n].depth)
  {
    assert MayFollow(arrivals, n);
    RightmostFits(Build(arrivals, n), arrivals[n].depth);
  }

  lemma InsertedSpine(arrivals: seq<Arrival>, n: nat)
    requires Preorder(arrivals) && n < |arrivals|
    ensures SpineLength(Build(arrivals, n + 1)) == arrivals[n].depth + 1
  {
  }

  /** Read in preorder, the built forest gives the arrivals back. */
  lemma {:induction false} BuildIsPreorder(arrivals: seq<Arrival>, n: nat)
    requires Preorder(arrivals) && n <= |arrivals|
    ensures Flatten(Build(arrivals, n)) == Objects(arrivals, n)
  {
    if n > 0 {
      BuildIsPreorder(arrivals, n - 1);
      assert MayFollow(arrivals, n - 1);
      RightmostFits(Build(arrivals, n - 1), arrivals[n - 1].depth);
      FlattenInsert(Build(arrivals, n - 1), ObjectOf(arrivals[n - 1]), arrivals[n - 1].depth);
    }
  }

  /** The counters and flags describe the rightmost spine, down to the open level. */
  ghost predicate Tracks(f: Forest, open: nat, counts: seq<nat>, flags: seq<bool>) {
    && |counts| == |flags| == CAPACITY + 2 && open <= CAPACITY + 1 && Deep(f, open)
    && (forall j :: 0 <= j < open ==> Deep(f, j + 1) && flags[j] == Spine(f, j).nested)
    && (forall j :: 0 <= j <= open ==> Deep(f, j) && counts[j] == Siblings(f, j))
  }

  lemma TracksInsert(f: Forest, o: Object, d: nat, counts: seq<nat>, flags: seq<bool>)
    requires Tracks(f, d, counts, flags) && Fits(f, d) && d <= CAPACITY
    ensures Tracks(Insert(f, o, d), d + 1, counts[d := counts[d] + 1][d + 1 := 0], flags[d := o.nested])
  {
    var g := Insert(f, o, d);
    SpineOfInsert(f, o, d);
    SpineKept(f, o, d, g);
    forall j | 0 <= j <= d + 1
      ensures Deep(g, j) && counts[d := counts[d] + 1][d + 1 := 0][j] == Siblings(g, j)
    {
      if j < d {
        assert SameLevel(f, g, j);
      }
    }
    forall j | 0 <= j < d + 1
      ensures Deep(g, j + 1) && flags[d := o.nested][j] == Spine(g, j).nested
    {
      if j < d {
        assert SameLevel(f, g, j);
      }
    }
  }

  lemma TracksClose(f: Forest, open: nat, counts: seq<nat>, flags: seq<bool>)
    requires Tracks(f, open, counts, flags) && open > 0
    ensures Deep(f, open) && open <= |flags|
    ensures Tracks(f, open - 1, counts, flags) && flags[open - 1] == Spine(f, open - 1).nested
  {
  }

  class Emitter {
    const out: Builder
    const count: array<nat>
    const hasChildren: array<bool>
    var open: nat
    ghost var forest: Forest
    ghost const prefix: string
    /** Memory had not run out when the visit began. */
    ghost const fine: bool

    ghost predicate Valid()
      reads this, out, out.data, count, hasChildren
    {
      && count.Length == CAPACITY + 2 && hasChildren.Length == CAPACITY + 2
      && Tracks(forest, open, count[..], hasChildren[..])
      && out.Valid() && (!out.failed ==> out.Text() == prefix + Partial(forest, open))
      && (fine && out.failed ==> out.Excused(|prefix| + |Partial(forest, open)|))
    }

    /** An empty visit: the enclosing array has just been opened. */
    constructor (out: Builder)
      requires out.Valid()
      ensures Valid() && fresh(count) && fresh(hasChildren)
      ensures this.out == out && forest == Nil && open == 0 && prefix == out.Text() && fine == !out.failed
    {
      this.out := out;
      count := new nat[CAPACITY + 2](_ => 0);
      hasChildren := new bool[CAPACITY + 2](_ => false);
      open, forest, prefix, fine := 0, Nil, out.Text(), !out.failed;
    }

    method CloseLast()
      requires Valid() && open > 0
      modifies this`open, out, out.data
      ensures Valid() && open == old(open) - 1
      ensures old(out.failed) ==> out.failed
      ensures out.data == old(out.data) || fresh(out.data)
    {
      hide Partial, Spine, Tracks;
      TracksClose(forest, open, count[..], hasChildren[..]);
      CloseOne(forest, open);
      Regroup(prefix, Partial(forest, open), Closer(Spine(forest, open - 1)));
      open := open - 1;
      out.Append(if hasChildren[open] then "]}" else "}");
    }

    /** close_elements. */
    method CloseElements(depth: nat)
      requires Valid() == true
      modifies this`open, out, out.data
      ensures Valid() && forest == old(forest)
      ensures open == if depth < old(open) then depth else old(open)
      ensures old(out.failed) ==> out.failed
      ensures out.data == old(out.data) || fresh(out.data)
    {
      while open > depth
        invariant Valid() && forest == old(forest)
        invariant open == old(open) || (open < old(open) && open >= depth)
        invariant old(out.failed) ==> out.failed
        invariant out.data == old(out.data) || fresh(out.data)
      {
        CloseLast();
      }
    }

    /** The comma between siblings, and the counters of this level and the next. */
    method Separate(d: nat)
      requires Valid() && open == d <= CAPACITY
      modifies out, out.data, count
      ensures out.Valid() && (old(out.failed) ==> out.failed)
      ensures !out.failed ==> out.Text() == old(out.Text()) + Separator(Siblings(forest, d))
      ensures out.failed && !old(out.failed) ==>
        out.Excused(|old(out.Text())| + |Separator(Siblings(forest, d))|)
      ensures out.data == old(out.data) || fresh(out.data)
      ensures count[..] == old(count[..])[d := Siblings(forest, d) + 1][d + 1 := 0]
    {
      if count[d] > 0 {
        out.Append(",");
      }
      count[d] := count[d] + 1;
      count[d + 1] := 0;
    }

    /** Open one object on a level whose deeper objects are closed already. */
    method OpenObject(parts: seq<Part>, o: Object, d: nat)
      requires Valid() == true && Fits(forest, d) && open == d <= CAPACITY
      requires Rendered(parts) == o.start && AllFit(parts)
      modifies this`open, this`forest, out, out.data, count, hasChildren
      ensures Valid() && forest == Insert(old(forest), o, d) && open == d + 1
      ensures out.data == old(out.data) || fresh(out.data)
    {
      hide Insert, Partial, Siblings, Separator, Rendered;
      ghost var f, before, comma := forest, Partial(forest, d), Separator(Siblings(forest, d));
      ghost var g := Insert(f, o, d);
      TracksInsert(f, o, d, count[..], hasChildren[..]);
      OpenOne(f, o, d);
      AppendObject(parts, o, d);
      Regroup4(prefix, before, comma, o.start);
      ghost var flags := hasChildren[..];
      hasChildren[open] := o.nested;
      assert hasChildren[..] == flags[d := o.nested];
      open, forest := open + 1, g;
    }

    method AppendObject(parts: seq<Part>, ghost o: Object, d: nat)
      requires Valid() && open == d <= CAPACITY && Rendered(parts) == o.start && AllFit(parts)
      modifies out, out.data, count
      ensures out.Valid() && (old(out.failed) ==> out.failed)
      ensures !out.failed ==> out.Text() == old(out.Text()) + Separator(Siblings(forest, d)) + o.start
      ensures out.failed && !old(out.failed) ==>
        out.Excused(|old(out.Text())| + |Separator(Siblings(forest, d))| + |o.start|)
      ensures out.data == old(out.data) || fresh(out.data)
      ensures count[..] == old(count[..])[d := Siblings(forest, d) + 1][d + 1 := 0]
    {
      Separate(d);
      out.AppendParts(parts);
    }

    /** emit_element. */
    method Emit(e: Arrival) returns (proceed: bool)
      requires Valid() == true && Fits(forest, e.depth) && e.depth <= open && AllFit(e.parts)
      modifies this`open, this`forest, out, out.data, count, hasChildren
      ensures Valid() && proceed == (e.depth <= CAPACITY && !out.failed)
      ensures e.depth > CAPACITY ==> forest == old(forest) && open == old(open)
      ensures e.depth <= CAPACITY ==> forest == Insert(old(forest), ObjectOf(e), e.depth) && open == e.depth + 1
      ensures out.data == old(out.data) || fresh(out.data)
    {
      if e.depth > CAPACITY {
        return false;
      }
      CloseElements(e.depth);
      OpenObject(e.parts, ObjectOf(e), e.depth);
      return !out.failed;
    }

    /** The first n arrivals have been emitted, and nothing else. */
    ghost predicate Emitted(arrivals: seq<Arrival>, n: nat)
      reads this, out, out.data, count, hasChildren
    {
      Valid() && Preorder(arrivals) && n <= |arrivals| && forest == Build(arrivals, n) && open == SpineLength(forest)
    }

    lemma NothingEmitted(arrivals: seq<Arrival>)
      requires Valid() == true && Preorder(arrivals) && forest == Nil && open == 0
      ensures Emitted(arrivals, 0)
    {
    }

    /** The next arrival of a visit; one nested too deeply is not emitted. */
    method EmitNext(arrivals: seq<Arrival>, n: nat) returns (proceed: bool)
      requires Emitted(arrivals, n) == true && n < |arrivals| && AllFit(arrivals[n].parts)
      modifies this`open, this`forest, out, out.data, count, hasChildren
      ensures Emitted(arrivals, if arrivals[n].depth <= CAPACITY then n + 1 else n)
      ensures proceed == (arrivals[n].depth <= CAPACITY && !out.failed)
      ensures out.data == old(out.data) || fresh(out.data)
    {
      hide Valid, Insert, Partial, Tracks;
      NextFits(arrivals, n);
      InsertedSpine(arrivals, n);
      proceed := Emit(arrivals[n]);
    }

    /** The final close. */
    method Finish(ghost arrivals: seq<Arrival>, ghost n: nat)
      requires Emitted(arrivals, n)
      modifies this`open, out, out.data
      ensures out.Valid() && (!out.failed ==> out.Text() == prefix + Print(Build(arrivals, n)))
      ensures fine && out.failed ==> out.Excused(|prefix| + |Print(Build(arrivals, n))|)
      ensures old(out.failed) ==> out.failed
      ensures out.data == old(out.data) || fresh(out.data)
    {
      CloseElements(0);
    }
  }

  /** The visit, over what each element appends. */
  method VisitArrivals(out: Builder, arrivals: seq<Arrival>) returns (visited: nat)
    requires out.Valid() && Preorder(arrivals) && forall i :: 0 <= i < |arrivals| ==> AllFit(arrivals[i].parts)
    modifies out, out.data
    ensures visited <= |arrivals| && out.Valid()
    ensures !out.failed ==> out.Text() == old(out.Text()) + Print(Build(arrivals, visited))
    ensures out.failed && !old(out.failed) ==> out.Excused(|old(out.Text())| + |Print(Build(arrivals, visited))|)
    ensures !out.failed ==> visited == |arrivals| || arrivals[visited].depth > CAPACITY
  {
    hide Fits, Emitter.Emitted, Emitter.Valid, Build, Print, Partial, Tracks;
    var w := new Emitter(out);
    w.NothingEmitted(arrivals);
    visited := 0;
    while visited < |arrivals|
      invariant visited <= |arrivals| && w.Emitted(arrivals, visited) == true
      invariant out.data == old(out.data) || fresh(out.data)
    {
      var proceed := w.EmitNext(arrivals, visited);
      if arrivals[visited].depth <= CAPACITY {
        visited := visited + 1;
      }
      if !proceed {
        break;
      }
    }
    w.Finish(arrivals, visited);
  }

  /**
   * A visit in preorder, then the final close: unless memory ran out, the text added is the
   * recursive printer on the forest of the elements visited, and all of them were visited up to
   * the first one nested too deeply.
   */
  method Visit(out: Builder, events: seq<E.Event>) returns (visited: nat)
    requires out.Valid() && Preorder(Arrivals(events)) && forall i :: 0 <= i < |events| ==> E.InInput(events[i])
    modifies out, out.data
    ensures visited <= |events| && out.Valid()
    ensures !out.failed ==> out.Text() == old(out.Text()) + Print(Build(Arrivals(events), visited))
    ensures out.failed && !old(out.failed) ==>
      out.Excused(|old(out.Text())| + |Print(Build(Arrivals(events), visited))|)
    ensures !out.failed ==> visited == |events| || events[visited].depth > CAPACITY
  {
    hide E.Parts;
    forall i | 0 <= i < |events|
      ensures AllFit(Arrivals(events)[i].parts)
    {
      E.PartsFit(events[i]);
    }
    visited := VisitArrivals(out, Arrivals(events));
  }
}
