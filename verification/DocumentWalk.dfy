/** The stackless document traversal of document_query (bindings/lua/src/document.c). */
module DocumentWalk {
  import opened Tlv

  type Node = nat

  const INT_MAX: nat := 0x7FFF_FFFF

  /** The pointers a document keeps: its first root, and each node's first child, next sibling and parent. */
  datatype Links = Links(first: Option<Node>, child: map<Node, Node>, next: map<Node, Node>, parent: map<Node, Node>)

  function Follow(m: map<Node, Node>, n: Node): Option<Node> {
    if n in m then Some(m[n]) else None
  }

  /** A node with its children and the siblings after it. */
  datatype Forest = Leaf | Tree(node: Node, children: Forest, siblings: Forest)

  /** The pointers from `at` on, below `parent`, spell this forest. */
  ghost predicate Shows(links: Links, parent: Option<Node>, at: Option<Node>, f: Forest)
    decreases f
  {
    match f
    case Leaf => at == None
    case Tree(n, children, siblings) =>
      && at == Some(n) && Follow(links.parent, n) == parent
      && Shows(links, Some(n), Follow(links.child, n), children)
      && Shows(links, parent, Follow(links.next, n), siblings)
  }

  datatype Visit = Visit(node: Node, depth: nat)

  function Preorder(f: Forest, depth: nat): seq<Visit> {
    match f
    case Leaf => []
    case Tree(n, children, siblings) => [Visit(n, depth)] + Preorder(children, depth + 1) + Preorder(siblings, depth)
  }

  // ----- Every node occurs once -----

  function Nodes(f: Forest): set<Node> {
    match f
    case Leaf => {}
    case Tree(n, children, siblings) => {n} + Nodes(children) + Nodes(siblings)
  }

  function Size(f: Forest): nat {
    if f.Leaf? then 0 else 1 + Size(f.children) + Size(f.siblings)
  }

  /** The pointers determine the forest. */
  lemma {:induction false} Determined(
    links: Links, p: Option<Node>, q: Option<Node>, at: Option<Node>, f: Forest, g: Forest)
    requires Shows(links, p, at, f) && Shows(links, q, at, g)
    ensures f == g
    decreases f
  {
    if f.Tree? {
      Determined(links, Some(f.node), Some(f.node), Follow(links.child, f.node), f.children, g.children);
      Determined(links, p, q, Follow(links.next, f.node), f.siblings, g.siblings);
    }
  }

  /** From any node in a forest the pointers show no more than the forest itself. */
  lemma {:induction false} Within(links: Links, p: Option<Node>, at: Option<Node>, f: Forest, n: Node)
    returns (q: Option<Node>, g: Forest)
    requires Shows(links, p, at, f) && n in Nodes(f)
    ensures Shows(links, q, Some(n), g) && Size(g) <= Size(f)
    decreases f
  {
    if n == f.node {
      q, g := p, f;
    } else if n in Nodes(f.children) {
      q, g := Within(links, Some(f.node), Follow(links.child, f.node), f.children, n);
    } else {
      q, g := Within(links, p, Follow(links.next, f.node), f.siblings, n);
    }
  }

  /** No node lies below or behind itself. */
  lemma NotInItself(links: Links, p: Option<Node>, f: Forest)
    requires f.Tree? && Shows(links, p, Some(f.node), f)
    ensures f.node !in Nodes(f.children) && f.node !in Nodes(f.siblings)
  {
    if f.node in Nodes(f.children) {
      var q, g := Within(links, Some(f.node), Follow(links.child, f.node), f.children, f.node);
      Determined(links, p, q, Some(f.node), f, g);
    }
    if f.node in Nodes(f.siblings) {
      var q, g := Within(links, p, Follow(links.next, f.node), f.siblings, f.node);
      Determined(links, p, q, Some(f.node), f, g);
    }
  }

  /** A node's parent is the forest's own or lies in the forest. */
  lemma {:induction false} ParentNearby(links: Links, p: Option<Node>, at: Option<Node>, f: Forest, n: Node)
    requires Shows(links, p, at, f) && n in Nodes(f)
    ensures Follow(links.parent, n) == p
         || (Follow(links.parent, n).Some? && Follow(links.parent, n).value in Nodes(f))
    decreases f
  {
    if n != f.node {
      if n in Nodes(f.children) {
        ParentNearby(links, Some(f.node), Follow(links.child, f.node), f.children, n);
      } else {
        ParentNearby(links, p, Follow(links.next, f.node), f.siblings, n);
      }
    }
  }

  /** Forests below different parents share no node, unless one parent lies in the other forest. */
  lemma {:induction false} Apart(
    links: Links, q: Node, at: Option<Node>, f: Forest, p: Option<Node>, from: Option<Node>, g: Forest)
    requires Shows(links, Some(q), at, f) && Shows(links, p, from, g)
    requires Some(q) != p && q !in Nodes(g) && (p.Some? ==> p.value !in Nodes(f))
    ensures Nodes(f) !! Nodes(g)
    decreases f
  {
    if f.Tree? {
      if f.node in Nodes(g) {
        ParentNearby(links, p, from, g, f.node);
      }
      Apart(links, f.node, Follow(links.child, f.node), f.children, p, from, g);
      Apart(links, q, Follow(links.next, f.node), f.siblings, p, from, g);
    }
  }

  ghost predicate AllDistinct(visits: seq<Visit>) {
    forall i, j :: 0 <= i < j < |visits| ==> visits[i].node != visits[j].node
  }

  lemma {:induction false} VisitsAreNodes(f: Forest, depth: nat)
    ensures forall v :: v in Preorder(f, depth) ==> v.node in Nodes(f)
    ensures forall n :: n in Nodes(f) ==> exists v :: v in Preorder(f, depth) && v.node == n
  {
    if f.Tree? {
      VisitsAreNodes(f.children, depth + 1);
      VisitsAreNodes(f.siblings, depth);
      assert Visit(f.node, depth) in Preorder(f, depth);
    }
  }

  lemma JoinDistinct(first: Visit, a: seq<Visit>, b: seq<Visit>, below: set<Node>, behind: set<Node>)
    requires AllDistinct(a) && AllDistinct(b) && below !! behind && first.node !in below + behind
    requires (forall v :: v in a ==> v.node in below) && (forall v :: v in b ==> v.node in behind)
    ensures AllDistinct([first] + a + b)
  {
    var all := [first] + a + b;
    forall i, j | 0 <= i < j < |all|
      ensures all[i].node != all[j].node
    {
      assert i == 0 || i > |a| || all[i] == a[i - 1];
      assert j <= |a| || all[j] == b[j - 1 - |a|];
    }
  }

  /** However the pointers are set, a document they show visits each node at most once. */
  lemma {:induction false} VisitedOnce(links: Links, p: Option<Node>, at: Option<Node>, f: Forest, depth: nat)
    requires Shows(links, p, at, f) && (p.Some? ==> p.value !in Nodes(f))
    ensures AllDistinct(Preorder(f, depth))
    decreases f
  {
    if f.Tree? {
      NotInItself(links, p, f);
      VisitedOnce(links, Some(f.node), Follow(links.child, f.node), f.children, depth + 1);
      VisitedOnce(links, p, Follow(links.next, f.node), f.siblings, depth);
      Apart(links, f.node, Follow(links.child, f.node), f.children, p, Follow(links.next, f.node), f.siblings);
      VisitsAreNodes(f.children, depth + 1);
      VisitsAreNodes(f.siblings, depth);
      JoinDistinct(Visit(f.node, depth), Preorder(f.children, depth + 1), Preorder(f.siblings, depth),
                   Nodes(f.children), Nodes(f.siblings));
    }
  }

  /** The preorder of a document names every one of its nodes, and none twice. */
  ghost predicate EachOnce(all: Forest) {
    && AllDistinct(Preorder(all, 0))
    && (forall n :: n in Nodes(all) ==> exists v :: v in Preorder(all, 0) && v.node == n)
  }

  lemma VisitsEachOnce(links: Links, all: Forest)
    requires Shows(links, None, links.first, all)
    ensures EachOnce(all)
  {
    VisitedOnce(links, None, links.first, all, 0);
    VisitsAreNodes(all, 0);
  }

  // ----- What preorder means in terms of the pointers -----

  /** Parents, from a node to a root. */
  ghost predicate Ancestry(links: Links, line: seq<Node>, above: Option<Node>) {
    && line != [] && Follow(links.parent, line[|line| - 1]) == above
    && forall i :: 0 < i < |line| ==> Follow(links.parent, line[i - 1]) == Some(line[i])
  }

  /** A visit's depth is the number of its node's ancestors. */
  lemma {:induction false} DepthIsAncestry(
    links: Links, parent: Option<Node>, at: Option<Node>, f: Forest, depth: nat, i: nat) returns (line: seq<Node>)
    requires Shows(links, parent, at, f) && i < |Preorder(f, depth)|
    ensures Ancestry(links, line, parent) && line[0] == Preorder(f, depth)[i].node
    ensures |line| == Preorder(f, depth)[i].depth - depth + 1
    decreases f
  {
    var below := |Preorder(f.children, depth + 1)|;
    if i == 0 {
      line := [f.node];
    } else if i <= below {
      var lower := DepthIsAncestry(
        links, Some(f.node), Follow(links.child, f.node), f.children, depth + 1, i - 1);
      line := lower + [f.node];
    } else {
      line := DepthIsAncestry(links, parent, Follow(links.next, f.node), f.siblings, depth, i - 1 - below);
    }
  }

  /** A node's first child is visited right after it, one deeper. */
  lemma {:induction false} ChildIsNext(
    links: Links, parent: Option<Node>, at: Option<Node>, f: Forest, depth: nat, i: nat)
    requires Shows(links, parent, at, f) && i < |Preorder(f, depth)|
    requires Follow(links.child, Preorder(f, depth)[i].node).Some?
    ensures var visits := Preorder(f, depth);
      i + 1 < |visits|
      && visits[i + 1] == Visit(Follow(links.child, visits[i].node).value, visits[i].depth + 1)
    decreases f
  {
    var below := |Preorder(f.children, depth + 1)|;
    if 0 < i <= below {
      ChildIsNext(links, Some(f.node), Follow(links.child, f.node), f.children, depth + 1, i - 1);
    } else if i > below {
      ChildIsNext(links, parent, Follow(links.next, f.node), f.siblings, depth, i - 1 - below);
    }
  }

  lemma {:induction false} DeeperBelow(f: Forest, depth: nat, i: nat)
    requires i < |Preorder(f, depth)|
    ensures Preorder(f, depth)[i].depth >= depth
    decreases f
  {
    var below := |Preorder(f.children, depth + 1)|;
    if 0 < i <= below {
      DeeperBelow(f.children, depth + 1, i - 1);
    } else if i > below {
      DeeperBelow(f.siblings, depth, i - 1 - below);
    }
  }

  /** Behind visit i, this node comes at j, at the same depth, with only deeper ones between. */
  ghost predicate FollowedAt(visits: seq<Visit>, i: nat, j: nat, node: Node) {
    && i < j < |visits| && visits[j] == Visit(node, visits[i].depth)
    && forall k :: i < k < j ==> visits[k].depth > visits[i].depth
  }

  lemma FollowedWithin(before: seq<Visit>, part: seq<Visit>, after: seq<Visit>, i: nat, j: nat, node: Node)
    requires FollowedAt(part, i, j, node)
    ensures FollowedAt(before + part + after, |before| + i, |before| + j, node)
  {
    var visits := before + part + after;
    assert forall k :: i <= k <= j ==> visits[|before| + k] == part[k];
    forall k | |before| + i < k < |before| + j
      ensures visits[k].depth > part[i].depth
    {
      assert visits[k] == part[k - |before|];
    }
  }

  lemma FirstSibling(n: Node, children: Forest, siblings: Forest, depth: nat)
    requires siblings.Tree?
    ensures var visits := Preorder(Tree(n, children, siblings), depth);
      FollowedAt(visits, 0, 1 + |Preorder(children, depth + 1)|, siblings.node)
  {
    var c := Preorder(children, depth + 1);
    forall k | 0 <= k < |c|
      ensures c[k].depth > depth
    {
      DeeperBelow(children, depth + 1, k);
    }
  }

  /** A node's next sibling is visited after all that is deeper, at the same depth. */
  lemma {:induction false} SiblingFollows(
    links: Links, parent: Option<Node>, at: Option<Node>, f: Forest, depth: nat, i: nat) returns (j: nat)
    requires Shows(links, parent, at, f) && i < |Preorder(f, depth)|
    requires Follow(links.next, Preorder(f, depth)[i].node).Some?
    ensures FollowedAt(Preorder(f, depth), i, j, Follow(links.next, Preorder(f, depth)[i].node).value)
    decreases f
  {
    hide FollowedAt;
    var next := Follow(links.next, Preorder(f, depth)[i].node).value;
    var c, s := Preorder(f.children, depth + 1), Preorder(f.siblings, depth);
    var first := [Visit(f.node, depth)];
    if i == 0 {
      j := 1 + |c|;
      FirstSibling(f.node, f.children, f.siblings, depth);
    } else if i <= |c| {
      var lower := SiblingFollows(
        links, Some(f.node), Follow(links.child, f.node), f.children, depth + 1, i - 1);
      FollowedWithin(first, c, s, i - 1, lower, next);
      j := 1 + lower;
    } else {
      var later := SiblingFollows(
        links, parent, Follow(links.next, f.node), f.siblings, depth, i - 1 - |c|);
      FollowedWithin(first + c, s, [], i - 1 - |c|, later, next);
      assert first + c + s + [] == first + c + s;
      j := 1 + |c| + later;
    }
  }

  /** The way back up: each enclosing node with the siblings still to come after it. */
  datatype Path = Top | Inside(node: Node, siblings: Forest, up: Path)

  function Depth(p: Path): nat {
    if p.Top? then 0 else 1 + Depth(p.up)
  }

  function Enclosing(p: Path): Option<Node> {
    if p.Top? then None else Some(p.node)
  }

  /** What the walk still owes after the current level. */
  function Owed(p: Path): seq<Visit> {
    if p.Top? then [] else Preorder(p.siblings, Depth(p.up)) + Owed(p.up)
  }

  ghost predicate PathShown(links: Links, p: Path) {
    p.Inside? ==>
      && Follow(links.parent, p.node) == Enclosing(p.up)
      && Shows(links, Enclosing(p.up), Follow(links.next, p.node), p.siblings)
      && PathShown(links, p.up)
  }

  /** The nodes a history-dependent matcher selects among the first n visits. */
  function Selected(visits: seq<Visit>, n: nat, matches: seq<Visit> -> bool): seq<Node>
    requires n <= |visits|
  {
    if n == 0 then []
    else Selected(visits, n - 1, matches) + if matches(visits[..n]) then [visits[n - 1].node] else []
  }

  /** A node is returned exactly if the matcher selected it when it was visited. */
  lemma {:induction false} SelectedExactly(visits: seq<Visit>, n: nat, matches: seq<Visit> -> bool, x: Node)
    requires n <= |visits|
    ensures x in Selected(visits, n, matches) <==>
      exists i :: 0 <= i < n && visits[i].node == x && matches(visits[..i + 1])
  {
    if n > 0 {
      SelectedExactly(visits, n - 1, matches, x);
      if matches(visits[..n]) && visits[n - 1].node == x {
        assert visits[..n - 1 + 1] == visits[..n];
      }
    }
  }

  lemma {:induction false} SelectedGrows(visits: seq<Visit>, m: nat, n: nat, matches: seq<Visit> -> bool)
    requires m <= n <= |visits|
    ensures |Selected(visits, m, matches)| <= |Selected(visits, n, matches)|
  {
    if m < n {
      SelectedGrows(visits, m, n - 1, matches);
    }
  }

  /** The climb past exhausted levels: the next node to visit, or none. */
  method Climb(links: Links, start: Node, startDepth: nat, ghost siblings: Forest, ghost path: Path)
    returns (node: Option<Node>, depth: nat, ghost rest: Forest, ghost way: Path)
    requires Follow(links.parent, start) == Enclosing(path) && startDepth == Depth(path)
    requires Shows(links, Enclosing(path), Follow(links.next, start), siblings) && PathShown(links, path)
    ensures Shows(links, Enclosing(way), node, rest) && PathShown(links, way) && depth == Depth(way)
    ensures Preorder(rest, depth) + Owed(way) == Preorder(siblings, startDepth) + Owed(path)
    ensures node == None ==> Preorder(siblings, startDepth) + Owed(path) == []
  {
    node, depth, rest, way := Some(start), startDepth, siblings, path;
    while node.Some? && Follow(links.next, node.value).None?
      invariant PathShown(links, way) && depth == Depth(way)
      invariant node.Some? ==>
        && Follow(links.parent, node.value) == Enclosing(way)
        && Shows(links, Enclosing(way), Follow(links.next, node.value), rest)
      invariant node.None? ==> rest == Leaf && way == Top
      invariant Preorder(rest, depth) + Owed(way) == Preorder(siblings, startDepth) + Owed(path)
      decreases way, node.Some?
    {
      assert rest == Leaf;
      node := Follow(links.parent, node.value);
      if depth > 0 {
        depth := depth - 1;
      }
      if way.Inside? {
        rest, way := way.siblings, way.up;
      }
    }
    if node.Some? {
      node := Follow(links.next, node.value);
    }
  }

  /** One move of the walk: down to the first child, or on behind the subtree. */
  method Advance(links: Links, at: Node, atDepth: nat, ghost cur: Forest, ghost path: Path)
    returns (node: Option<Node>, depth: nat, ghost rest: Forest, ghost way: Path)
    requires Shows(links, Enclosing(path), Some(at), cur) && PathShown(links, path) && atDepth == Depth(path)
    ensures Shows(links, Enclosing(way), node, rest) && PathShown(links, way) && depth == Depth(way)
    ensures Preorder(rest, depth) + Owed(way)
         == Preorder(cur.children, atDepth + 1) + (Preorder(cur.siblings, atDepth) + Owed(path))
    ensures node == None ==> Preorder(rest, depth) + Owed(way) == []
  {
    var child := Follow(links.child, at);
    if child.Some? {
      return child, atDepth + 1, cur.children, Inside(cur.node, cur.siblings, path);
    }
    assert cur.children == Leaf;
    node, depth, rest, way := Climb(links, at, atDepth, cur.siblings, path);
  }

  /** Visiting the current node leaves its children, then its siblings, then what is owed above. */
  lemma VisitOne(cur: Forest, depth: nat, owed: seq<Visit>, seen: seq<Visit>, order: seq<Visit>)
    requires cur.Tree? && seen + (Preorder(cur, depth) + owed) == order
    ensures var now := seen + [Visit(cur.node, depth)];
      && |now| <= |order| && order[..|now|] == now && order[|seen|] == Visit(cur.node, depth)
      && now + (Preorder(cur.children, depth + 1) + (Preorder(cur.siblings, depth) + owed)) == order
  {
    var now := seen + [Visit(cur.node, depth)];
    var c, s := Preorder(cur.children, depth + 1), Preorder(cur.siblings, depth);
    assert seen + (([Visit(cur.node, depth)] + c + s) + owed) == now + (c + (s + owed));
    assert order[..|now|] == now;
  }

  /** One more visit selects its node or not. */
  lemma SelectOne(order: seq<Visit>, n: nat, matches: seq<Visit> -> bool)
    requires n < |order|
    ensures Selected(order, n + 1, matches)
         == Selected(order, n, matches) + if matches(order[..n + 1]) then [order[n].node] else []
    ensures |Selected(order, n + 1, matches)| <= |Selected(order, |order|, matches)|
  {
    SelectedGrows(order, n + 1, |order|, matches);
  }

  /** document_query: the walk calls the matcher on every node, in preorder, at its depth. */
  method Query(links: Links, ghost all: Forest, matches: seq<Visit> -> bool) returns (status: Status, found: seq<Node>)
    requires Shows(links, None, links.first, all)
    ensures status in {Ok, ErrLimit}
    ensures EachOnce(all) == true
    ensures status == Ok <==> |Selected(Preorder(all, 0), |Preorder(all, 0)|, matches)| <= INT_MAX
    ensures status == Ok ==> found == Selected(Preorder(all, 0), |Preorder(all, 0)|, matches)
  {
    VisitsEachOnce(links, all);
    found := [];
    var seen: seq<Visit> := [];
    var depth := 0;
    var node := links.first;
    ghost var cur, path := all, Top;
    ghost var order := Preorder(all, 0);
    ghost var ahead := Preorder(cur, depth) + Owed(path);
    while node.Some?
      invariant Shows(links, Enclosing(path), node, cur) && PathShown(links, path) && depth == Depth(path)
      invariant ahead == Preorder(cur, depth) + Owed(path) && seen + ahead == order
      invariant node.None? ==> ahead == []
      invariant found == Selected(order, |seen|, matches) && |found| <= INT_MAX
      decreases |order| - |seen|
    {
      VisitOne(cur, depth, Owed(path), seen, order);
      SelectOne(order, |seen|, matches);
      ghost var later := Preorder(cur.children, depth + 1) + (Preorder(cur.siblings, depth) + Owed(path));
      seen := seen + [Visit(node.value, depth)];
      if matches(seen) {
        if |found| == INT_MAX {
          return ErrLimit, [];
        }
        found := found + [node.value];
      }
      node, depth, cur, path := Advance(links, node.value, depth, cur, path);
      ahead := later;
    }
    assert seen == order;
    return Ok, found;
  }
}
