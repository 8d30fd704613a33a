/** Borrowed node handles of the Lua Document binding (bindings/lua/src/document.c). */
module NodeHandles {
  import opened Tlv

  /** A native node's address. Addresses of freed nodes may be used again. */
  type Node = nat

  /** The live nodes of a document, each with its parent; roots have none. */
  type Tree = map<Node, Option<Node>>

  /** Parents are live and strictly closer to the root. */
  ghost predicate Grounded(tree: Tree, level: map<Node, nat>) {
    forall n :: n in tree ==>
      && n in level
      && (tree[n].Some? ==>
            tree[n].value in tree && tree[n].value in level && level[tree[n].value] < level[n])
  }

  /** `root` is the node itself or one of its ancestors. */
  ghost predicate AtOrBelow(tree: Tree, level: map<Node, nat>, n: Node, root: Node)
    requires Grounded(tree, level) && n in tree
    decreases level[n]
  {
    n == root || (tree[n].Some? && AtOrBelow(tree, level, tree[n].value, root))
  }

  ghost predicate Below(tree: Tree, level: map<Node, nat>, n: Node, root: Node)
    requires Grounded(tree, level) && n in tree
  {
    tree[n].Some? && AtOrBelow(tree, level, tree[n].value, root)
  }

  /** A way from a node up to an ancestor, parent by parent. */
  ghost predicate WayUp(tree: Tree, way: seq<Node>) {
    way != [] && forall i :: 0 < i < |way| ==> Climbs(tree, way[i - 1], way[i])
  }

  ghost predicate Climbs(tree: Tree, n: Node, parent: Node) {
    n in tree && tree[n] == Some(parent)
  }

  /** Being in a subtree is having a way up to its root. */
  lemma {:induction false} AtOrBelowIsAWay(tree: Tree, level: map<Node, nat>, n: Node, root: Node)
    requires Grounded(tree, level) && n in tree
    ensures AtOrBelow(tree, level, n, root) <==> exists way :: WayUp(tree, way) && way[0] == n && way[|way| - 1] == root
    decreases level[n]
  {
    if n == root {
      assert WayUp(tree, [n]);
    } else {
      if tree[n].Some? {
        AtOrBelowIsAWay(tree, level, tree[n].value, root);
      }
      if AtOrBelow(tree, level, n, root) {
        var rest :| WayUp(tree, rest) && rest[0] == tree[n].value && rest[|rest| - 1] == root;
        assert Climbs(tree, n, rest[0]);
        assert WayUp(tree, [n] + rest);
      }
      if way :| WayUp(tree, way) && way[0] == n && way[|way| - 1] == root {
        WayOn(tree, way);
      }
    }
  }

  lemma WayOn(tree: Tree, way: seq<Node>)
    requires WayUp(tree, way) && |way| > 1
    ensures way[0] in tree && tree[way[0]] == Some(way[1]) && WayUp(tree, way[1..])
    ensures way[1..][|way| - 2] == way[|way| - 1]
  {
    assert Climbs(tree, way[0], way[1]);
    assert forall i :: 1 < i < |way| ==> Climbs(tree, way[i - 1], way[i]);
  }

  class Handle {
    var node: Option<Node>
    var owner: Document?
    var affected: bool
    var next: Handle?
    var previous: Handle?

    constructor ()
      ensures node == None && owner == null && !affected && next == null && previous == null
    {
      node, owner, affected, next, previous := None, null, false, null, null;
    }
  }

  class Document {
    var tree: Tree
    ghost var level: map<Node, nat>
    var handles: Handle?
    var queryActive: nat
    ghost var list: seq<Handle>

    /** A doubly linked list of this document's handles; no live handle names a dead node. */
    ghost predicate Valid()
      reads this, list
    {
      && Grounded(tree, level)
      && (forall i, j :: 0 <= i < j < |list| ==> list[i] != list[j])
      && handles == (if list == [] then null else list[0])
      && forall i :: 0 <= i < |list| ==> Placed(i)
    }

    ghost predicate Placed(i: nat)
      requires i < |list|
      reads this, list
    {
      && list[i].owner == this
      && list[i].next == (if i + 1 < |list| then list[i + 1] else null)
      && list[i].previous == (if i > 0 then list[i - 1] else null)
      && (list[i].node.Some? ==> list[i].node.value in tree)
    }

    constructor (tree: Tree, ghost level: map<Node, nat>)
      requires Grounded(tree, level)
      ensures Valid() && this.tree == tree && list == [] && queryActive == 0
    {
      this.tree, this.level, handles, list, queryActive := tree, level, null, [], 0;
    }

    /** push_node for an existing node: a new handle at the head of the list. */
    method PushNode(node: Node) returns (h: Handle)
      requires Valid() && node in tree
      modifies this`handles, this`list, list
      ensures Valid() && fresh(h) && list == [h] + old(list) && h.node == Some(node)
      ensures forall k :: k in old(list) ==> k.node == old(k.node)
    {
      h := new Handle();
      Link(h, node);
    }

    method Link(h: Handle, node: Node)
      requires Valid() && node in tree && h !in list && h.previous == null
      modifies this`handles, this`list, list, h
      ensures Valid() && list == [h] + old(list) && h.node == Some(node)
      ensures forall k :: k in old(list) ==> k.node == old(k.node)
    {
      h.owner := this;
      h.node := Some(node);
      h.next := handles;
      assert handles != null ==> list != [] && Placed(0);
      ghost var before := list;
      if h.next != null {
        h.next.previous := h;
      }
      handles := h;
      list := [h] + list;
      forall i | 0 <= i < |list|
        ensures Placed(i)
      {
        if i > 0 {
          assert old(Placed(i - 1)) && list[i] == before[i - 1];
        }
      }
    }

    /** node_gc: a linked handle leaves the list, any other is only cleared; the rest keep their nodes. */
    method Collect(h: Handle)
      requires Valid() && if h.owner == null then h !in list else h in list
      modifies this`handles, this`list, list, h
      ensures Valid() && h.owner == null && h.node == None && h !in list
      ensures old(h.owner) == null ==> list == old(list)
      ensures old(h.owner) != null ==>
        exists i :: 0 <= i < |old(list)| && old(list)[i] == h && list == old(list)[..i] + old(list)[i + 1..]
      ensures forall k :: k in list ==> k.node == old(k.node)
    {
      if h.owner != null {
        Unlink(h);
      } else {
        ClearUnlinked(h);
      }
    }

    method ClearUnlinked(h: Handle)
      requires Valid() && h !in list && h.owner == null
      modifies h
      ensures Valid() && h.owner == null && h.node == None
    {
      h.node := None;
      forall i | 0 <= i < |list|
        ensures Placed(i)
      {
        assert old(Placed(i));
      }
    }

    method Unlink(h: Handle)
      requires Valid() && h in list
      modifies this`handles, this`list, list
      ensures Valid() && h.owner == null && h.node == None && h !in list
      ensures exists i :: 0 <= i < |old(list)| && old(list)[i] == h && list == old(list)[..i] + old(list)[i + 1..]
      ensures forall k :: k in list ==> k.node == old(k.node)
    {
      ghost var i :| 0 <= i < |list| && list[i] == h;
      assert Placed(i) && (i > 0 ==> Placed(i - 1)) && (i + 1 < |list| ==> Placed(i + 1));
      if h.previous != null {
        h.previous.next := h.next;
      } else {
        handles := h.next;
      }
      if h.next != null {
        h.next.previous := h.previous;
      }
      h.owner := null;
      h.node := None;
      list := list[..i] + list[i + 1..];
      forall k | 0 <= k < |list|
        ensures Placed(k)
      {
        if k < i {
          assert old(Placed(k)) && list[k] == old(list)[k];
        } else {
          assert old(Placed(k + 1)) && list[k] == old(list)[k + 1];
        }
      }
    }

    // ----- Invalidation -----

    /** An edit at `root` frees this node: the subtree, with or without its root. */
    ghost predicate Doomed(n: Node, root: Node, includeRoot: bool)
      requires Grounded(tree, level) && n in tree
      reads this
    {
      if includeRoot then AtOrBelow(tree, level, n, root) else Below(tree, level, n, root)
    }

    ghost predicate DoomedHandle(node: Option<Node>, root: Node, includeRoot: bool)
      requires Grounded(tree, level)
      reads this
    {
      node.Some? && node.value in tree && Doomed(node.value, root, includeRoot)
    }

    /** Which handles an edit dooms: those with a way up to its root, of at least one step if the root lives on. */
    lemma DoomedIsExact(n: Node, root: Node, includeRoot: bool)
      requires Valid() && n in tree
      ensures !DoomedHandle(None, root, includeRoot)
      ensures DoomedHandle(Some(n), root, includeRoot) <==>
        exists way ::
          WayUp(tree, way) && |way| > (if includeRoot then 0 else 1) && way[0] == n && way[|way| - 1] == root
    {
      AtOrBelowIsAWay(tree, level, n, root);
      if !includeRoot {
        if tree[n].Some? {
          AtOrBelowIsAWay(tree, level, tree[n].value, root);
        }
        if Below(tree, level, n, root) {
          var rest :| WayUp(tree, rest) && rest[0] == tree[n].value && rest[|rest| - 1] == root;
          assert Climbs(tree, n, rest[0]);
          assert WayUp(tree, [n] + rest);
        }
        if way :| WayUp(tree, way) && |way| > 1 && way[0] == n && way[|way| - 1] == root {
          WayOn(tree, way);
        }
      }
    }

    /** Climb from a node through its ancestors. */
    method Climb(start: Option<Node>, root: Node) returns (found: bool)
      requires Grounded(tree, level) && (start.Some? ==> start.value in tree)
      ensures found <==> start.Some? && AtOrBelow(tree, level, start.value, root)
    {
      var node := start;
      while node.Some?
        invariant node.Some? ==> node.value in tree
        invariant (start.Some? && AtOrBelow(tree, level, start.value, root))
             <==> (node.Some? && AtOrBelow(tree, level, node.value, root))
        decreases if node.Some? then level[node.value] + 1 else 0
      {
        if node.value == root {
          return true;
        }
        node := tree[node.value];
      }
      return false;
    }

    method SetAffected(handle: Handle, ghost i: nat, found: bool)
      requires Valid() && i < |list| && handle == list[i]
      modifies handle`affected
      ensures Valid() && handle.affected == found
    {
      handle.affected := found;
      forall k | 0 <= k < |list|
        ensures Placed(k)
      {
        assert old(Placed(k));
      }
    }

    method ClearNode(handle: Handle, ghost i: nat)
      requires Valid() && i < |list| && handle == list[i]
      modifies handle`node
      ensures Valid() && handle.node == None
    {
      handle.node := None;
      forall k | 0 <= k < |list|
        ensures Placed(k)
      {
        assert old(Placed(k));
      }
    }

    /** mark_handles: flags only, every handle keeps its node. */
    method Mark(root: Node, includeRoot: bool)
      requires Valid()
      modifies list
      ensures Valid()
      ensures forall i :: 0 <= i < |list| ==>
        list[i].node == old(list[i].node) && list[i].affected == DoomedHandle(list[i].node, root, includeRoot)
    {
      hide AtOrBelow;
      var handle := handles;
      ghost var i := 0;
      assert list != [] ==> Placed(0);
      while handle != null
        invariant i <= |list| && handle == (if i < |list| then list[i] else null)
        invariant Valid() && forall k :: 0 <= k < |list| ==> list[k].node == old(list[k].node)
        invariant forall k :: 0 <= k < i ==> list[k].affected == DoomedHandle(list[k].node, root, includeRoot)
        decreases |list| - i
      {
        assert Placed(i) && (i + 1 < |list| ==> Placed(i + 1));
        var node := handle.node;
        if node.Some? && !includeRoot {
          node := tree[node.value];
        }
        var found := Climb(node, root);
        SetAffected(handle, i, found);
        handle := handle.next;
        i := i + 1;
      }
    }

    /** invalidate_marked. */
    method InvalidateMarked()
      requires Valid()
      modifies list
      ensures Valid()
      ensures forall i :: 0 <= i < |list| ==>
        && list[i].affected == old(list[i].affected)
        && list[i].node == if list[i].affected then None else old(list[i].node)
    {
      var handle := handles;
      ghost var i := 0;
      while handle != null
        invariant i <= |list| && handle == (if i < |list| then list[i] else null)
        invariant Valid() && forall k :: 0 <= k < |list| ==> list[k].affected == old(list[k].affected)
        invariant forall k :: 0 <= k < i ==> list[k].node == if list[k].affected then None else old(list[k].node)
        invariant forall k :: i <= k < |list| ==> list[k].node == old(list[k].node)
        decreases |list| - i
      {
        assert Placed(i);
        if handle.affected {
          ClearNode(handle, i);
        }
        handle := handle.next;
        i := i + 1;
      }
    }

    // ----- Edits; the native call's effect on the tree comes as an argument -----

    /** What an edit at `root` leaves: every surviving node with its parent, and possibly new nodes. */
    ghost predicate Survives(after: Tree, root: Node, includeRoot: bool)
      requires Grounded(tree, level)
      reads this
    {
      forall n :: n in tree && !Doomed(n, root, includeRoot) ==> n in after && after[n] == tree[n]
    }

    /** The native tree is replaced by one in which every remembered node lives on. */
    method Replace(after: Tree, ghost afterLevel: map<Node, nat>)
      requires Valid() && Grounded(after, afterLevel)
      requires forall i :: 0 <= i < |list| && list[i].node.Some? ==> list[i].node.value in after
      modifies this`tree, this`level
      ensures Valid() && tree == after && level == afterLevel
    {
      tree, level := after, afterLevel;
      forall i | 0 <= i < |list|
        ensures Placed(i)
      {
        assert old(Placed(i));
      }
    }

    /** document_erase and node_erase: exactly the handles in the subtree are cleared. */
    method Erase(root: Node, after: Tree) returns (status: Status)
      requires Valid() && root in tree
      requires Survives(after, root, true)
      requires forall n :: n in after ==> n in tree && !Doomed(n, root, true)
      modifies this`tree, this`level, list
      ensures Valid() && list == old(list)
      ensures status == if old(queryActive) > 0 then ErrInvalidState else Ok
      ensures status == Ok ==> tree == after && forall i :: 0 <= i < |list| ==>
        list[i].node == if old(DoomedHandle(list[i].node, root, true)) then None else old(list[i].node)
      ensures status != Ok ==> tree == old(tree) && forall i :: 0 <= i < |list| ==> list[i].node == old(list[i].node)
    {
      if queryActive > 0 {
        return ErrInvalidState;
      }
      Mark(root, true);
      InvalidateMarked();
      forall i | 0 <= i < |list| && list[i].node.Some?
        ensures list[i].node.value in after
      {
        assert Placed(i) && !list[i].affected && !DoomedHandle(list[i].node, root, true);
      }
      Replace(after, level);
      return Ok;
    }

    /** node_set and document_set: on success exactly the handles strictly below the node are cleared. */
    method SetValue(node: Node, code: Status, after: Tree, ghost afterLevel: map<Node, nat>) returns (status: Status)
      requires Valid() && node in tree
      requires code == Ok ==> Survives(after, node, false) && Grounded(after, afterLevel)
      modifies this`tree, this`level, list
      ensures Valid() && list == old(list)
      ensures status == if old(queryActive) > 0 then ErrInvalidState else code
      ensures status == Ok ==> tree == after && forall i :: 0 <= i < |list| ==>
        list[i].node == if old(DoomedHandle(list[i].node, node, false)) then None else old(list[i].node)
      ensures status != Ok ==> tree == old(tree) && forall i :: 0 <= i < |list| ==> list[i].node == old(list[i].node)
    {
      if queryActive > 0 {
        return ErrInvalidState;
      }
      Mark(node, false);
      if code != Ok {
        return code;
      }
      InvalidateMarked();
      forall i | 0 <= i < |list| && list[i].node.Some?
        ensures list[i].node.value in after
      {
        assert Placed(i) && !list[i].affected && !DoomedHandle(list[i].node, node, false);
      }
      Replace(after, afterLevel);
      return Ok;
    }

    /** document_insert: the prepared handle is linked only when the native insertion succeeded. */
    method Insert(code: Status, node: Node, after: Tree, ghost afterLevel: map<Node, nat>)
      returns (status: Status, h: Handle?)
      requires Valid()
      requires code == Ok ==>
        node in after && Grounded(after, afterLevel) && forall n :: n in tree ==> n in after && after[n] == tree[n]
      modifies this`tree, this`level, this`handles, this`list, list
      ensures Valid()
      ensures status == if old(queryActive) > 0 then ErrInvalidState else code
      ensures status == Ok ==> h != null && fresh(h) && tree == after && list == [h] + old(list) && h.node == Some(node)
      ensures status != Ok ==> tree == old(tree) && list == old(list) && (h != null ==> fresh(h) && h.owner == null)
      ensures forall k :: k in old(list) ==> k.node == old(k.node)
    {
      if queryActive > 0 {
        return ErrInvalidState, null;
      }
      var prepared := new Handle();
      if code != Ok {
        return code, prepared;
      }
      forall i | 0 <= i < |list| && list[i].node.Some?
        ensures list[i].node.value in after
      {
        assert Placed(i);
      }
      Replace(after, afterLevel);
      Link(prepared, node);
      return Ok, prepared;
    }

    /** document_gc: closing clears every handle and frees every node. */
    method Close() returns (status: Status)
      requires Valid()
      modifies this`tree, this`level, list
      ensures Valid() && list == old(list)
      ensures status == if old(queryActive) > 0 then ErrInvalidState else Ok
      ensures status == Ok ==> tree == map[] && forall i :: 0 <= i < |list| ==> list[i].node == None
      ensures status != Ok ==> tree == old(tree) && forall i :: 0 <= i < |list| ==> list[i].node == old(list[i].node)
    {
      if queryActive > 0 {
        return ErrInvalidState;
      }
      var handle := handles;
      ghost var i := 0;
      while handle != null
        invariant i <= |list| && handle == (if i < |list| then list[i] else null)
        invariant Valid() && forall k :: 0 <= k < i ==> list[k].node == None
        decreases |list| - i
      {
        assert Placed(i);
        ClearNode(handle, i);
        handle := handle.next;
        i := i + 1;
      }
      Replace(map[], map[]);
      return Ok;
    }
  }
}
