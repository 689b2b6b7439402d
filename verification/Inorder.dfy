/** In-order walking of parent-linked binary trees: bst_next of graph/bst.hpp and the loop of graph/inorder.hpp. */
module Inorder {
  import opened Prelude

  datatype Node = Node(left: Option<nat>, right: Option<nat>, parent: Option<nat>)

  datatype Tree = Leaf | Branch(left: Tree, handle: nat, right: Tree)

  /** The handles of a tree: left subtree, node, right subtree. */
  function InOrder(t: Tree): seq<nat> {
    match t
    case Leaf => []
    case Branch(l, h, r) => InOrder(l) + [h] + InOrder(r)
  }

  function Link(t: Tree): Option<nat> {
    match t
    case Leaf => None
    case Branch(_, h, _) => Some(h)
  }

  /** The linked nodes spell out the tree `t`, whose root has the given parent. */
  ghost predicate Represents(nodes: map<nat, Node>, t: Tree, parent: Option<nat>) {
    match t
    case Leaf => true
    case Branch(l, h, r) =>
      && h in nodes && nodes[h] == Node(Link(l), Link(r), parent)
      && Represents(nodes, l, Some(h)) && Represents(nodes, r, Some(h))
  }

  /** No handle occurs twice. */
  ghost predicate WellFormed(nodes: map<nat, Node>, t: Tree) {
    Represents(nodes, t, None) && Distinct(InOrder(t))
  }

  // ---------------------------------------------------------------------------------------------------------------
  // Where a subtree lies in the order
  // ---------------------------------------------------------------------------------------------------------------

  /** A node's position in the in-order sequence, and the range its subtree takes. */
  datatype Span = Span(lo: nat, pos: nat, hi: nat)

  ghost function SpanOf(t: Tree, h: nat, at: nat): Span
    requires h in InOrder(t)
  {
    var n := |InOrder(t.left)|;
    if h == t.handle then Span(at, at + n, at + |InOrder(t)|)
    else if h in InOrder(t.left) then SpanOf(t.left, h, at)
    else SpanOf(t.right, h, at + n + 1)
  }

  // What the links of `h` say about spans.
  ghost predicate Placed(nodes: map<nat, Node>, t: Tree, parent: Option<nat>, at: nat, h: nat)
    requires h in InOrder(t)
  {
    var s := SpanOf(t, h, at);
    && h in nodes
    && at <= s.lo <= s.pos < s.hi <= at + |InOrder(t)| && InOrder(t)[s.pos - at] == h
    && LeftPlaced(nodes, t, at, h) && RightPlaced(nodes, t, at, h) && ParentPlaced(nodes, t, parent, h)
  }

  ghost predicate LeftPlaced(nodes: map<nat, Node>, t: Tree, at: nat, h: nat)
    requires h in InOrder(t) && h in nodes
  {
    var s := SpanOf(t, h, at);
    match nodes[h].left
    case None => s.lo == s.pos
    case Some(c) => c in InOrder(t) && SpanOf(t, c, at).lo == s.lo && SpanOf(t, c, at).hi == s.pos
  }

  ghost predicate RightPlaced(nodes: map<nat, Node>, t: Tree, at: nat, h: nat)
    requires h in InOrder(t) && h in nodes
  {
    var s := SpanOf(t, h, at);
    match nodes[h].right
    case None => s.hi == s.pos + 1
    case Some(c) => c in InOrder(t) && SpanOf(t, c, at).lo == s.pos + 1 && SpanOf(t, c, at).hi == s.hi
  }

  ghost predicate ParentPlaced(nodes: map<nat, Node>, t: Tree, parent: Option<nat>, h: nat)
    requires h in InOrder(t) && h in nodes
  {
    if Link(t) == Some(h) then nodes[h].parent == parent
    else
      match nodes[h].parent
      case None => false
      case Some(p) =>
        && p in InOrder(t) && p in nodes
        && (nodes[p].left == Some(h) || nodes[p].right == Some(h))
  }

  lemma RootLinks(nodes: map<nat, Node>, t: Tree, parent: Option<nat>)
    requires t.Branch? && Represents(nodes, t, parent)
    ensures t.handle in nodes && nodes[t.handle] == Node(Link(t.left), Link(t.right), parent)
  {
  }

  lemma LeftLifts(nodes: map<nat, Node>, t: Tree, parent: Option<nat>, at: nat, h: nat)
    requires t.Branch? && Represents(nodes, t, parent) && Distinct(InOrder(t)) && h in InOrder(t.left)
    requires Placed(nodes, t.left, Some(t.handle), at, h)
    ensures h in InOrder(t) && Placed(nodes, t, parent, at, h)
  {
    hide Represents, Distinct;
    PartsDistinct(t.left, t.handle, t.right);
    SpanInLeft(t, at);
    RootLinks(nodes, t, parent);
  }

  lemma RightLifts(nodes: map<nat, Node>, t: Tree, parent: Option<nat>, at: nat, h: nat)
    requires t.Branch? && Represents(nodes, t, parent) && Distinct(InOrder(t)) && h in InOrder(t.right)
    requires Placed(nodes, t.right, Some(t.handle), at + |InOrder(t.left)| + 1, h)
    ensures h in InOrder(t) && Placed(nodes, t, parent, at, h)
  {
    PartsDistinct(t.left, t.handle, t.right);
    SpanInRight(t, at);
  }

  lemma InOrderMembers(t: Tree, h: nat)
    requires t.Branch?
    ensures h in InOrder(t) <==> h == t.handle || h in InOrder(t.left) || h in InOrder(t.right)
  {
  }

  lemma SpanInLeft(t: Tree, at: nat)
    requires t.Branch? && t.handle !in InOrder(t.left)
    ensures forall h {:trigger SpanOf(t.left, h, at)} :: h in InOrder(t.left)
              ==> h in InOrder(t) && SpanOf(t, h, at) == SpanOf(t.left, h, at)
  {
    forall h | h in InOrder(t.left) ensures h in InOrder(t) && SpanOf(t, h, at) == SpanOf(t.left, h, at) {
      InOrderMembers(t, h);
    }
  }

  lemma SpanInRight(t: Tree, at: nat)
    requires t.Branch? && t.handle !in InOrder(t.right)
    requires forall h :: h in InOrder(t.left) ==> h !in InOrder(t.right)
    ensures forall h {:trigger SpanOf(t.right, h, at + |InOrder(t.left)| + 1)} :: h in InOrder(t.right)
              ==> h in InOrder(t) && SpanOf(t, h, at) == SpanOf(t.right, h, at + |InOrder(t.left)| + 1)
  {
    forall h | h in InOrder(t.right)
      ensures h in InOrder(t) && SpanOf(t, h, at) == SpanOf(t.right, h, at + |InOrder(t.left)| + 1)
    {
      InOrderMembers(t, h);
    }
  }

  lemma RootPlaced(nodes: map<nat, Node>, t: Tree, parent: Option<nat>, at: nat)
    requires t.Branch? && Represents(nodes, t, parent) && Distinct(InOrder(t))
    ensures t.handle in InOrder(t) && Placed(nodes, t, parent, at, t.handle)
  {
    PartsDistinct(t.left, t.handle, t.right);
    SpanInLeft(t, at);
    SpanInRight(t, at);
    RootSpan(nodes, t.left, Some(t.handle), at);
    RootSpan(nodes, t.right, Some(t.handle), at + |InOrder(t.left)| + 1);
  }

  lemma {:induction false} AllPlaced(nodes: map<nat, Node>, t: Tree, parent: Option<nat>, at: nat, h: nat)
    requires Represents(nodes, t, parent) && Distinct(InOrder(t)) && h in InOrder(t)
    ensures Placed(nodes, t, parent, at, h)
  {
    hide Placed, SpanOf;
    PartsDistinct(t.left, t.handle, t.right);
    if h == t.handle {
      RootPlaced(nodes, t, parent, at);
    } else if h in InOrder(t.left) {
      AllPlaced(nodes, t.left, Some(t.handle), at, h);
      LeftLifts(nodes, t, parent, at, h);
    } else {
      AllPlaced(nodes, t.right, Some(t.handle), at + |InOrder(t.left)| + 1, h);
      RightLifts(nodes, t, parent, at, h);
    }
  }

  lemma RootSpan(nodes: map<nat, Node>, t: Tree, parent: Option<nat>, at: nat)
    ensures t.Leaf? ==> InOrder(t) == []
    ensures t.Branch? ==> t.handle in InOrder(t)
                          && SpanOf(t, t.handle, at) == Span(at, at + |InOrder(t.left)|, at + |InOrder(t)|)
  {
  }

  lemma PartsDistinct(l: Tree, x: nat, r: Tree)
    requires Distinct(InOrder(Branch(l, x, r)))
    ensures Distinct(InOrder(l)) && Distinct(InOrder(r)) && x !in InOrder(l) && x !in InOrder(r)
    ensures forall h :: h in InOrder(l) ==> h !in InOrder(r)
  {
    var s, n := InOrder(Branch(l, x, r)), |InOrder(l)|;
    assert forall i :: 0 <= i < n ==> InOrder(l)[i] == s[i];
    assert s[n] == x;
    assert forall i :: 0 <= i < |InOrder(r)| ==> InOrder(r)[i] == s[n + 1 + i];
  }

  // ---------------------------------------------------------------------------------------------------------------
  // Walking
  // ---------------------------------------------------------------------------------------------------------------

  // The facts about one node of a whole tree.
  lemma NodePlaced(nodes: map<nat, Node>, t: Tree, h: nat)
    requires WellFormed(nodes, t) && h in InOrder(t)
    ensures h in nodes
    ensures var s := SpanOf(t, h, 0);
            && s.lo <= s.pos < s.hi <= |InOrder(t)| && InOrder(t)[s.pos] == h
            && (nodes[h].left.None? ==> s.lo == s.pos)
            && (nodes[h].left.Some?
                ==> var c := nodes[h].left.value;
                    c in InOrder(t) && SpanOf(t, c, 0).lo == s.lo && SpanOf(t, c, 0).hi == s.pos)
            && (nodes[h].right.None? ==> s.hi == s.pos + 1)
            && (nodes[h].right.Some?
                ==> var c := nodes[h].right.value;
                    c in InOrder(t) && SpanOf(t, c, 0).lo == s.pos + 1 && SpanOf(t, c, 0).hi == s.hi)
            && (nodes[h].parent.None? ==> s.hi == |InOrder(t)|)
            && (nodes[h].parent.Some?
                ==> var p := nodes[h].parent.value;
                    p in InOrder(t) && p in nodes && (nodes[p].left == Some(h) || nodes[p].right == Some(h)))
  {
    hide Represents, Distinct;
    AllPlaced(nodes, t, None, 0, h);
    RootSpan(nodes, t, None, 0);
  }

  lemma PositionUnique(t: Tree, i: nat, j: nat)
    requires Distinct(InOrder(t)) && i < |InOrder(t)| && j < |InOrder(t)| && InOrder(t)[i] == InOrder(t)[j]
    ensures i == j
  {
  }

  /** The node at the left end of the subtree of `h`. */
  method Leftmost(nodes: map<nat, Node>, ghost t: Tree, h: nat) returns (curr: nat)
    requires WellFormed(nodes, t) && h in InOrder(t)
    ensures curr in InOrder(t) && SpanOf(t, curr, 0).pos == SpanOf(t, h, 0).lo < |InOrder(t)|
    ensures InOrder(t)[SpanOf(t, h, 0).lo] == curr
  {
    hide WellFormed, SpanOf, InOrder;
    curr := h;
    NodePlaced(nodes, t, curr);
    while nodes[curr].left.Some?
      invariant curr in InOrder(t) && curr in nodes && SpanOf(t, curr, 0).lo == SpanOf(t, h, 0).lo
      decreases SpanOf(t, curr, 0).hi - SpanOf(t, curr, 0).lo
    {
      NodePlaced(nodes, t, curr);
      curr := nodes[curr].left.value;
      NodePlaced(nodes, t, curr);
    }
    NodePlaced(nodes, t, curr);
  }

  /** The next node in order, or an invalid handle after the last one. */
  method BstNext(nodes: map<nat, Node>, ghost t: Tree, v: nat) returns (r: Option<nat>)
    requires WellFormed(nodes, t) && v in InOrder(t)
    ensures var i := SpanOf(t, v, 0).pos;
            && i < |InOrder(t)| && InOrder(t)[i] == v
            && r == if i + 1 < |InOrder(t)| then Some(InOrder(t)[i + 1]) else None
  {
    hide WellFormed, SpanOf, InOrder;
    NodePlaced(nodes, t, v);
    if nodes[v].right.Some? {
      var curr := Leftmost(nodes, t, nodes[v].right.value);
      return Some(curr);
    }
    var curr := v;
    while true
      invariant curr in InOrder(t) && curr in nodes && SpanOf(t, curr, 0).hi == SpanOf(t, v, 0).pos + 1
      decreases |InOrder(t)| - (SpanOf(t, curr, 0).hi - SpanOf(t, curr, 0).lo)
    {
      NodePlaced(nodes, t, curr);
      if nodes[curr].parent.None? { return None; }
      var parent := nodes[curr].parent.value;
      NodePlaced(nodes, t, parent);
      if nodes[parent].left == Some(curr) { return Some(parent); }
      curr := parent;
      NodePlaced(nodes, t, curr);
    }
  }

  /** A search tree: on the left of every node the keys are smaller, on the right they are larger. */
  ghost predicate SearchTree(t: Tree, key: nat -> int) {
    match t
    case Leaf => true
    case Branch(l, h, r) =>
      && SearchTree(l, key) && SearchTree(r, key)
      && (forall x :: x in InOrder(l) ==> key(x) < key(h))
      && forall x :: x in InOrder(r) ==> key(h) < key(x)
  }

  /** In order the keys of a search tree increase. */
  lemma {:induction false} InOrderSorted(t: Tree, key: nat -> int)
    requires SearchTree(t, key)
    ensures forall i, j :: 0 <= i < j < |InOrder(t)| ==> key(InOrder(t)[i]) < key(InOrder(t)[j])
  {
    match t
    case Leaf =>
    case Branch(l, h, r) =>
      InOrderSorted(l, key);
      InOrderSorted(r, key);
      SortedAround(InOrder(l), h, InOrder(r), key);
  }

  lemma SortedAround(l: seq<nat>, h: nat, r: seq<nat>, key: nat -> int)
    requires forall i, j :: 0 <= i < j < |l| ==> key(l[i]) < key(l[j])
    requires forall i, j :: 0 <= i < j < |r| ==> key(r[i]) < key(r[j])
    requires (forall x :: x in l ==> key(x) < key(h)) && forall x :: x in r ==> key(h) < key(x)
    ensures var s := l + [h] + r; forall i, j :: 0 <= i < j < |s| ==> key(s[i]) < key(s[j])
  {
    var s, n := l + [h] + r, |l|;
    forall i, j | 0 <= i < j < |s| ensures key(s[i]) < key(s[j]) {
      assert i < n ==> s[i] == l[i] && l[i] in l;
      assert j < n ==> s[j] == l[j];
      assert i > n ==> s[i] == r[i - n - 1];
      assert j > n ==> s[j] == r[j - n - 1] && r[j - n - 1] in r;
    }
  }

  /** The loop over a tree: from the leftmost node on until the handle is invalid, it shows the in-order sequence, which
    * for a search tree is the one of increasing keys. */
  method Walk(nodes: map<nat, Node>, ghost t: Tree, root: nat) returns (shown: seq<nat>)
    requires WellFormed(nodes, t) && Link(t) == Some(root)
    ensures shown == InOrder(t)
    ensures forall key: nat -> int :: SearchTree(t, key) ==>
              forall i, j :: 0 <= i < j < |shown| ==> key(shown[i]) < key(shown[j])
  {
    hide WellFormed, SpanOf, InOrder, SearchTree;
    forall key: nat -> int | SearchTree(t, key)
      ensures forall i, j :: 0 <= i < j < |InOrder(t)| ==> key(InOrder(t)[i]) < key(InOrder(t)[j])
    {
      InOrderSorted(t, key);
    }
    RootSpan(nodes, t, None, 0);
    shown := [];
    var first := Leftmost(nodes, t, root);
    var handle := Some(first);
    while handle.Some?
      invariant |shown| <= |InOrder(t)| && shown == InOrder(t)[..|shown|]
      invariant handle.None? ==> |shown| == |InOrder(t)|
      invariant handle.Some? ==> handle.value in InOrder(t) && SpanOf(t, handle.value, 0).pos == |shown|
      decreases |InOrder(t)| - |shown|
    {
      var next := BstNext(nodes, t, handle.value);
      shown := shown + [handle.value];
      if next.Some? {
        NodePlaced(nodes, t, next.value);
        PositionOf(nodes, t, next.value, |shown|);
      }
      handle := next;
    }
  }

  lemma PositionOf(nodes: map<nat, Node>, t: Tree, h: nat, i: nat)
    requires WellFormed(nodes, t) && i < |InOrder(t)| && InOrder(t)[i] == h
    ensures h in InOrder(t) && SpanOf(t, h, 0).pos == i
  {
    NodePlaced(nodes, t, h);
    PositionUnique(t, i, SpanOf(t, h, 0).pos);
  }
}
