/** The shape of the kd-tree of linalg/kd.hpp: boxes hang in a binary tree whose level picks an axis, and every node
  * keeps how far its left subtree reaches up (`lTo`) and its right subtree reaches down (`rFr`). This module states
  * the invariant and proves that each step of an insertion keeps it. Coordinates are reals. */
module KdShape {
  import opened Prelude
  import NumberTheory

  datatype Box = Box(min: seq<real>, max: seq<real>)

  datatype Node = Node(box: Box, lTo: real, rFr: real, left: Option<nat>, right: Option<nat>)

  /** What the proofs remember of a tree: the handles at or below each node, and its depth. */
  datatype Shape = Shape(sub: map<nat, set<nat>>, depth: map<nat, nat>)

  predicate Sized(box: Box, dim: nat) {
    |box.min| == dim && |box.max| == dim
  }

  ghost function Under(sub: map<nat, set<nat>>, link: Option<nat>): set<nat> {
    if link.Some? && link.value in sub then sub[link.value] else {}
  }

  ghost predicate Splits(whole: set<nat>, h: nat, l: set<nat>, r: set<nat>) {
    whole == {h} + l + r && h !in l && h !in r && l !! r
  }

  // The subtree of `h` is `h` and its two disjoint child subtrees.
  ghost predicate Joined(nodes: map<nat, Node>, sub: map<nat, set<nat>>, h: nat)
    requires h in nodes && h in sub
  {
    && (nodes[h].left.Some? ==> nodes[h].left.value in sub)
    && (nodes[h].right.Some? ==> nodes[h].right.value in sub)
    && Splits(sub[h], h, Under(sub, nodes[h].left), Under(sub, nodes[h].right))
    && sub[h] <= sub.Keys
  }

  ghost predicate Shaped(nodes: map<nat, Node>, sub: map<nat, set<nat>>) {
    && sub.Keys <= nodes.Keys
    && forall h :: h in sub ==> Joined(nodes, sub, h)
  }

  // A child lies only in subtrees that hold its parent, and in its own.
  ghost predicate ChildClosed(nodes: map<nat, Node>, sub: map<nat, set<nat>>, h: nat, a: nat)
    requires h in nodes && a in sub
  {
    && (nodes[h].left.Some? && nodes[h].left.value in sub[a] ==> h in sub[a] || nodes[h].left.value == a)
    && (nodes[h].right.Some? && nodes[h].right.value in sub[a] ==> h in sub[a] || nodes[h].right.value == a)
  }

  ghost predicate Closed(nodes: map<nat, Node>, sub: map<nat, set<nat>>)
    requires sub.Keys <= nodes.Keys
  {
    forall h, a :: h in sub && a in sub ==> ChildClosed(nodes, sub, h, a)
  }

  // A node below `a` has its whole subtree below `a`.
  ghost predicate Nested(sub: map<nat, set<nat>>) {
    forall a, b :: a in sub && b in sub && b in sub[a] ==> sub[b] <= sub[a]
  }

  ghost predicate Deeper(nodes: map<nat, Node>, t: Shape, h: nat)
    requires h in nodes && h in t.depth
  {
    && (nodes[h].left.Some? ==> nodes[h].left.value in t.depth && t.depth[nodes[h].left.value] == t.depth[h] + 1)
    && (nodes[h].right.Some? ==> nodes[h].right.value in t.depth && t.depth[nodes[h].right.value] == t.depth[h] + 1)
  }

  ghost predicate Depths(nodes: map<nat, Node>, t: Shape) {
    && t.depth.Keys == t.sub.Keys <= nodes.Keys
    && forall h :: h in t.depth ==> Deeper(nodes, t, h)
  }

  // `x` is within the bound that `h` keeps for the side `x` is on.
  ghost predicate Within(nodes: map<nat, Node>, t: Shape, dim: nat, h: nat, x: nat, box: Box)
    requires dim > 0 && Sized(box, dim) && h in nodes && h in t.depth
  {
    && (x in Under(t.sub, nodes[h].left) ==> box.max[t.depth[h] % dim] <= nodes[h].lTo)
    && (x in Under(t.sub, nodes[h].right) ==> box.min[t.depth[h] % dim] >= nodes[h].rFr)
  }

  ghost predicate BoxesSized(nodes: map<nat, Node>, dim: nat) {
    forall h :: h in nodes ==> Sized(nodes[h].box, dim)
  }

  /** Every left subtree stays at or below `lTo`, every right subtree at or above `rFr`, on the axis of its level. */
  ghost predicate Bounded(nodes: map<nat, Node>, t: Shape, dim: nat)
    requires dim > 0 && BoxesSized(nodes, dim)
  {
    forall h, x :: h in t.depth && h in nodes && x in nodes ==> Within(nodes, t, dim, h, x, nodes[x].box)
  }

  ghost predicate Rooted(root: Option<nat>, sub: map<nat, set<nat>>) {
    && (root.None? ==> sub == map[])
    && (root.Some? ==> root.value in sub && sub[root.value] == sub.Keys
                       && forall a :: a in sub && root.value in sub[a] ==> a == root.value)
  }

  ghost predicate TreeOk(nodes: map<nat, Node>, root: Option<nat>, t: Shape, dim: nat) {
    && dim > 0 && BoxesSized(nodes, dim)
    && Shaped(nodes, t.sub) && Closed(nodes, t.sub) && Nested(t.sub) && Depths(nodes, t) && Bounded(nodes, t, dim)
    && Rooted(root, t.sub)
    && (root.Some? ==> root.value in t.depth && t.depth[root.value] == 0)
  }

  // ---------------------------------------------------------------------------------------------------------------
  // Inserting
  // ---------------------------------------------------------------------------------------------------------------

  // A box put below `cur` would respect the bounds of every node properly above `cur`.
  ghost predicate PathOk(nodes: map<nat, Node>, t: Shape, dim: nat, cur: nat, box: Box)
    requires dim > 0 && Sized(box, dim) && t.depth.Keys == t.sub.Keys <= nodes.Keys
  {
    forall a :: a in t.sub && a != cur && cur in t.sub[a] ==> Within(nodes, t, dim, a, cur, box)
  }

  // The two bounds of `h` may only have been relaxed.
  ghost predicate Relaxed(nodes: map<nat, Node>, nodes': map<nat, Node>, h: nat) {
    && h in nodes && nodes'.Keys == nodes.Keys
    && (forall x :: x in nodes && x != h ==> nodes'[x] == nodes[x])
    && nodes'[h] == nodes[h].(lTo := nodes'[h].lTo, rFr := nodes'[h].rFr)
    && nodes'[h].lTo >= nodes[h].lTo && nodes'[h].rFr <= nodes[h].rFr
  }

  lemma RelaxedWithin(nodes: map<nat, Node>, nodes': map<nat, Node>, t: Shape, dim: nat, h: nat, a: nat, x: nat,
                      box: Box)
    requires dim > 0 && Sized(box, dim) && Relaxed(nodes, nodes', h) && a in nodes && a in t.depth
    requires Within(nodes, t, dim, a, x, box)
    ensures Within(nodes', t, dim, a, x, box)
  {
    if a != h { assert nodes'[a] == nodes[a]; }
  }

  ghost predicate SameLinks(nodes: map<nat, Node>, nodes': map<nat, Node>) {
    && nodes.Keys <= nodes'.Keys
    && forall h :: h in nodes ==> nodes'[h].left == nodes[h].left && nodes'[h].right == nodes[h].right
  }

  lemma SameLinksShaped(nodes: map<nat, Node>, nodes': map<nat, Node>, t: Shape)
    requires SameLinks(nodes, nodes') && Shaped(nodes, t.sub) && Closed(nodes, t.sub) && Depths(nodes, t)
    ensures Shaped(nodes', t.sub) && Closed(nodes', t.sub) && Depths(nodes', t)
  {
    hide Under;
    forall a | a in t.sub ensures Joined(nodes', t.sub, a) { assert Joined(nodes, t.sub, a); }
    forall a, b | a in t.sub && b in t.sub ensures ChildClosed(nodes', t.sub, a, b) {
      assert ChildClosed(nodes, t.sub, a, b);
    }
    forall a | a in t.depth ensures Deeper(nodes', t, a) { assert Deeper(nodes, t, a); }
  }

  lemma RelaxedTreeOk(nodes: map<nat, Node>, nodes': map<nat, Node>, root: Option<nat>, t: Shape, dim: nat, h: nat)
    requires TreeOk(nodes, root, t, dim) && Relaxed(nodes, nodes', h)
    ensures TreeOk(nodes', root, t, dim)
  {
    hide Within, Shaped, Closed, Depths, Nested, Rooted;
    SameLinksShaped(nodes, nodes', t);
    assert forall x :: x in nodes ==> nodes'[x].box == nodes[x].box;
    forall a, x | a in t.depth && a in nodes' && x in nodes' ensures Within(nodes', t, dim, a, x, nodes'[x].box) {
      RelaxedWithin(nodes, nodes', t, dim, h, a, x, nodes[x].box);
    }
  }

  /** One step down: `cur` has just been relaxed to admit the box on the side of `child`. */
  lemma Descend(nodes: map<nat, Node>, nodes': map<nat, Node>, root: Option<nat>, t: Shape, dim: nat,
                cur: nat, child: nat, box: Box)
    requires TreeOk(nodes, root, t, dim) && Relaxed(nodes, nodes', cur) && cur in t.sub && Sized(box, dim)
    requires PathOk(nodes, t, dim, cur, box)
    requires child in t.sub && Within(nodes', t, dim, cur, child, box)
    requires nodes[cur].left == Some(child) || nodes[cur].right == Some(child)
    ensures PathOk(nodes', t, dim, child, box)
    ensures t.sub[child] < t.sub[cur] && t.depth[child] == t.depth[cur] + 1
  {
    hide BoxesSized, Bounded;
    assert Joined(nodes, t.sub, cur) && Joined(nodes, t.sub, child) && Deeper(nodes, t, cur);
    forall a | a in t.sub && a != child && child in t.sub[a] ensures Within(nodes', t, dim, a, child, box) {
      if a != cur {
        assert ChildClosed(nodes, t.sub, cur, a);
        assert cur in t.sub[a];
        assert Within(nodes, t, dim, a, cur, box);
        SameSide(nodes, t, a, cur, child);
        RelaxedWithin(nodes, nodes', t, dim, cur, a, child, box);
      }
    }
  }

  lemma OneParent(nodes: map<nat, Node>, t: Shape, a: nat, b: nat, child: nat)
    requires Shaped(nodes, t.sub) && Closed(nodes, t.sub) && Nested(t.sub)
    requires a in t.sub && b in t.sub && child in t.sub
    requires nodes[a].left == Some(child) || nodes[a].right == Some(child)
    requires nodes[b].left == Some(child) || nodes[b].right == Some(child)
    ensures a == b
  {
    assert Joined(nodes, t.sub, a) && Joined(nodes, t.sub, b) && Joined(nodes, t.sub, child);
    assert ChildClosed(nodes, t.sub, a, b) && ChildClosed(nodes, t.sub, b, a);
    assert t.sub[a] == t.sub[b];
  }

  // The child of a node below `a` is on the same side of `a`.
  lemma SameSide(nodes: map<nat, Node>, t: Shape, a: nat, cur: nat, child: nat)
    requires Shaped(nodes, t.sub) && Closed(nodes, t.sub) && Nested(t.sub)
    requires a in t.sub && cur in t.sub && child in t.sub && a != cur && a != child && cur in t.sub[a]
    requires nodes[cur].left == Some(child) || nodes[cur].right == Some(child)
    ensures cur in Under(t.sub, nodes[a].left) <==> child in Under(t.sub, nodes[a].left)
    ensures cur in Under(t.sub, nodes[a].right) <==> child in Under(t.sub, nodes[a].right)
  {
    hide Depths;
    assert Joined(nodes, t.sub, a) && Joined(nodes, t.sub, cur) && Joined(nodes, t.sub, child);
    assert child in t.sub[cur] && t.sub[cur] <= t.sub[a];
    if nodes[a].left == Some(child) || nodes[a].right == Some(child) { OneParent(nodes, t, a, cur, child); }
    if nodes[a].left.Some? { assert ChildClosed(nodes, t.sub, cur, nodes[a].left.value); }
    if nodes[a].right.Some? { assert ChildClosed(nodes, t.sub, cur, nodes[a].right.value); }
  }

  ghost function Grafted(t: Shape, cur: nat, n: nat): Shape
    requires cur in t.sub && cur in t.depth
  {
    Shape((map a | a in t.sub :: if cur in t.sub[a] then t.sub[a] + {n} else t.sub[a])[n := {n}],
          t.depth[n := t.depth[cur] + 1])
  }

  // The leaf `n` becomes the child of `cur` on a side where `cur` has none.
  ghost predicate Grafting(nodes: map<nat, Node>, nodes': map<nat, Node>, t: Shape, cur: nat, n: nat) {
    && cur in t.sub && t.depth.Keys == t.sub.Keys && t.sub.Keys <= nodes.Keys && n in nodes && n !in t.sub
    && nodes[n].left.None? && nodes[n].right.None?
    && (|| (nodes[cur].left.None? && nodes' == nodes[cur := nodes[cur].(left := Some(n))])
        || (nodes[cur].right.None? && nodes' == nodes[cur := nodes[cur].(right := Some(n))]))
  }

  ghost function Plus(s: set<nat>, cur: nat, n: nat): set<nat> {
    if cur in s then s + {n} else s
  }

  lemma GraftedUnder(nodes: map<nat, Node>, t: Shape, cur: nat, n: nat, link: Option<nat>)
    requires cur in t.sub && cur in t.depth && n !in t.sub
    requires link.Some? ==> link.value in t.sub
    ensures Under(Grafted(t, cur, n).sub, link) == Plus(Under(t.sub, link), cur, n)
  {
  }

  lemma PlusSplits(whole: set<nat>, h: nat, l: set<nat>, r: set<nat>, cur: nat, n: nat)
    requires Splits(whole, h, l, r) && n !in whole && cur != n
    ensures h != cur ==> Splits(Plus(whole, cur, n), h, Plus(l, cur, n), Plus(r, cur, n))
    ensures h == cur ==> Plus(l, cur, n) == l && Plus(r, cur, n) == r
    ensures h == cur && l == {} ==> Splits(Plus(whole, cur, n), h, {n}, r)
    ensures h == cur && r == {} ==> Splits(Plus(whole, cur, n), h, l, {n})
  {
  }

  lemma GraftedJoined(nodes: map<nat, Node>, nodes': map<nat, Node>, t: Shape, cur: nat, n: nat, a: nat)
    requires Grafting(nodes, nodes', t, cur, n) && a in t.sub && Joined(nodes, t.sub, a)
    ensures Joined(nodes', Grafted(t, cur, n).sub, a)
  {
    hide Splits, Under;
    GraftedUnder(nodes, t, cur, n, nodes[a].left);
    GraftedUnder(nodes, t, cur, n, nodes[a].right);
    var l, r := Under(t.sub, nodes[a].left), Under(t.sub, nodes[a].right);
    PlusSplits(t.sub[a], a, l, r, cur, n);
    if a == cur { GraftedEnds(nodes, nodes', t, cur, n); }
  }

  lemma GraftedEnds(nodes: map<nat, Node>, nodes': map<nat, Node>, t: Shape, cur: nat, n: nat)
    requires Grafting(nodes, nodes', t, cur, n)
    ensures nodes[cur].left.None? ==> Under(t.sub, nodes[cur].left) == {}
    ensures nodes[cur].right.None? ==> Under(t.sub, nodes[cur].right) == {}
    ensures Under(Grafted(t, cur, n).sub, Some(n)) == {n}
  {
  }

  lemma GraftedRoot(nodes: map<nat, Node>, nodes': map<nat, Node>, root: Option<nat>, t: Shape, cur: nat, n: nat)
    requires Grafting(nodes, nodes', t, cur, n) && Rooted(root, t.sub)
    ensures Rooted(root, Grafted(t, cur, n).sub)
    ensures root.value in t.depth && Grafted(t, cur, n).depth[root.value] == t.depth[root.value]
  {
  }

  lemma GraftedKeys(nodes: map<nat, Node>, nodes': map<nat, Node>, t: Shape, cur: nat, n: nat)
    requires Grafting(nodes, nodes', t, cur, n)
    ensures cur in t.sub && n !in t.sub && t.depth.Keys == t.sub.Keys
    ensures Grafted(t, cur, n).sub.Keys == t.sub.Keys + {n} == Grafted(t, cur, n).depth.Keys
    ensures nodes'.Keys == nodes.Keys && n in nodes' && Joined(nodes', Grafted(t, cur, n).sub, n)
    ensures forall x :: x in nodes ==> nodes'[x].box == nodes[x].box
  {
  }

  lemma GraftedShaped(nodes: map<nat, Node>, nodes': map<nat, Node>, t: Shape, cur: nat, n: nat)
    requires Grafting(nodes, nodes', t, cur, n) && Shaped(nodes, t.sub)
    ensures Shaped(nodes', Grafted(t, cur, n).sub)
  {
    hide Joined, Grafted;
    GraftedKeys(nodes, nodes', t, cur, n);
    forall a | a in t.sub ensures Joined(nodes', Grafted(t, cur, n).sub, a) {
      GraftedJoined(nodes, nodes', t, cur, n, a);
    }
  }

  lemma GraftedClosed(nodes: map<nat, Node>, nodes': map<nat, Node>, t: Shape, cur: nat, n: nat)
    requires Grafting(nodes, nodes', t, cur, n) && Shaped(nodes, t.sub) && Closed(nodes, t.sub)
    ensures Closed(nodes', Grafted(t, cur, n).sub)
  {
    hide Splits, Under;
    forall h, a | h in Grafted(t, cur, n).sub && a in Grafted(t, cur, n).sub
      ensures ChildClosed(nodes', Grafted(t, cur, n).sub, h, a)
    {
      if h != n {
        assert Joined(nodes, t.sub, h);
        if a != n { assert Joined(nodes, t.sub, a) && ChildClosed(nodes, t.sub, h, a); }
      }
    }
  }

  lemma GraftedNested(nodes: map<nat, Node>, t: Shape, cur: nat, n: nat)
    requires cur in t.sub && cur in t.depth && n !in t.sub && Shaped(nodes, t.sub) && Nested(t.sub)
    ensures Nested(Grafted(t, cur, n).sub)
  {
    hide Splits, Under;
    forall a | a in t.sub ensures t.sub[a] <= t.sub.Keys { assert Joined(nodes, t.sub, a); }
  }

  lemma GraftedDepths(nodes: map<nat, Node>, nodes': map<nat, Node>, t: Shape, cur: nat, n: nat)
    requires Grafting(nodes, nodes', t, cur, n) && Depths(nodes, t)
    ensures Depths(nodes', Grafted(t, cur, n))
  {
    forall h | h in Grafted(t, cur, n).depth ensures Deeper(nodes', Grafted(t, cur, n), h) {
      if h != n { assert Deeper(nodes, t, h); }
    }
  }

  lemma GraftedWithin(nodes: map<nat, Node>, nodes': map<nat, Node>, t: Shape, dim: nat, cur: nat, n: nat, h: nat,
                      x: nat, box: Box)
    requires Grafting(nodes, nodes', t, cur, n) && Shaped(nodes, t.sub) && dim > 0 && Sized(box, dim) && h in t.depth
    requires x != n && Within(nodes, t, dim, h, x, box)
    ensures Within(nodes', Grafted(t, cur, n), dim, h, x, box)
  {
    hide Splits, Under;
    assert Joined(nodes, t.sub, h);
    GraftedUnder(nodes, t, cur, n, nodes[h].left);
    GraftedUnder(nodes, t, cur, n, nodes[h].right);
    if h == cur { GraftedEnds(nodes, nodes', t, cur, n); }
  }

  // The new node itself: below `cur` it lies within every bound above.
  lemma GraftWithin(nodes: map<nat, Node>, nodes': map<nat, Node>, t: Shape, dim: nat, cur: nat, n: nat, h: nat)
    requires Grafting(nodes, nodes', t, cur, n) && Shaped(nodes, t.sub) && dim > 0 && Sized(nodes[n].box, dim)
    requires h in t.depth && (h != cur ==> cur in t.sub[h] ==> Within(nodes, t, dim, h, cur, nodes[n].box))
    requires nodes[cur].left != nodes'[cur].left ==> nodes[n].box.max[t.depth[cur] % dim] <= nodes[cur].lTo
    requires nodes[cur].right != nodes'[cur].right ==> nodes[n].box.min[t.depth[cur] % dim] >= nodes[cur].rFr
    ensures Within(nodes', Grafted(t, cur, n), dim, h, n, nodes[n].box)
  {
    hide Under;
    assert Joined(nodes, t.sub, h);
    GraftedUnder(nodes, t, cur, n, nodes[h].left);
    GraftedUnder(nodes, t, cur, n, nodes[h].right);
    if h == cur { GraftedEnds(nodes, nodes', t, cur, n); }
  }

  lemma GraftedLeafWithin(nodes: map<nat, Node>, nodes': map<nat, Node>, t: Shape, dim: nat, cur: nat, n: nat, x: nat)
    requires Grafting(nodes, nodes', t, cur, n) && dim > 0 && x in nodes && Sized(nodes[x].box, dim)
    ensures Within(nodes', Grafted(t, cur, n), dim, n, x, nodes[x].box)
  {
  }

  lemma GraftedBounded(nodes: map<nat, Node>, nodes': map<nat, Node>, t: Shape, dim: nat, cur: nat, n: nat)
    requires Grafting(nodes, nodes', t, cur, n) && Shaped(nodes, t.sub) && dim > 0 && BoxesSized(nodes, dim)
    requires Bounded(nodes, t, dim) && PathOk(nodes, t, dim, cur, nodes[n].box)
    requires nodes[cur].left != nodes'[cur].left ==> nodes[n].box.max[t.depth[cur] % dim] <= nodes[cur].lTo
    requires nodes[cur].right != nodes'[cur].right ==> nodes[n].box.min[t.depth[cur] % dim] >= nodes[cur].rFr
    ensures BoxesSized(nodes', dim) && Bounded(nodes', Grafted(t, cur, n), dim)
  {
    hide Within, Shaped, Grafted, Grafting;
    GraftedKeys(nodes, nodes', t, cur, n);
    var t' := Grafted(t, cur, n);
    forall h, x | h in t'.depth && h in nodes' && x in nodes' ensures Within(nodes', t', dim, h, x, nodes'[x].box) {
      if h == n {
        GraftedLeafWithin(nodes, nodes', t, dim, cur, n, x);
      } else if x == n {
        GraftWithin(nodes, nodes', t, dim, cur, n, h);
      } else {
        GraftedWithin(nodes, nodes', t, dim, cur, n, h, x, nodes[x].box);
      }
    }
  }

  /** Linking the new leaf where the descent stopped keeps the whole invariant and adds exactly that handle. */
  lemma GraftedTreeOk(nodes: map<nat, Node>, nodes': map<nat, Node>, root: Option<nat>, t: Shape, dim: nat,
                      cur: nat, n: nat)
    requires TreeOk(nodes, root, t, dim) && Grafting(nodes, nodes', t, cur, n)
    requires PathOk(nodes, t, dim, cur, nodes[n].box)
    requires nodes[cur].left != nodes'[cur].left ==> nodes[n].box.max[t.depth[cur] % dim] <= nodes[cur].lTo
    requires nodes[cur].right != nodes'[cur].right ==> nodes[n].box.min[t.depth[cur] % dim] >= nodes[cur].rFr
    ensures TreeOk(nodes', root, Grafted(t, cur, n), dim)
    ensures Grafted(t, cur, n).sub.Keys == t.sub.Keys + {n}
  {
    hide Shaped, Closed, Nested, Depths, Bounded, PathOk, BoxesSized, Rooted, Grafted, Grafting;
    GraftedKeys(nodes, nodes', t, cur, n);
    GraftedRoot(nodes, nodes', root, t, cur, n);
    GraftedShaped(nodes, nodes', t, cur, n);
    GraftedClosed(nodes, nodes', t, cur, n);
    GraftedNested(nodes, t, cur, n);
    GraftedDepths(nodes, nodes', t, cur, n);
    GraftedBounded(nodes, nodes', t, dim, cur, n);
  }

  function Max(x: real, y: real): real {
    if x < y then y else x
  }

  function Min(x: real, y: real): real {
    if y < x then y else x
  }

  lemma NextAxis(depth: nat, dim: nat)
    requires dim > 0
    ensures (depth % dim + 1) % dim == (depth + 1) % dim
  {
    var q, r := depth / dim, depth % dim;
    assert depth == q * dim + r;
    if r + 1 == dim {
      assert depth + 1 == (q + 1) * dim by { assert (q + 1) * dim == q * dim + dim; }
      NumberTheory.DivModUnique(depth + 1, dim, q + 1, 0);
      NumberTheory.DivModUnique(r + 1, dim, 1, 0);
    } else {
      NumberTheory.DivModUnique(depth + 1, dim, q, r + 1);
      NumberTheory.DivModUnique(r + 1, dim, 0, r + 1);
    }
  }

  /** The descent has reached `cur`: the node `n` is in the forest but not linked, and would respect every bound
    * above. */
  ghost predicate Placing(nodes: map<nat, Node>, root: Option<nat>, t: Shape, dim: nat, cur: nat, n: nat, box: Box) {
    && TreeOk(nodes, root, t, dim) && Sized(box, dim)
    && n !in t.sub && nodes.Keys == t.sub.Keys + {n} && cur in t.sub
    && nodes[n].box == box && nodes[n].left.None? && nodes[n].right.None?
    && PathOk(nodes, t, dim, cur, box)
  }

  /** The tree holds every node of the forest. */
  ghost predicate Spanning(nodes: map<nat, Node>, root: Option<nat>, t: Shape, dim: nat) {
    TreeOk(nodes, root, t, dim) && t.sub.Keys == nodes.Keys
  }

  ghost predicate SameBoxes(before: map<nat, Node>, nodes: map<nat, Node>) {
    before.Keys == nodes.Keys && forall h :: h in before ==> nodes[h].box == before[h].box
  }

  lemma BoxKept(nodes: map<nat, Node>, h: nat, node: Node)
    requires h in nodes && node.box == nodes[h].box
    ensures SameBoxes(nodes, nodes[h := node])
  {
  }

  lemma SameBoxesTrans(a: map<nat, Node>, b: map<nat, Node>, c: map<nat, Node>)
    requires SameBoxes(a, b) && SameBoxes(b, c)
    ensures SameBoxes(a, c)
  {
  }

  lemma PlacingFacts(nodes: map<nat, Node>, root: Option<nat>, t: Shape, dim: nat, cur: nat, n: nat, box: Box)
    requires Placing(nodes, root, t, dim, cur, n, box)
    ensures dim > 0 && Sized(box, dim) && n in nodes && cur in nodes && cur != n && cur in t.sub && cur in t.depth
    ensures nodes.Keys == t.sub.Keys + {n} && nodes[n].box == box && n !in t.sub
    ensures Shaped(nodes, t.sub) && t.sub.Keys == t.depth.Keys
  {
  }

  lemma GoLeft(nodes: map<nat, Node>, nodes': map<nat, Node>, root: Option<nat>, t: Shape, dim: nat, cur: nat, n: nat,
               box: Box)
    requires Placing(nodes, root, t, dim, cur, n, box)
    requires nodes' == nodes[cur := nodes[cur].(lTo := Max(nodes[cur].lTo, box.max[t.depth[cur] % dim]))]
    ensures nodes[cur].left.None?
            ==> var linked := nodes'[cur := nodes'[cur].(left := Some(n))];
                Spanning(linked, root, Grafted(t, cur, n), dim) && SameBoxes(nodes, linked)
    ensures nodes[cur].left.Some?
            ==> var child := nodes[cur].left.value;
                Placing(nodes', root, t, dim, child, n, box) && child in t.sub && t.sub[child] < t.sub[cur]
                && child in t.depth && t.depth[child] % dim == (t.depth[cur] % dim + 1) % dim
                && SameBoxes(nodes, nodes')
  {
    hide Shaped, Closed, Nested, Bounded, Rooted, BoxesSized, Joined, PathOk, SameBoxes, Grafted;
    BoxKept(nodes, cur, nodes'[cur]);
    RelaxedTreeOk(nodes, nodes', root, t, dim, cur);
    if nodes[cur].left.None? {
      PathRelaxed(nodes, nodes', root, t, dim, cur, box);
      var linked := nodes'[cur := nodes'[cur].(left := Some(n))];
      GraftedTreeOk(nodes', linked, root, t, dim, cur, n);
      BoxKept(nodes', cur, linked[cur]);
      SameBoxesTrans(nodes, nodes', linked);
    } else {
      SidesInTree(nodes, t, cur);
      Descend(nodes, nodes', root, t, dim, cur, nodes[cur].left.value, box);
      NextAxis(t.depth[cur], dim);
    }
  }

  lemma GoRight(nodes: map<nat, Node>, nodes': map<nat, Node>, root: Option<nat>, t: Shape, dim: nat, cur: nat, n: nat,
                box: Box)
    requires Placing(nodes, root, t, dim, cur, n, box)
    requires nodes' == nodes[cur := nodes[cur].(rFr := Min(nodes[cur].rFr, box.min[t.depth[cur] % dim]))]
    ensures nodes[cur].right.None?
            ==> var linked := nodes'[cur := nodes'[cur].(right := Some(n))];
                Spanning(linked, root, Grafted(t, cur, n), dim) && SameBoxes(nodes, linked)
    ensures nodes[cur].right.Some?
            ==> var child := nodes[cur].right.value;
                Placing(nodes', root, t, dim, child, n, box) && child in t.sub && t.sub[child] < t.sub[cur]
                && child in t.depth && t.depth[child] % dim == (t.depth[cur] % dim + 1) % dim
                && SameBoxes(nodes, nodes')
  {
    hide Shaped, Closed, Nested, Bounded, Rooted, BoxesSized, Joined, PathOk, SameBoxes, Grafted;
    BoxKept(nodes, cur, nodes'[cur]);
    RelaxedTreeOk(nodes, nodes', root, t, dim, cur);
    if nodes[cur].right.None? {
      PathRelaxed(nodes, nodes', root, t, dim, cur, box);
      var linked := nodes'[cur := nodes'[cur].(right := Some(n))];
      GraftedTreeOk(nodes', linked, root, t, dim, cur, n);
      BoxKept(nodes', cur, linked[cur]);
      SameBoxesTrans(nodes, nodes', linked);
    } else {
      SidesInTree(nodes, t, cur);
      Descend(nodes, nodes', root, t, dim, cur, nodes[cur].right.value, box);
      NextAxis(t.depth[cur], dim);
    }
  }

  /** Where the descent starts. */
  lemma PlaceAtRoot(nodes: map<nat, Node>, root: Option<nat>, t: Shape, dim: nat, n: nat, leaf: Node)
    requires Spanning(nodes, root, t, dim) && n !in nodes && root.Some?
    requires Sized(leaf.box, dim) && leaf.left.None? && leaf.right.None?
    ensures Placing(nodes[n := leaf], root, t, dim, root.value, n, leaf.box)
    ensures SameBoxes(nodes[n := leaf], nodes[n := leaf])
    ensures dim > 0 && root.value in t.sub && root.value in t.depth && t.depth[root.value] % dim == 0
  {
    hide Shaped, Closed, Depths, Within, Nested;
    var nodes' := nodes[n := leaf];
    SameLinksShaped(nodes, nodes', t);
    DepthKeys(nodes, t);
    forall h, x | h in t.depth && h in nodes' && x in nodes' ensures Within(nodes', t, dim, h, x, nodes'[x].box) {
      LeafWithin(nodes, t, dim, h, x, n, leaf);
    }
  }

  lemma DepthKeys(nodes: map<nat, Node>, t: Shape)
    requires Depths(nodes, t)
    ensures t.depth.Keys == t.sub.Keys
  {
  }

  lemma LeafWithin(nodes: map<nat, Node>, t: Shape, dim: nat, h: nat, x: nat, n: nat, leaf: Node)
    requires dim > 0 && BoxesSized(nodes, dim) && Shaped(nodes, t.sub) && Bounded(nodes, t, dim)
    requires t.sub.Keys == nodes.Keys == t.depth.Keys && n !in nodes && h in t.depth && (x in nodes || x == n)
    requires Sized(leaf.box, dim)
    ensures Within(nodes[n := leaf], t, dim, h, x, nodes[n := leaf][x].box)
  {
    assert Joined(nodes, t.sub, h);
    if x in nodes { assert Within(nodes, t, dim, h, x, nodes[x].box); }
  }

  /** A tree of one node. */
  lemma OneNode(n: nat, leaf: Node, dim: nat)
    requires dim > 0 && Sized(leaf.box, dim) && leaf.left.None? && leaf.right.None?
    ensures TreeOk(map[n := leaf], Some(n), Shape(map[n := {n}], map[n := 0]), dim)
  {
    var nodes, sub := map[n := leaf], map[n := {n}];
    assert Under(sub, None) == {};
    assert Joined(nodes, sub, n) && ChildClosed(nodes, sub, n, n);
  }

  lemma PathRelaxed(nodes: map<nat, Node>, nodes': map<nat, Node>, root: Option<nat>, t: Shape, dim: nat, cur: nat,
                    box: Box)
    requires TreeOk(nodes, root, t, dim) && Relaxed(nodes, nodes', cur) && Sized(box, dim)
    requires PathOk(nodes, t, dim, cur, box)
    ensures PathOk(nodes', t, dim, cur, box)
  {
    hide Shaped, Closed, Nested, Bounded, Rooted, BoxesSized, Within;
    forall a | a in t.sub && a != cur && cur in t.sub[a] ensures Within(nodes', t, dim, a, cur, box) {
      RelaxedWithin(nodes, nodes', t, dim, cur, a, cur, box);
    }
  }

  // The children of a node are in the tree, each on its own side only.
  lemma SidesInTree(nodes: map<nat, Node>, t: Shape, cur: nat)
    requires Shaped(nodes, t.sub) && cur in t.sub
    ensures nodes[cur].left.Some?
            ==> nodes[cur].left.value in t.sub && nodes[cur].left.value !in Under(t.sub, nodes[cur].right)
    ensures nodes[cur].right.Some?
            ==> nodes[cur].right.value in t.sub && nodes[cur].right.value !in Under(t.sub, nodes[cur].left)
  {
    assert Joined(nodes, t.sub, cur);
    if nodes[cur].left.Some? { assert Joined(nodes, t.sub, nodes[cur].left.value); }
    if nodes[cur].right.Some? { assert Joined(nodes, t.sub, nodes[cur].right.value); }
  }

  // ---------------------------------------------------------------------------------------------------------------
  // Preorder
  // ---------------------------------------------------------------------------------------------------------------

  lemma ChildrenSmaller(nodes: map<nat, Node>, sub: map<nat, set<nat>>, h: nat)
    requires Shaped(nodes, sub) && h in sub
    ensures nodes[h].left.Some? ==> nodes[h].left.value in sub && sub[nodes[h].left.value] < sub[h]
    ensures nodes[h].right.Some? ==> nodes[h].right.value in sub && sub[nodes[h].right.value] < sub[h]
  {
    assert Joined(nodes, sub, h);
  }

  /** The handles of the subtree of `h`: a node, then its left subtree, then its right subtree. */
  ghost function Preorder(nodes: map<nat, Node>, sub: map<nat, set<nat>>, h: nat): seq<nat>
    requires Shaped(nodes, sub) && h in sub
    decreases sub[h]
  {
    ChildrenSmaller(nodes, sub, h);
    [h]
    + (if nodes[h].left.Some? then Preorder(nodes, sub, nodes[h].left.value) else [])
    + (if nodes[h].right.Some? then Preorder(nodes, sub, nodes[h].right.value) else [])
  }

  /** Preorder lists every handle of the subtree exactly once. */
  lemma {:induction false} PreorderLists(nodes: map<nat, Node>, sub: map<nat, set<nat>>, h: nat)
    requires Shaped(nodes, sub) && h in sub
    ensures Elements(Preorder(nodes, sub, h)) == sub[h] && Distinct(Preorder(nodes, sub, h))
    decreases sub[h]
  {
    ChildrenSmaller(nodes, sub, h);
    var l, r := nodes[h].left, nodes[h].right;
    if l.Some? { PreorderLists(nodes, sub, l.value); }
    if r.Some? { PreorderLists(nodes, sub, r.value); }
    var lp := if l.Some? then Preorder(nodes, sub, l.value) else [];
    var rp := if r.Some? then Preorder(nodes, sub, r.value) else [];
    assert Joined(nodes, sub, h);
    assert Elements(lp) == Under(sub, l) && Elements(rp) == Under(sub, r);
    NodeThenSubtrees(sub[h], h, lp, rp);
  }

  lemma NodeThenSubtrees(whole: set<nat>, h: nat, l: seq<nat>, r: seq<nat>)
    requires Splits(whole, h, Elements(l), Elements(r)) && Distinct(l) && Distinct(r)
    ensures Elements([h] + l + r) == whole && Distinct([h] + l + r)
  {
    var s := [h] + l + r;
    assert forall i :: 0 <= i < |l| ==> l[i] in Elements(l);
    assert forall i :: 0 <= i < |r| ==> r[i] in Elements(r);
    forall x ensures x in s <==> x in whole {
      assert x in s <==> x == h || x in l || x in r;
    }
  }

  lemma PreorderInTree(nodes: map<nat, Node>, sub: map<nat, set<nat>>, h: nat)
    requires Shaped(nodes, sub) && h in sub
    ensures Elements(Preorder(nodes, sub, h)) <= nodes.Keys
  {
    PreorderLists(nodes, sub, h);
    assert Joined(nodes, sub, h);
  }

  /** The preorder of one side of a node. */
  ghost function Side(nodes: map<nat, Node>, sub: map<nat, set<nat>>, link: Option<nat>): seq<nat>
    requires Shaped(nodes, sub) && (link.Some? ==> link.value in sub)
  {
    if link.Some? then Preorder(nodes, sub, link.value) else []
  }

  // What a search needs to know at one node.
  lemma NodeFacts(nodes: map<nat, Node>, root: Option<nat>, t: Shape, dim: nat, h: nat)
    requires Spanning(nodes, root, t, dim) && h in t.sub
    ensures dim > 0 && BoxesSized(nodes, dim) && Shaped(nodes, t.sub) && t.depth.Keys == t.sub.Keys == nodes.Keys
    ensures Bounded(nodes, t, dim)
    ensures nodes[h].left.Some?
            ==> var l := nodes[h].left.value;
                l in t.sub && t.sub[l] < t.sub[h] && t.depth[l] % dim == (t.depth[h] % dim + 1) % dim
    ensures nodes[h].right.Some?
            ==> var r := nodes[h].right.value;
                r in t.sub && t.sub[r] < t.sub[h] && t.depth[r] % dim == (t.depth[h] % dim + 1) % dim
  {
    hide Closed, Nested, Rooted, Joined, Within;
    ChildrenSmaller(nodes, t.sub, h);
    assert Deeper(nodes, t, h);
    NextAxis(t.depth[h], dim);
  }

  lemma PreorderIsSides(nodes: map<nat, Node>, sub: map<nat, set<nat>>, h: nat)
    requires Shaped(nodes, sub) && h in sub
    requires nodes[h].left.Some? ==> nodes[h].left.value in sub
    requires nodes[h].right.Some? ==> nodes[h].right.value in sub
    ensures Preorder(nodes, sub, h) == [h] + Side(nodes, sub, nodes[h].left) + Side(nodes, sub, nodes[h].right)
  {
    hide Shaped;
  }

  lemma DistinctParts(h: nat, l: seq<nat>, r: seq<nat>, keys: set<nat>)
    requires Distinct([h] + l + r) && Elements([h] + l + r) <= keys
    ensures Elements(l) <= keys && Elements(r) <= keys && Elements([h]) <= keys
    ensures Elements([h]) !! Elements(l) && Elements([h] + l) !! Elements(r)
  {
    var s := [h] + l + r;
    forall x | x in l || x in r || x == h ensures x in s {}
    assert forall i :: 0 <= i < |l| ==> l[i] == s[i + 1];
    assert forall i :: 0 <= i < |r| ==> r[i] == s[i + 1 + |l|];
    assert forall x :: x in [h] + l ==> x in s[..|l| + 1];
    assert s[0] == h;
  }

  lemma SidesOfPreorder(nodes: map<nat, Node>, sub: map<nat, set<nat>>, h: nat)
    requires Shaped(nodes, sub) && h in sub
    requires nodes[h].left.Some? ==> nodes[h].left.value in sub
    requires nodes[h].right.Some? ==> nodes[h].right.value in sub
    ensures var l, r := Side(nodes, sub, nodes[h].left), Side(nodes, sub, nodes[h].right);
            && Preorder(nodes, sub, h) == [h] + l + r
            && Elements(l) <= nodes.Keys && Elements(r) <= nodes.Keys && Elements([h]) <= nodes.Keys
            && Elements([h]) !! Elements(l) && Elements([h] + l) !! Elements(r)
            && Elements(Preorder(nodes, sub, h)) <= nodes.Keys
  {
    hide Joined, Splits, Preorder;
    var l, r := Side(nodes, sub, nodes[h].left), Side(nodes, sub, nodes[h].right);
    PreorderIsSides(nodes, sub, h);
    PreorderInTree(nodes, sub, h);
    PreorderLists(nodes, sub, h);
    DistinctParts(h, l, r, nodes.Keys);
  }

  /** `u` comes before `v` in `s`. */
  ghost predicate Before(s: seq<nat>, u: nat, v: nat) {
    exists i, j :: 0 <= i < j < |s| && s[i] == u && s[j] == v
  }

  lemma BeforeInside(pre: seq<nat>, s: seq<nat>, post: seq<nat>, u: nat, v: nat)
    requires Before(s, u, v)
    ensures Before(pre + s + post, u, v)
  {
    var i, j :| 0 <= i < j < |s| && s[i] == u && s[j] == v;
    var whole := pre + s + post;
    assert whole[|pre| + i] == u && whole[|pre| + j] == v;
  }

  lemma BeforeAcross(s: seq<nat>, r: seq<nat>, u: nat, v: nat)
    requires u in s && v in r
    ensures Before(s + r, u, v)
  {
    var i :| 0 <= i < |s| && s[i] == u;
    var j :| 0 <= j < |r| && r[j] == v;
    assert (s + r)[i] == u && (s + r)[|s| + j] == v;
  }

  /** In preorder every node comes before the nodes below it, and its left subtree before its right one. */
  lemma {:induction false} PreorderOrder(nodes: map<nat, Node>, sub: map<nat, set<nat>>, h: nat, a: nat, x: nat, y: nat)
    requires Shaped(nodes, sub) && h in sub && a in sub && a in sub[h] && Nested(sub)
    requires (x == a && y in sub[a] && y != a)
             || (x in Under(sub, nodes[a].left) && y in Under(sub, nodes[a].right))
    ensures Before(Preorder(nodes, sub, h), x, y)
    decreases sub[h]
  {
    hide Preorder, Nested;
    ChildrenSmaller(nodes, sub, h);
    PreorderIsSides(nodes, sub, h);
    var l, r := Side(nodes, sub, nodes[h].left), Side(nodes, sub, nodes[h].right);
    SideLists(nodes, sub, nodes[h].left);
    SideLists(nodes, sub, nodes[h].right);
    assert Joined(nodes, sub, h);
    if a == h {
      if x == a {
        BeforeAcross([h], l + r, x, y);
        assert [h] + l + r == [h] + (l + r);
      } else {
        BeforeAcross([h] + l, r, x, y);
      }
    } else if a in Under(sub, nodes[h].left) {
      PreorderOrder(nodes, sub, nodes[h].left.value, a, x, y);
      BeforeInside([h], l, r, x, y);
    } else {
      PreorderOrder(nodes, sub, nodes[h].right.value, a, x, y);
      BeforeInside([h] + l, r, [], x, y);
      assert [h] + l + r + [] == [h] + l + r;
    }
  }

  lemma SideLists(nodes: map<nat, Node>, sub: map<nat, set<nat>>, link: Option<nat>)
    requires Shaped(nodes, sub) && (link.Some? ==> link.value in sub)
    ensures forall x :: x in Under(sub, link) <==> x in Side(nodes, sub, link)
  {
    if link.Some? {
      PreorderLists(nodes, sub, link.value);
      assert forall x :: x in Preorder(nodes, sub, link.value) <==> x in Elements(Preorder(nodes, sub, link.value));
    }
  }

  /** The nodes between `a` and `h`, `a` included and `h` not. */
  ghost function Above(sub: map<nat, set<nat>>, a: nat, h: nat): set<nat>
    requires a in sub
  {
    set x | x in sub[a] && x in sub && x != h && h in sub[x]
  }

  // A node below `a` has its subtree on one side of `a`.
  lemma OnOneSide(nodes: map<nat, Node>, sub: map<nat, set<nat>>, a: nat, x: nat)
    requires Shaped(nodes, sub) && Nested(sub) && a in sub && x in sub && x in sub[a] && x != a
    ensures a in nodes
    ensures var l, r := Under(sub, nodes[a].left), Under(sub, nodes[a].right);
            && Splits(sub[a], a, l, r) && (if x in l then sub[x] <= l else x in r && sub[x] <= r)
  {
    assert Joined(nodes, sub, a);
  }

  lemma AboveChild(nodes: map<nat, Node>, sub: map<nat, set<nat>>, a: nat, h: nat)
    requires Shaped(nodes, sub) && Nested(sub) && a in sub && h in sub && h in sub[a] && h != a
    ensures var link := if h in Under(sub, nodes[a].left) then nodes[a].left else nodes[a].right;
            && link.Some? && link.value in sub && h in sub[link.value]
            && Above(sub, a, h) == Above(sub, link.value, h) + {a} && a !in Above(sub, link.value, h)
  {
    hide Shaped, Nested;
    OnOneSide(nodes, sub, a, h);
    SelfIn(nodes, sub, a);
    var c := (if h in Under(sub, nodes[a].left) then nodes[a].left else nodes[a].right).value;
    forall x | x in Above(sub, a, h) && x != a ensures x in sub[c] {
      SelfIn(nodes, sub, x);
      OnOneSide(nodes, sub, a, x);
    }
  }

  lemma SelfIn(nodes: map<nat, Node>, sub: map<nat, set<nat>>, a: nat)
    requires Shaped(nodes, sub) && a in sub
    ensures a in sub[a]
  {
    assert Joined(nodes, sub, a);
  }

  lemma NothingAbove(nodes: map<nat, Node>, sub: map<nat, set<nat>>, a: nat)
    requires Shaped(nodes, sub) && Nested(sub) && a in sub
    ensures Above(sub, a, a) == {}
  {
    hide Shaped, Nested;
    forall x | x in sub[a] && x in sub && x != a ensures a !in sub[x] {
      OnOneSide(nodes, sub, a, x);
    }
  }

  /** Depths count the nodes above. */
  lemma {:induction false} DepthCounts(nodes: map<nat, Node>, t: Shape, a: nat, h: nat)
    requires Shaped(nodes, t.sub) && Nested(t.sub) && Depths(nodes, t) && a in t.sub && h in t.sub && h in t.sub[a]
    ensures t.depth.Keys == t.sub.Keys && t.depth[h] == t.depth[a] + |Above(t.sub, a, h)|
    decreases t.sub[a]
  {
    hide Shaped, Nested, Under, Above;
    ChildrenSmaller(nodes, t.sub, a);
    assert Deeper(nodes, t, a);
    if h == a {
      NothingAbove(nodes, t.sub, a);
    } else {
      AboveChild(nodes, t.sub, a, h);
      DepthCounts(nodes, t, (if h in Under(t.sub, nodes[a].left) then nodes[a].left else nodes[a].right).value, h);
    }
  }

  /** In a whole tree the depth of a node is the number of nodes above it. */
  lemma DepthIs(nodes: map<nat, Node>, root: Option<nat>, t: Shape, dim: nat, h: nat)
    requires Spanning(nodes, root, t, dim) && h in t.sub
    ensures h in t.depth && t.depth[h] == |set x | x in t.sub && x != h && h in t.sub[x]|
  {
    hide Bounded, Closed, BoxesSized, Shaped, Nested, Depths;
    DepthCounts(nodes, t, root.value, h);
    assert Above(t.sub, root.value, h) == set x | x in t.sub && x != h && h in t.sub[x];
  }

  // ---------------------------------------------------------------------------------------------------------------
  // Where an insertion goes
  // ---------------------------------------------------------------------------------------------------------------

  /** A box goes to the left of a node when that costs less than going to the right. */
  predicate GoesLeft(node: Node, box: Box, axis: nat)
    requires axis < |box.min| && axis < |box.max|
  {
    box.max[axis] - node.lTo < node.rFr - box.min[axis]
  }

  /** The node with the bound of the side that the box goes to relaxed to admit it. */
  function Admitting(node: Node, box: Box, axis: nat): Node
    requires axis < |box.min| && axis < |box.max|
  {
    if GoesLeft(node, box, axis) then node.(lTo := Max(node.lTo, box.max[axis]))
    else node.(rFr := Min(node.rFr, box.min[axis]))
  }

  // `x` is on the side of `a` that the box goes to.
  ghost predicate OnItsSide(start: map<nat, Node>, t: Shape, dim: nat, a: nat, x: nat, box: Box)
    requires dim > 0 && Sized(box, dim) && a in start && a in t.depth
  {
    && (x in Under(t.sub, start[a].left) <==> GoesLeft(start[a], box, t.depth[a] % dim))
    && (x in Under(t.sub, start[a].right) <==> !GoesLeft(start[a], box, t.depth[a] % dim))
  }

  // Above `cur` the descent took the cheaper side and relaxed that bound; it touched nothing else.
  ghost predicate RoutedAt(start: map<nat, Node>, nodes: map<nat, Node>, t: Shape, dim: nat, cur: nat, box: Box, a: nat)
    requires dim > 0 && Sized(box, dim) && a in start && a in nodes && a in t.depth && a in t.sub
  {
    if a != cur && cur in t.sub[a]
    then nodes[a] == Admitting(start[a], box, t.depth[a] % dim) && OnItsSide(start, t, dim, a, cur, box)
    else nodes[a] == start[a]
  }

  ghost predicate Routed(start: map<nat, Node>, nodes: map<nat, Node>, t: Shape, dim: nat, cur: nat, box: Box)
    requires dim > 0 && Sized(box, dim)
  {
    && t.sub.Keys == t.depth.Keys && t.sub.Keys <= start.Keys && start.Keys == nodes.Keys
    && (forall a :: a in start && a !in t.sub ==> nodes[a] == start[a])
    && forall a :: a in t.sub ==> RoutedAt(start, nodes, t, dim, cur, box, a)
  }

  lemma RoutedStart(nodes: map<nat, Node>, root: Option<nat>, t: Shape, dim: nat, n: nat, box: Box)
    requires root.Some? && Placing(nodes, root, t, dim, root.value, n, box)
    ensures dim > 0 && Sized(box, dim) && Routed(nodes, nodes, t, dim, root.value, box)
  {
    hide Within, OnItsSide;
  }

  lemma RoutedDown(start: map<nat, Node>, nodes: map<nat, Node>, nodes': map<nat, Node>, root: Option<nat>, t: Shape,
                   dim: nat, cur: nat, n: nat, box: Box, child: nat)
    requires Placing(nodes, root, t, dim, cur, n, box) && Sized(box, dim) && dim > 0
    requires Routed(start, nodes, t, dim, cur, box)
    requires nodes' == nodes[cur := Admitting(nodes[cur], box, t.depth[cur] % dim)]
    requires child in t.sub
    requires (if GoesLeft(nodes[cur], box, t.depth[cur] % dim)
              then nodes[cur].left else nodes[cur].right) == Some(child)
    ensures Routed(start, nodes', t, dim, child, box)
  {
    hide Bounded, BoxesSized, PathOk, Rooted, Nested, Within, Max, Min, Joined, Under, OnItsSide;
    forall a | a in t.sub ensures RoutedAt(start, nodes', t, dim, child, box, a) {
      assert RoutedAt(start, nodes, t, dim, cur, box, a);
      RoutedOne(start, nodes, t, dim, cur, box, child, a);
    }
  }

  // The child taken is below `a` exactly if `a` is the node left or above it, and on the same side.
  lemma RoutedOne(start: map<nat, Node>, nodes: map<nat, Node>, t: Shape, dim: nat, cur: nat, box: Box, child: nat,
                  a: nat)
    requires dim > 0 && Sized(box, dim) && Shaped(nodes, t.sub) && Closed(nodes, t.sub) && Nested(t.sub)
    requires t.sub.Keys == t.depth.Keys && t.sub.Keys <= start.Keys && start.Keys == nodes.Keys
    requires cur in t.sub && child in t.sub && a in t.sub && RoutedAt(start, nodes, t, dim, cur, box, a)
    requires RoutedAt(start, nodes, t, dim, cur, box, cur)
    requires (if GoesLeft(nodes[cur], box, t.depth[cur] % dim)
              then nodes[cur].left else nodes[cur].right) == Some(child)
    ensures a != child && child in t.sub[a] <==> a == cur || (a != cur && cur in t.sub[a])
    ensures a == cur ==> OnItsSide(start, t, dim, a, child, box)
    ensures a != cur && cur in t.sub[a] ==> OnItsSide(start, t, dim, a, child, box)
  {
    assert Joined(nodes, t.sub, cur) && Joined(nodes, t.sub, child) && Joined(nodes, t.sub, a);
    assert ChildClosed(nodes, t.sub, cur, a);
    if a != cur && cur in t.sub[a] && a != child {
      SameSide(nodes, t, a, cur, child);
    }
  }

  /** Where an insertion put `n`: at every node above it the cheaper side was taken and that bound relaxed, and all
    * other nodes, their links included, are as they were. */
  ghost predicate Inserted(start: map<nat, Node>, nodes: map<nat, Node>, t: Shape, dim: nat, n: nat, box: Box)
    requires dim > 0 && Sized(box, dim)
  {
    && t.sub.Keys == t.depth.Keys && t.sub.Keys == nodes.Keys == start.Keys && n in nodes && nodes[n] == start[n]
    && forall a :: a in t.sub && a != n ==> InsertedAt(start, nodes, t, dim, n, box, a)
  }

  ghost predicate InsertedAt(start: map<nat, Node>, nodes: map<nat, Node>, t: Shape, dim: nat, n: nat, box: Box, a: nat)
    requires dim > 0 && Sized(box, dim) && a in start && a in nodes && a in t.depth && a in t.sub
  {
    if n in t.sub[a] then
      && nodes[a] == Admitting(start[a], box, t.depth[a] % dim).(left := nodes[a].left, right := nodes[a].right)
      && (n in Under(t.sub, nodes[a].left) <==> GoesLeft(start[a], box, t.depth[a] % dim))
      && (n in Under(t.sub, nodes[a].right) <==> !GoesLeft(start[a], box, t.depth[a] % dim))
      && nodes[a].left == (if start[a].left.None? && GoesLeft(start[a], box, t.depth[a] % dim)
                           then Some(n) else start[a].left)
      && nodes[a].right == (if start[a].right.None? && !GoesLeft(start[a], box, t.depth[a] % dim)
                            then Some(n) else start[a].right)
    else nodes[a] == start[a]
  }

  /** In plain arithmetic: the side of strictly smaller cost is taken, the right one at equal costs; the bound of
    * that side becomes the box's coordinate if that is further out, and the other bound stays; and the gap between
    * the two bounds comes out at least as wide as it would have on the other side. */
  lemma InsertedMeans(start: map<nat, Node>, nodes: map<nat, Node>, t: Shape, dim: nat, n: nat, box: Box, a: nat)
    requires dim > 0 && Sized(box, dim) && Inserted(start, nodes, t, dim, n, box)
    requires a in t.sub && a != n && n in t.sub[a]
    ensures a in start && a in nodes && a in t.depth
    ensures var i := t.depth[a] % dim;
            var lo, hi, l, r := box.min[i], box.max[i], start[a].lTo, start[a].rFr;
            && (n in Under(t.sub, nodes[a].left) <==> hi - l < r - lo)
            && (n in Under(t.sub, nodes[a].right) <==> hi - l >= r - lo)
            && nodes[a].lTo == (if hi - l < r - lo && hi > l then hi else l)
            && nodes[a].rFr == (if hi - l >= r - lo && lo < r then lo else r)
            && nodes[a].rFr - nodes[a].lTo >= (if lo < r then lo else r) - l
            && nodes[a].rFr - nodes[a].lTo >= r - (if hi > l then hi else l)
  {
    hide Under;
    assert InsertedAt(start, nodes, t, dim, n, box, a);
  }

  lemma RoutedLinked(start: map<nat, Node>, nodes: map<nat, Node>, linked: map<nat, Node>, root: Option<nat>, t: Shape,
                     dim: nat, cur: nat, n: nat, box: Box)
    requires Placing(nodes, root, t, dim, cur, n, box) && Sized(box, dim) && dim > 0
    requires Routed(start, nodes, t, dim, cur, box)
    requires var relaxed := Admitting(nodes[cur], box, t.depth[cur] % dim);
             if GoesLeft(nodes[cur], box, t.depth[cur] % dim)
             then nodes[cur].left.None? && linked == nodes[cur := relaxed.(left := Some(n))]
             else nodes[cur].right.None? && linked == nodes[cur := relaxed.(right := Some(n))]
    ensures cur in t.depth && Inserted(start, linked, Grafted(t, cur, n), dim, n, box)
  {
    hide Placing, Shaped, Max, Min, Grafted, Under, InsertedAt, RoutedAt, Admitting, GoesLeft, Plus;
    PlacingFacts(nodes, root, t, dim, cur, n, box);
    var t' := Grafted(t, cur, n);
    GraftedDomain(t, cur, n);
    forall a | a in t'.sub && a != n ensures InsertedAt(start, linked, t', dim, n, box, a) {
      assert RoutedAt(start, nodes, t, dim, cur, box, a);
      RoutedLinkedAt(start, nodes, linked, t, dim, cur, n, box, a);
    }
  }

  lemma GraftedDomain(t: Shape, cur: nat, n: nat)
    requires cur in t.sub && t.sub.Keys == t.depth.Keys
    ensures Grafted(t, cur, n).sub.Keys == t.sub.Keys + {n} == Grafted(t, cur, n).depth.Keys
    ensures forall a :: a in t.sub && a != n
              ==> Grafted(t, cur, n).depth[a] == t.depth[a] && Grafted(t, cur, n).sub[a] == Plus(t.sub[a], cur, n)
  {
  }

  lemma RoutedLinkedAt(start: map<nat, Node>, nodes: map<nat, Node>, linked: map<nat, Node>, t: Shape, dim: nat,
                       cur: nat, n: nat, box: Box, a: nat)
    requires dim > 0 && Sized(box, dim) && Shaped(nodes, t.sub) && t.sub.Keys == t.depth.Keys
    requires t.sub.Keys <= start.Keys && start.Keys == nodes.Keys && n !in t.sub && n in nodes
    requires cur in t.sub && a in t.sub
    requires RoutedAt(start, nodes, t, dim, cur, box, a) && RoutedAt(start, nodes, t, dim, cur, box, cur)
    requires var relaxed := Admitting(nodes[cur], box, t.depth[cur] % dim);
             if GoesLeft(nodes[cur], box, t.depth[cur] % dim)
             then nodes[cur].left.None? && linked == nodes[cur := relaxed.(left := Some(n))]
             else nodes[cur].right.None? && linked == nodes[cur := relaxed.(right := Some(n))]
    ensures a in Grafted(t, cur, n).sub && a in Grafted(t, cur, n).depth
    ensures InsertedAt(start, linked, Grafted(t, cur, n), dim, n, box, a)
  {
    hide Max, Min, Grafted, Under, GoesLeft, Admitting, Shaped, InsertedAt;
    GraftedDomain(t, cur, n);
    GraftedLeaf(t, cur, n);
    UnderInTree(nodes, t.sub, a);
    if a == cur {
      LinkedAtCur(start, nodes, linked, t, dim, cur, n, box);
    } else {
      GraftedUnder(nodes, t, cur, n, nodes[a].left);
      GraftedUnder(nodes, t, cur, n, nodes[a].right);
      AdmittingLinks(start[a], box, t.depth[a] % dim);
      LinkedAbove(start, nodes, linked, t, Grafted(t, cur, n), dim, cur, n, box, a);
    }
  }

  lemma LinkedAbove(start: map<nat, Node>, nodes: map<nat, Node>, linked: map<nat, Node>, t: Shape, t': Shape, dim: nat,
                    cur: nat, n: nat, box: Box, a: nat)
    requires dim > 0 && Sized(box, dim) && a in t.sub && a in t.depth && a in start && a in nodes && a in linked
    requires a in t'.sub && a in t'.depth && t'.depth[a] == t.depth[a] && t'.sub[a] == Plus(t.sub[a], cur, n)
    requires a != cur && linked[a] == nodes[a] && n !in t.sub[a] && n !in Under(t.sub, nodes[a].left)
    requires n !in Under(t.sub, nodes[a].right) && Under(t.sub, None) == {}
    requires RoutedAt(start, nodes, t, dim, cur, box, a)
    requires Under(t'.sub, nodes[a].left) == Plus(Under(t.sub, nodes[a].left), cur, n)
    requires Under(t'.sub, nodes[a].right) == Plus(Under(t.sub, nodes[a].right), cur, n)
    requires var relaxed := Admitting(start[a], box, t.depth[a] % dim);
             relaxed == start[a].(lTo := relaxed.lTo, rFr := relaxed.rFr)
    ensures InsertedAt(start, linked, t', dim, n, box, a)
  {
    hide Max, Min, Under, GoesLeft, Admitting;
  }

  lemma LinkedAtCur(start: map<nat, Node>, nodes: map<nat, Node>, linked: map<nat, Node>, t: Shape, dim: nat, cur: nat,
                    n: nat, box: Box)
    requires dim > 0 && Sized(box, dim) && Shaped(nodes, t.sub) && t.sub.Keys == t.depth.Keys
    requires t.sub.Keys <= start.Keys && start.Keys == nodes.Keys && n !in t.sub && n in nodes && cur in t.sub
    requires nodes[cur] == start[cur]
    requires var relaxed := Admitting(nodes[cur], box, t.depth[cur] % dim);
             if GoesLeft(nodes[cur], box, t.depth[cur] % dim)
             then nodes[cur].left.None? && linked == nodes[cur := relaxed.(left := Some(n))]
             else nodes[cur].right.None? && linked == nodes[cur := relaxed.(right := Some(n))]
    ensures cur in Grafted(t, cur, n).sub && cur in Grafted(t, cur, n).depth
    ensures InsertedAt(start, linked, Grafted(t, cur, n), dim, n, box, cur)
  {
    hide Max, Min, Grafted, Under, GoesLeft, Admitting, Shaped;
    GraftedDomain(t, cur, n);
    GraftedLeaf(t, cur, n);
    UnderInTree(nodes, t.sub, cur);
    GraftedUnder(nodes, t, cur, n, nodes[cur].left);
    GraftedUnder(nodes, t, cur, n, nodes[cur].right);
    AdmittingLinks(nodes[cur], box, t.depth[cur] % dim);
  }

  lemma AdmittingLinks(node: Node, box: Box, axis: nat)
    requires axis < |box.min| && axis < |box.max|
    ensures var relaxed := Admitting(node, box, axis);
            relaxed == node.(lTo := relaxed.lTo, rFr := relaxed.rFr)
  {
  }

  lemma GraftedLeaf(t: Shape, cur: nat, n: nat)
    requires cur in t.sub && cur in t.depth
    ensures Under(Grafted(t, cur, n).sub, Some(n)) == {n} && Under(Grafted(t, cur, n).sub, None) == {}
    ensures Under(t.sub, None) == {}
  {
  }

  lemma UnderInTree(nodes: map<nat, Node>, sub: map<nat, set<nat>>, a: nat)
    requires Shaped(nodes, sub) && a in sub
    ensures Under(sub, nodes[a].left) <= sub.Keys && Under(sub, nodes[a].right) <= sub.Keys
    ensures (nodes[a].left.Some? ==> nodes[a].left.value in sub)
            && (nodes[a].right.Some? ==> nodes[a].right.value in sub)
    ensures sub[a] <= sub.Keys && a in sub[a] && a !in Under(sub, nodes[a].left) && a !in Under(sub, nodes[a].right)
  {
    assert Joined(nodes, sub, a);
    if nodes[a].left.Some? { assert Joined(nodes, sub, nodes[a].left.value); }
    if nodes[a].right.Some? { assert Joined(nodes, sub, nodes[a].right.value); }
  }

  /** The descent has reached `cur`: everything that holds there. `start` is the forest with `n` added, before it. */
  ghost predicate Reached(start: map<nat, Node>, nodes: map<nat, Node>, root: Option<nat>, t: Shape, dim: nat, cur: nat,
                          n: nat, box: Box) {
    && Placing(nodes, root, t, dim, cur, n, box) && SameBoxes(start, nodes)
    && dim > 0 && Sized(box, dim) && Routed(start, nodes, t, dim, cur, box)
  }

  /** The insertion is complete. */
  ghost predicate Arrived(start: map<nat, Node>, nodes: map<nat, Node>, root: Option<nat>, t: Shape, dim: nat, n: nat,
                          box: Box) {
    && Spanning(nodes, root, t, dim) && SameBoxes(start, nodes)
    && dim > 0 && Sized(box, dim) && Inserted(start, nodes, t, dim, n, box)
  }

  lemma ReachedFacts(start: map<nat, Node>, nodes: map<nat, Node>, root: Option<nat>, t: Shape, dim: nat, cur: nat,
                     n: nat, box: Box)
    requires Reached(start, nodes, root, t, dim, cur, n, box)
    ensures dim > 0 && Sized(box, dim) && cur in nodes && cur in t.sub && cur in t.depth
  {
    hide Routed, Placing;
    PlacingFacts(nodes, root, t, dim, cur, n, box);
  }

  lemma UpdateTwice(nodes: map<nat, Node>, h: nat, x: Node, y: Node)
    ensures nodes[h := x][h := y] == nodes[h := y] && nodes[h := x][h] == x
  {
  }

  lemma LinkLeft(start: map<nat, Node>, nodes: map<nat, Node>, root: Option<nat>, t: Shape, dim: nat, cur: nat, n: nat,
                 box: Box, relaxed: Node)
    requires Reached(start, nodes, root, t, dim, cur, n, box) && cur in nodes && cur in t.depth && cur in t.sub
    requires dim > 0 && Sized(box, dim) && GoesLeft(nodes[cur], box, t.depth[cur] % dim) && nodes[cur].left.None?
    requires relaxed == nodes[cur].(lTo := Max(nodes[cur].lTo, box.max[t.depth[cur] % dim]))
    ensures Arrived(start, nodes[cur := relaxed.(left := Some(n))], root, Grafted(t, cur, n), dim, n, box)
  {
    hide Routed, Placing, SameBoxes, Spanning, Inserted, Grafted, Max, Min, GoesLeft;
    UpdateTwice(nodes, cur, relaxed, relaxed.(left := Some(n)));
    GoLeft(nodes, nodes[cur := relaxed], root, t, dim, cur, n, box);
    var linked := nodes[cur := relaxed.(left := Some(n))];
    SameBoxesTrans(start, nodes, linked);
    RoutedLinked(start, nodes, linked, root, t, dim, cur, n, box);
  }

  lemma StepLeft(start: map<nat, Node>, nodes: map<nat, Node>, nodes': map<nat, Node>, root: Option<nat>, t: Shape,
                 dim: nat, cur: nat, n: nat, box: Box)
    requires Reached(start, nodes, root, t, dim, cur, n, box) && cur in nodes && cur in t.depth && cur in t.sub
    requires dim > 0 && Sized(box, dim) && GoesLeft(nodes[cur], box, t.depth[cur] % dim)
    requires nodes' == nodes[cur := nodes[cur].(lTo := Max(nodes[cur].lTo, box.max[t.depth[cur] % dim]))]
    ensures nodes'[cur].left == nodes[cur].left
    ensures nodes[cur].left.None?
            ==> Arrived(start, nodes'[cur := nodes'[cur].(left := Some(n))], root, Grafted(t, cur, n), dim, n, box)
    ensures nodes[cur].left.Some?
            ==> var child := nodes[cur].left.value;
                && Reached(start, nodes', root, t, dim, child, n, box) && child in t.sub && t.sub[child] < t.sub[cur]
                && child in t.depth && t.depth[child] % dim == (t.depth[cur] % dim + 1) % dim
  {
    hide Routed, Placing, SameBoxes, Arrived, Grafted, Max, Min, GoesLeft;
    var relaxed := nodes[cur].(lTo := Max(nodes[cur].lTo, box.max[t.depth[cur] % dim]));
    if nodes[cur].left.None? {
      UpdateTwice(nodes, cur, relaxed, relaxed.(left := Some(n)));
      LinkLeft(start, nodes, root, t, dim, cur, n, box, relaxed);
    } else {
      GoLeft(nodes, nodes', root, t, dim, cur, n, box);
      SameBoxesTrans(start, nodes, nodes');
      RoutedDown(start, nodes, nodes', root, t, dim, cur, n, box, nodes[cur].left.value);
    }
  }

  lemma LinkRight(start: map<nat, Node>, nodes: map<nat, Node>, root: Option<nat>, t: Shape, dim: nat, cur: nat, n: nat,
                 box: Box, relaxed: Node)
    requires Reached(start, nodes, root, t, dim, cur, n, box) && cur in nodes && cur in t.depth && cur in t.sub
    requires dim > 0 && Sized(box, dim) && !GoesLeft(nodes[cur], box, t.depth[cur] % dim) && nodes[cur].right.None?
    requires relaxed == nodes[cur].(rFr := Min(nodes[cur].rFr, box.min[t.depth[cur] % dim]))
    ensures Arrived(start, nodes[cur := relaxed.(right := Some(n))], root, Grafted(t, cur, n), dim, n, box)
  {
    hide Routed, Placing, SameBoxes, Spanning, Inserted, Grafted, Max, Min, GoesLeft;
    UpdateTwice(nodes, cur, relaxed, relaxed.(right := Some(n)));
    GoRight(nodes, nodes[cur := relaxed], root, t, dim, cur, n, box);
    var linked := nodes[cur := relaxed.(right := Some(n))];
    SameBoxesTrans(start, nodes, linked);
    RoutedLinked(start, nodes, linked, root, t, dim, cur, n, box);
  }

  lemma StepRight(start: map<nat, Node>, nodes: map<nat, Node>, nodes': map<nat, Node>, root: Option<nat>, t: Shape,
                  dim: nat, cur: nat, n: nat, box: Box)
    requires Reached(start, nodes, root, t, dim, cur, n, box) && cur in nodes && cur in t.depth && cur in t.sub
    requires dim > 0 && Sized(box, dim) && !GoesLeft(nodes[cur], box, t.depth[cur] % dim)
    requires nodes' == nodes[cur := nodes[cur].(rFr := Min(nodes[cur].rFr, box.min[t.depth[cur] % dim]))]
    ensures nodes'[cur].right == nodes[cur].right
    ensures nodes[cur].right.None?
            ==> Arrived(start, nodes'[cur := nodes'[cur].(right := Some(n))], root, Grafted(t, cur, n), dim, n, box)
    ensures nodes[cur].right.Some?
            ==> var child := nodes[cur].right.value;
                && Reached(start, nodes', root, t, dim, child, n, box) && child in t.sub && t.sub[child] < t.sub[cur]
                && child in t.depth && t.depth[child] % dim == (t.depth[cur] % dim + 1) % dim
  {
    hide Routed, Placing, SameBoxes, Arrived, Grafted, Max, Min, GoesLeft;
    var relaxed := nodes[cur].(rFr := Min(nodes[cur].rFr, box.min[t.depth[cur] % dim]));
    if nodes[cur].right.None? {
      UpdateTwice(nodes, cur, relaxed, relaxed.(right := Some(n)));
      LinkRight(start, nodes, root, t, dim, cur, n, box, relaxed);
    } else {
      GoRight(nodes, nodes', root, t, dim, cur, n, box);
      SameBoxesTrans(start, nodes, nodes');
      RoutedDown(start, nodes, nodes', root, t, dim, cur, n, box, nodes[cur].right.value);
    }
  }

  /** Where the descent starts. */
  lemma ReachRoot(nodes: map<nat, Node>, root: Option<nat>, t: Shape, dim: nat, n: nat, leaf: Node)
    requires Spanning(nodes, root, t, dim) && n !in nodes && root.Some?
    requires Sized(leaf.box, dim) && leaf.left.None? && leaf.right.None?
    ensures Reached(nodes[n := leaf], nodes[n := leaf], root, t, dim, root.value, n, leaf.box)
    ensures dim > 0 && root.value in t.sub && root.value in t.depth && t.depth[root.value] % dim == 0
  {
    hide Spanning, Placing, Routed, SameBoxes;
    PlaceAtRoot(nodes, root, t, dim, n, leaf);
    RoutedStart(nodes[n := leaf], root, t, dim, n, leaf.box);
  }
}
