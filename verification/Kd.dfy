/** The kd-tree of linalg/kd.hpp: insertion, erasure and the two searches on one mutable tree. */
module Kd {
  import opened Prelude
  import opened KdShape
  import opened KdClosest
  import opened KdQuery
  import opened ErasingScan

  ghost function LiveCount(nodes: map<nat, Node>, erased: set<nat>): nat {
    |nodes.Keys - erased|
  }

  class Kd {
    const dim: nat
    var nodes: map<nat, Node>
    var erased: set<nat>   // the nodes whose `_erased` flag is set
    var root: Option<nat>
    var counter: int
    ghost var shape: Shape

    ghost predicate Valid()
      reads this
    {
      Spanning(nodes, root, shape, dim) && erased <= nodes.Keys
    }

    /** The counter is the number of un-erased nodes. */
    ghost predicate Counted()
      reads this
    {
      counter == LiveCount(nodes, erased)
    }

    /** All handles, in the order a search visits them. */
    ghost function Order(): (s: seq<nat>)
      requires Valid()
      reads this
      ensures Elements(s) == nodes.Keys && Distinct(s)
    {
      if root.None? then []
      else
        PreorderLists(nodes, shape.sub, root.value);
        Preorder(nodes, shape.sub, root.value)
    }

    constructor (dim: nat)
      requires dim > 0
      ensures Valid() && Counted() && this.dim == dim && nodes == map[] && erased == {} && root == None
    {
      this.dim := dim;
      nodes, erased, root, counter := map[], {}, None, 0;
      shape := Shape(map[], map[]);
    }

    /** Inserts a box under the fresh handle `n`. The bounds `l` and `r` of a node below the root are whatever its
      * memory held. At every node above it the side of smaller cost was taken, the right one at equal costs, and
      * just the bound of that side moved, no further than the box needs; on the other side the gap would not be
      * wider. */
    method Emplace(n: nat, box: Box, l: real, r: real)
      requires Valid() && n !in nodes && Sized(box, dim)
      modifies this`nodes, this`root, this`counter, this`shape
      ensures Valid() && (old(Counted()) ==> Counted())
      ensures BoxAdded(old(nodes), nodes, n, box)
      ensures old(root).Some?
              ==> root == old(root) && Inserted(old(nodes)[n := Node(box, l, r, None, None)], nodes, shape, dim, n, box)
      ensures forall a :: a in shape.sub && a != n && n in shape.sub[a] ==>
                && a in old(nodes) && a in nodes && a in shape.depth
                && var i := shape.depth[a] % dim;
                   var lo, hi, l, r := box.min[i], box.max[i], old(nodes)[a].lTo, old(nodes)[a].rFr;
                   && (n in Under(shape.sub, nodes[a].left) <==> hi - l < r - lo)
                   && (n in Under(shape.sub, nodes[a].right) <==> hi - l >= r - lo)
                   && nodes[a].lTo == (if hi - l < r - lo && hi > l then hi else l)
                   && nodes[a].rFr == (if hi - l >= r - lo && lo < r then lo else r)
                   && nodes[a].rFr - nodes[a].lTo >= (if lo < r then lo else r) - l
                   && nodes[a].rFr - nodes[a].lTo >= r - (if hi > l then hi else l)
      ensures old(root).None?
              ==> root == Some(n) && nodes == map[n := Node(box, box.max[0], box.min[0], None, None)]
    {
      hide *;
      ValidParts();
      CountedIs();
      SizedIs(box, dim);
      ghost var before := nodes;
      ghost var leaf := Node(box, l, r, None, None);
      nodes := nodes[n := Node(box, l, r, None, None)];
      ghost var start := nodes;
      if root.None? {
        EmptyTree(before, root, shape, dim);
        root := Some(n);
        nodes := nodes[n := nodes[n].(lTo := box.max[0], rFr := box.min[0])];
        shape := Shape(map[n := {n}], map[n := 0]);
        assert nodes == map[n := nodes[n]] && start == map[n := leaf];
        FirstNode(n, leaf, nodes[n], dim);
      } else {
        ReachRoot(before, root, shape, dim, n, leaf);
        Place(n, box);
        ArrivedParts(start, nodes, root, shape, dim, n, box);
        forall a | a in shape.sub && a != n && n in shape.sub[a] {
          InsertedMeans(start, nodes, shape, dim, n, box, a);
        }
      }
      counter := counter + 1;
      AddedBox(before, nodes, n, leaf);
      AddsOne(before, nodes, n, box, erased);
      IsValid();
      CountedIs();
    }

    /** The descent: from the root to the side of smaller cost at each node, until that side is empty. */
    method Place(n: nat, box: Box)
      requires root.Some? && root.value in shape.sub && root.value in shape.depth && dim > 0 && Sized(box, dim)
      requires shape.depth[root.value] % dim == 0
      requires Reached(nodes, nodes, root, shape, dim, root.value, n, box)
      modifies this`nodes, this`shape
      ensures Arrived(old(nodes), nodes, root, shape, dim, n, box)
    {
      hide *;
      SizedIs(box, dim);
      ghost var start := nodes;
      var node := root.value;
      var axis := 0;
      while true
        invariant Reached(start, nodes, root, shape, dim, node, n, box)
        invariant node in shape.sub && node in shape.depth && axis == shape.depth[node] % dim
        invariant root == old(root)
        decreases shape.sub[node]
      {
        ghost var was := nodes;
        ReachedFacts(start, nodes, root, shape, dim, node, n, box);
        GoesLeftIs(nodes[node], box, axis);
        var lCost := box.max[axis] - nodes[node].lTo;
        var rCost := nodes[node].rFr - box.min[axis];
        if lCost < rCost {
          nodes := nodes[node := nodes[node].(lTo := Max(nodes[node].lTo, box.max[axis]))];
          StepLeft(start, was, nodes, root, shape, dim, node, n, box);
          if nodes[node].left.None? {
            nodes := nodes[node := nodes[node].(left := Some(n))];
            shape := Grafted(shape, node, n);
            break;
          }
          node := nodes[node].left.value;
        } else {
          nodes := nodes[node := nodes[node].(rFr := Min(nodes[node].rFr, box.min[axis]))];
          StepRight(start, was, nodes, root, shape, dim, node, n, box);
          if nodes[node].right.None? {
            nodes := nodes[node := nodes[node].(right := Some(n))];
            shape := Grafted(shape, node, n);
            break;
          }
          node := nodes[node].right.value;
        }
        axis := (axis + 1) % dim;
      }
    }

    lemma IsValid()
      requires Spanning(nodes, root, shape, dim) && erased <= nodes.Keys
      ensures Valid()
    {
    }

    /** Marks a node as erased. The node stays in the tree. Erasing it twice counts it twice. */
    method Erase(h: nat)
      requires Valid() && h in nodes
      modifies this`erased, this`counter
      ensures Valid() && erased == old(erased) + {h}
      ensures counter == old(counter) - 1
      ensures old(Counted()) ==> (Counted() <==> h !in old(erased))
    {
      hide Spanning;
      erased := erased + {h};
      counter := counter - 1;
      assert nodes.Keys - erased == (nodes.Keys - old(erased)) - {h};
    }

    /** The nearest un-erased centre. `limit` is the largest value of the scalar type, where the search starts. */
    method FindClosestCenter(vec: seq<real>, limit: real) returns (best: Option<nat>)
      requires Valid() && |vec| == dim
      ensures BoxesSized(nodes, dim)
      ensures BoxesOrdered(nodes, dim) && Spaced(nodes, erased, vec, 1.0) && limit >= 1.0
              ==> FirstClosest(nodes, erased, vec, Order(), limit, best)
      ensures IntegerPoints(nodes) && WholePoint(vec) && limit >= 1.0
              ==> FirstClosest(nodes, erased, vec, Order(), limit, best)
      // keys with equal corners at integers and an integer query, or boxes with corners in order whose centres are at
      // the query or at a squared distance of 1 and more: the nearest, and the first in order of several
      ensures limit >= 1.0
              && (((forall h :: h in nodes ==>
                      nodes[h].box.min == nodes[h].box.max
                      && forall i :: 0 <= i < dim ==> nodes[h].box.min[i] == nodes[h].box.min[i].Floor as real)
                   && (forall i :: 0 <= i < dim ==> vec[i] == vec[i].Floor as real))
                  || (forall h :: h in nodes ==>
                        && (forall i :: 0 <= i < dim ==> nodes[h].box.min[i] <= nodes[h].box.max[i])
                        && (h !in erased ==> Distance(nodes, h, vec) == 0.0 || Distance(nodes, h, vec) >= 1.0)))
              ==> var s := Order();
                  && (best.None? ==> forall h :: h in nodes && h !in erased ==> Distance(nodes, h, vec) >= limit)
                  && (best.Some? ==>
                        && best.value in nodes && best.value !in erased && Distance(nodes, best.value, vec) < limit
                        && (forall h :: h in nodes && h !in erased ==>
                              Distance(nodes, best.value, vec) <= Distance(nodes, h, vec))
                        && exists i :: 0 <= i < |s| && s[i] == best.value
                             && forall h :: h in s[..i] && h in nodes && h !in erased ==>
                                  Distance(nodes, best.value, vec) < Distance(nodes, h, vec))
      ensures root.None? ==> best == None
      ensures root.Some? ==> root.value in shape.sub && Shaped(nodes, shape.sub)
                             && best
                                == FindClosest(nodes, erased, shape.sub, vec, Best(None, limit), root.value, 0).node
    {
      hide *;
      ValidParts();
      EmptyOrRooted(nodes, root, shape, dim);
      OrderIs();
      best := None;
      if root.Some? {
        best := FindClosest(nodes, erased, shape.sub, vec, Best(None, limit), root.value, 0).node;
      }
      SearchIsFirst(nodes, erased, root, shape, vec, limit, best, Order());
      ClosestPlain(nodes, erased, vec, Order(), limit, best);
    }

    /** Marks nodes as erased, one after the other. */
    method EraseEach(hs: seq<nat>)
      requires Valid() && Elements(hs) <= nodes.Keys
      modifies this`erased, this`counter
      ensures Valid() && erased == old(erased) + Elements(hs) && counter == old(counter) - |hs|
    {
      hide Spanning;
      for i := 0 to |hs|
        invariant Valid() && erased == old(erased) + Elements(hs[..i]) && counter == old(counter) - i
      {
        assert hs[i] in Elements(hs) && hs[..i + 1] == hs[..i] + [hs[i]];
        ElementsSnoc(hs[..i], hs[i]);
        Erase(hs[i]);
      }
      assert hs[..|hs|] == hs;
    }

    /** Calls back on every box that meets `box` and is un-erased when its turn comes, in order, until a reply says
      * stop. A callback may erase any nodes of the tree. A node has its turn unless the query stopped at an earlier
      * one. The counter stays right if and only if each erasure took out a different un-erased node; it does when
      * each reply erases only the node that it is given. */
    method EachIntersecting(box: Box, f: seq<nat> -> Reply) returns (calls: seq<nat>, stop: bool)
      requires Valid() && Sized(box, dim) && ErasesAmong(f, nodes.Keys)
      modifies this`erased, this`counter
      ensures Valid() && BoxesSized(nodes, dim)
      ensures Queried(nodes, box, f, Order(), old(erased), [], erased, calls, stop)
      ensures calls == Among(Order(), Elements(calls)) && Distinct(calls)
      ensures var s := Order();
              forall j :: 0 <= j < |s| && (stop ==> calls != [] && calls[|calls| - 1] in s[j..]) ==>
                assert s[j] in Elements(s);
                var b := nodes[s[j]].box;
                var left := s[j] !in old(erased) && forall m :: 0 <= m < |calls| && calls[m] in s[..j] ==>
                                                      s[j] !in f(calls[..m + 1]).erase;
                && (s[j] in calls <==>
                      left && forall i :: 0 <= i < |box.min| ==> b.min[i] <= box.max[i] && box.min[i] <= b.max[i])
                && ((forall i :: 0 <= i < |box.min| ==> b.min[i] <= b.max[i] && box.min[i] <= box.max[i]) ==>
                      (s[j] in calls <==>
                         left && exists p: seq<real> ::
                                   && |p| == |box.min|
                                   && forall i :: 0 <= i < |box.min| ==>
                                        b.min[i] <= p[i] <= b.max[i] && box.min[i] <= p[i] <= box.max[i]))
      ensures forall x ::
                x in erased <==> x in old(erased) || exists m :: 0 < m <= |calls| && x in f(calls[..m]).erase
      ensures stop ==> calls != [] && f(calls).stop
      ensures forall k :: 0 < k < |calls| + (if stop then 0 else 1) ==> !f(calls[..k]).stop
      ensures old(Counted()) ==> (Counted() <==> Erasures(f, calls, 0) == |erased - old(erased)|)
      ensures ErasesOwn(f) && old(Counted()) ==> Counted()
      ensures ErasesGiven(f) ==> (calls, stop) == Calls(f, [], Among(Order(), Touching(nodes, box) - old(erased)))
    {
      hide *;
      ValidParts();
      EmptyOrRooted(nodes, root, shape, dim);
      SizedIs(box, dim);
      CountedIs();
      ghost var start := erased;
      if root.None? {
        QueriedNothing(nodes, box, f, erased, []);
        calls, stop := [], false;
        ErasuresOne(f, calls, 0);
      } else {
        calls, stop := Visit(box, f, root.value, 0, []);
        RootQueried(nodes, shape.sub, box, f, root.value, start, erased, calls, stop);
      }
      ValidParts();
      OrderIs();
      QueryMeaning(nodes, box, f, Order(), start, erased, calls, stop);
      QueryCounts(nodes, box, f, Order(), start, erased, calls, stop);
      LiveLess(nodes, start, erased);
      CountedIs();
    }

    lemma ValidParts()
      requires Valid()
      ensures Spanning(nodes, root, shape, dim) && erased <= nodes.Keys
    {
    }

    lemma OrderIs()
      requires Valid()
      ensures root.None? ==> Order() == []
      ensures root.Some? ==> Shaped(nodes, shape.sub) && root.value in shape.sub
                             && Order() == Preorder(nodes, shape.sub, root.value)
    {
    }

    lemma CountedIs()
      requires Valid()
      ensures Counted() <==> counter == LiveCount(nodes, erased)
    {
    }

    method Visit(box: Box, f: seq<nat> -> Reply, node: nat, axis: nat, calls: seq<nat>)
      returns (calls': seq<nat>, stop: bool)
      requires Valid() && Sized(box, dim) && node in shape.sub && node in shape.depth && axis == shape.depth[node] % dim
      requires ErasesAmong(f, nodes.Keys)
      modifies this`erased, this`counter
      ensures Valid() && BoxesSized(nodes, dim) && Shaped(nodes, shape.sub)
      ensures calls <= calls' && counter == old(counter) - Erasures(f, calls', |calls|)
      ensures TreeQueried(nodes, shape.sub, box, f, node, old(erased), calls, erased, calls', stop)
      decreases shape.sub[node]
    {
      hide Queried, TreeQueried, SideQueried, Spanning, LiveCount, BoxesSized, Shaped, Bounded, Intersects, Erasures;
      NodeFacts(nodes, root, shape, dim, node);
      QueriedOne(nodes, box, f, node, erased, calls);
      ErasuresOne(f, calls, node);
      ghost var e0 := erased;
      calls', stop := calls, false;
      if node !in erased && Intersects(nodes[node].box, box, dim) {
        calls' := calls' + [node];
        var reply := f(calls');
        EraseEach(reply.erase);
        if reply.stop {
          StoppedAtNode(nodes, shape.sub, box, f, node, e0, calls, erased, calls');
          return calls', true;
        }
      }
      ghost var e1, c1 := erased, calls';
      if nodes[node].left.Some? && nodes[node].lTo >= box.min[axis] {
        calls', stop := Visit(box, f, nodes[node].left.value, (axis + 1) % dim, calls');
        SideVisited(nodes, shape.sub, box, f, nodes[node].left, e1, c1, erased, calls', stop);
        ErasuresJoin(f, calls', c1, |calls|);
        if stop {
          StoppedAtLeft(nodes, shape.sub, box, f, node, e0, calls, e1, c1, erased, calls');
          return;
        }
      } else {
        LeftSkipped(nodes, shape, box, f, node, e1, c1);
      }
      ghost var e2, c2 := erased, calls';
      if nodes[node].right.Some? && nodes[node].rFr <= box.max[axis] {
        calls', stop := Visit(box, f, nodes[node].right.value, (axis + 1) % dim, calls');
        SideVisited(nodes, shape.sub, box, f, nodes[node].right, e2, c2, erased, calls', stop);
        ErasuresJoin(f, calls', c2, |calls|);
      } else {
        RightSkipped(nodes, shape, box, f, node, e2, c2);
      }
      ReachedRight(nodes, shape.sub, box, f, node, e0, calls, e1, c1, e2, c2, erased, calls', stop);
    }
  }

  /** The pruned search from the root finds the first closest of the whole tree. */
  lemma SearchIsFirst(nodes: map<nat, Node>, erased: set<nat>, root: Option<nat>, t: Shape, vec: seq<real>, limit: real,
                      best: Option<nat>, s: seq<nat>)
    requires Spanning(nodes, root, t, |vec|) && BoxesSized(nodes, |vec|) && Shaped(nodes, t.sub) && |vec| > 0
    requires root.Some? ==> root.value in t.sub && s == Preorder(nodes, t.sub, root.value)
    requires best == if root.None? then None
                     else FindClosest(nodes, erased, t.sub, vec, Best(None, limit), root.value, 0).node
    requires Elements(s) == nodes.Keys
    ensures BoxesOrdered(nodes, |vec|) && Spaced(nodes, erased, vec, 1.0) && limit >= 1.0
            ==> FirstClosest(nodes, erased, vec, s, limit, best)
    ensures IntegerPoints(nodes) && WholePoint(vec) && limit >= 1.0
            ==> FirstClosest(nodes, erased, vec, s, limit, best)
  {
    hide Spaced, BoxesOrdered, IntegerPoints, WholePoint, Distance, FindClosest, Scan, Preorder, Shaped, Bounded,
      Closed, Nested, BoxesSized;
    EmptyOrRooted(nodes, root, t, |vec|);
    if IntegerPoints(nodes) && WholePoint(vec) { IntegersSpaced(nodes, erased, vec); }
    if root.None? {
      assert Elements(s) == {};
    } else if BoxesOrdered(nodes, |vec|) && Spaced(nodes, erased, vec, 1.0) && limit >= 1.0 {
      FindIsScan(nodes, erased, t, vec, Best(None, limit), root.value);
      ScanFindsFirstClosest(nodes, erased, vec, s, limit);
    }
  }

  lemma GoesLeftIs(node: Node, box: Box, axis: nat)
    requires axis < |box.min| && axis < |box.max|
    ensures GoesLeft(node, box, axis) <==> box.max[axis] - node.lTo < node.rFr - box.min[axis]
  {
  }

  lemma SizedIs(box: Box, dim: nat)
    requires Sized(box, dim)
    ensures |box.min| == |box.max| == dim
  {
  }

  lemma RootQueried(nodes: map<nat, Node>, sub: map<nat, set<nat>>, box: Box, f: seq<nat> -> Reply, root: nat,
                    erased: set<nat>, erased': set<nat>, calls: seq<nat>, stop: bool)
    requires Sized(box, |box.min|) && BoxesSized(nodes, |box.min|) && Shaped(nodes, sub) && root in sub
    requires TreeQueried(nodes, sub, box, f, root, erased, [], erased', calls, stop)
    ensures Queried(nodes, box, f, Preorder(nodes, sub, root), erased, [], erased', calls, stop)
  {
    hide Queried, Preorder;
  }

  lemma QueryCounts(nodes: map<nat, Node>, box: Box, f: seq<nat> -> Reply, s: seq<nat>, erased: set<nat>,
                    erased': set<nat>, calls: seq<nat>, stop: bool)
    requires Sized(box, |box.min|) && BoxesSized(nodes, |box.min|) && Elements(s) <= nodes.Keys && Distinct(s)
    requires Queried(nodes, box, f, s, erased, [], erased', calls, stop)
    ensures erased <= erased'
    ensures ErasesOwn(f) ==> Erasures(f, calls, 0) == |erased' - erased|
    ensures ErasesGiven(f) ==> (calls, stop) == Calls(f, [], Among(s, Touching(nodes, box) - erased))
  {
    hide Touching, Among, Calls, ErasesOwn, ErasesGiven, Scanned, ErasedBy, Erasures, BoxesSized, HadTurn;
    ScanMeaning(Touching(nodes, box), f, s, erased);
    if ErasesOwn(f) { OwnIsGiven(f); }
    if ErasesGiven(f) {
      GivenIsPlain(Touching(nodes, box), f, s, erased, erased, []);
      if ErasesOwn(f) {
        CallsUnerased(nodes, box, f, s, erased, calls);
        OwnErasedOnce(f, calls, erased);
        assert erased' - erased == ErasedBy(f, calls, |calls|);
      }
    }
  }

  lemma CallsUnerased(nodes: map<nat, Node>, box: Box, f: seq<nat> -> Reply, s: seq<nat>, erased: set<nat>,
                      calls: seq<nat>)
    requires Sized(box, |box.min|) && BoxesSized(nodes, |box.min|) && Elements(s) <= nodes.Keys
    requires calls == Calls(f, [], Among(s, Touching(nodes, box) - erased)).0
    ensures forall x :: x in calls ==> x !in erased
  {
    var hits := Among(s, Touching(nodes, box) - erased);
    CallsPrefix(f, [], hits);
    AmongMembers(s, Touching(nodes, box) - erased);
    assert calls == hits[..|calls|];
    assert forall x :: x in calls ==> x in hits;
  }

  lemma LiveLess(nodes: map<nat, Node>, erased: set<nat>, erased': set<nat>)
    requires erased <= erased' <= nodes.Keys
    ensures LiveCount(nodes, erased') == LiveCount(nodes, erased) - |erased' - erased|
  {
    assert nodes.Keys - erased' == (nodes.Keys - erased) - (erased' - erased);
  }

  lemma EmptyOrRooted(nodes: map<nat, Node>, root: Option<nat>, t: Shape, dim: nat)
    requires Spanning(nodes, root, t, dim)
    ensures BoxesSized(nodes, dim) && Shaped(nodes, t.sub) && dim > 0
    ensures root.None? ==> nodes == map[]
    ensures root.Some? ==> root.value in t.sub && root.value in t.depth && t.depth[root.value] % dim == 0
  {
  }

  lemma SideVisited(nodes: map<nat, Node>, sub: map<nat, set<nat>>, box: Box, f: seq<nat> -> Reply, link: Option<nat>,
                    erased: set<nat>, calls: seq<nat>, erased': set<nat>, calls': seq<nat>, stop: bool)
    requires Sized(box, |box.min|) && BoxesSized(nodes, |box.min|) && Shaped(nodes, sub)
    requires link.Some? && link.value in sub
    requires TreeQueried(nodes, sub, box, f, link.value, erased, calls, erased', calls', stop)
    ensures SideQueried(nodes, sub, box, f, link, erased, calls, erased', calls', stop)
  {
  }

  /** One handle more, with its box; every other box is as it was. */
  ghost predicate BoxAdded(before: map<nat, Node>, nodes: map<nat, Node>, n: nat, box: Box) {
    && nodes.Keys == before.Keys + {n} && nodes[n].box == box
    && forall h :: h in before ==> nodes[h].box == before[h].box
  }

  lemma AddedBox(before: map<nat, Node>, nodes: map<nat, Node>, n: nat, leaf: Node)
    requires n !in before && SameBoxes(before[n := leaf], nodes)
    ensures BoxAdded(before, nodes, n, leaf.box)
  {
  }

  lemma AddsOne(before: map<nat, Node>, nodes: map<nat, Node>, n: nat, box: Box, erased: set<nat>)
    requires BoxAdded(before, nodes, n, box) && n !in before && erased <= before.Keys
    ensures erased <= nodes.Keys && LiveCount(nodes, erased) == LiveCount(before, erased) + 1
  {
    assert nodes.Keys - erased == (before.Keys - erased) + {n};
  }

  lemma ArrivedParts(start: map<nat, Node>, nodes: map<nat, Node>, root: Option<nat>, t: Shape, dim: nat, n: nat,
                     box: Box)
    requires Arrived(start, nodes, root, t, dim, n, box)
    ensures Spanning(nodes, root, t, dim) && SameBoxes(start, nodes)
    ensures dim > 0 && Sized(box, dim) && Inserted(start, nodes, t, dim, n, box)
  {
  }

  lemma EmptyTree(nodes: map<nat, Node>, root: Option<nat>, t: Shape, dim: nat)
    requires Spanning(nodes, root, t, dim) && root.None?
    ensures nodes == map[] && dim > 0
  {
  }

  lemma FirstNode(n: nat, leaf: Node, node: Node, dim: nat)
    requires node.box == leaf.box && node.left.None? && node.right.None? && dim > 0 && Sized(leaf.box, dim)
    ensures Spanning(map[n := node], Some(n), Shape(map[n := {n}], map[n := 0]), dim)
    ensures SameBoxes(map[n := leaf], map[n := node])
  {
    OneNode(n, node, dim);
  }

  /** For every spacing below 1 and every starting limit, a tree built by two insertions on which the search returns the
    * root although the other point is nearer. What memory held in the bounds of the new nodes does not matter. */
  method MissedClosest(gap: real, limit: real, l0: real, r0: real, l1: real, r1: real)
      returns (kd: Kd, vec: seq<real>, best: Option<nat>)
    requires 0.0 < gap < 1.0 && limit >= 1.0
    ensures kd.Valid() && |vec| == kd.dim == 2 && kd.erased == {} && kd.nodes.Keys == {0, 1}
    ensures BoxesSized(kd.nodes, 2) && BoxesOrdered(kd.nodes, 2) && Spaced(kd.nodes, {}, vec, gap)
    ensures best == Some(0) && Distance(kd.nodes, 1, vec) < Distance(kd.nodes, 0, vec)
  {
    hide Spanning, Inserted, BoxAdded, LiveCount, Distance, FindClosest, Scan, Preorder, Spaced, BoxesOrdered,
      MissOffsets, TwoPoints, TwoShape, TreeOk, Product, Square;
    var (g, y, t) := MissOffsets(gap);
    ghost var nodes, v := CloserThanOneMisses(gap, limit, l1, r1);
    kd := TwoEmplaced(t, y, l0, r0, l1, r1);
    TwoKeys(t, y, l1, r1);
    vec := [g, y];
    best := kd.FindClosestCenter(vec, limit);
  }

  /** The two insertions. */
  method TwoEmplaced(t: real, y: real, l0: real, r0: real, l1: real, r1: real) returns (kd: Kd)
    requires t > 0.0
    ensures fresh(kd) && kd.Valid() && kd.dim == 2 && kd.erased == {} && kd.root == Some(0)
    ensures kd.nodes == TwoPoints(t, y, l1, r1) && kd.shape.sub == TwoShape().sub
  {
    hide Spanning, Inserted, BoxAdded, LiveCount, TwoPoints, TwoShape;
    kd := new Kd(2);
    kd.Emplace(0, PointBox(0.0, 0.0), l0, r0);
    ghost var before := kd.nodes;
    assert before == map[0 := Node(PointBox(0.0, 0.0), 0.0, 0.0, None, None)] && before.Keys == {0};
    kd.Emplace(1, PointBox(-t, y), l1, r1);
    TwoInserted(before, kd.nodes, kd.shape, t, y, l1, r1);
  }

  lemma TwoKeys(t: real, y: real, lTo: real, rFr: real)
    ensures TwoPoints(t, y, lTo, rFr).Keys == {0, 1}
  {
  }

  /** The second insertion goes to the left of the first. */
  lemma TwoInserted(before: map<nat, Node>, nodes: map<nat, Node>, shape: Shape, t: real, y: real, lTo: real, rFr: real)
    requires t > 0.0 && before == map[0 := Node(PointBox(0.0, 0.0), 0.0, 0.0, None, None)]
    requires Spanning(nodes, Some(0), shape, 2)
    requires Inserted(before[1 := Node(PointBox(-t, y), lTo, rFr, None, None)], nodes, shape, 2, 1, PointBox(-t, y))
    ensures nodes == TwoPoints(t, y, lTo, rFr) && shape.sub == TwoShape().sub
  {
    hide Bounded, BoxesSized, Closed, Nested, Joined, InsertedAt, Under, TwoPoints;
    var start := before[1 := Node(PointBox(-t, y), lTo, rFr, None, None)];
    assert start[0] == Node(PointBox(0.0, 0.0), 0.0, 0.0, None, None) && start.Keys == {0, 1};
    assert shape.sub[0] == {0, 1} && shape.depth[0] == 0;
    assert InsertedAt(start, nodes, shape, 2, 1, PointBox(-t, y), 0);
    BesideOrigin(start, nodes, shape, t, y);
    assert Joined(nodes, shape.sub, 1);
    LeafAlone(nodes, shape.sub, 1);
    TwoPointsAre(nodes, t, y, lTo, rFr);
  }

  lemma BesideOrigin(start: map<nat, Node>, nodes: map<nat, Node>, shape: Shape, t: real, y: real)
    requires t > 0.0 && 0 in start && start[0] == Node(PointBox(0.0, 0.0), 0.0, 0.0, None, None)
    requires 0 in nodes && 0 in shape.sub && 0 in shape.depth && 1 in shape.sub[0] && shape.depth[0] == 0
    requires InsertedAt(start, nodes, shape, 2, 1, PointBox(-t, y), 0)
    ensures nodes[0] == Node(PointBox(0.0, 0.0), 0.0, 0.0, Some(1), None)
  {
  }

  lemma LeafAlone(nodes: map<nat, Node>, sub: map<nat, set<nat>>, h: nat)
    requires h in nodes && h in sub && Joined(nodes, sub, h) && nodes[h].left.None? && nodes[h].right.None?
    ensures sub[h] == {h}
  {
  }

  lemma TwoPointsAre(nodes: map<nat, Node>, t: real, y: real, lTo: real, rFr: real)
    requires nodes.Keys == {0, 1} && nodes[0] == Node(PointBox(0.0, 0.0), 0.0, 0.0, Some(1), None)
    requires nodes[1] == Node(PointBox(-t, y), lTo, rFr, None, None)
    ensures nodes == TwoPoints(t, y, lTo, rFr)
  {
  }
}
