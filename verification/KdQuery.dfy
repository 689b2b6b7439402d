/** Intersection queries in the kd-tree of linalg/kd.hpp: the pruned query does what the plain scan of all nodes
  * does. */
module KdQuery {
  import opened Prelude
  import opened KdShape
  import opened ErasingScan

  predicate Intersects(a: Box, b: Box, dim: nat)
    requires Sized(a, dim) && Sized(b, dim)
  {
    forall i :: 0 <= i < dim ==> a.min[i] <= b.max[i] && b.min[i] <= a.max[i]
  }

  /** Boxes with corners in order intersect exactly if they have a point in common, borders included. */
  lemma IntersectsMeans(a: Box, b: Box, dim: nat)
    requires Sized(a, dim) && Sized(b, dim)
    requires forall i :: 0 <= i < dim ==> a.min[i] <= a.max[i] && b.min[i] <= b.max[i]
    ensures Intersects(a, b, dim)
            <==> exists p: seq<real> ::
                   && |p| == dim
                   && forall i :: 0 <= i < dim ==> a.min[i] <= p[i] <= a.max[i] && b.min[i] <= p[i] <= b.max[i]
  {
    if Intersects(a, b, dim) {
      var p := seq(dim, i requires 0 <= i < dim => if a.min[i] <= b.min[i] then b.min[i] else a.min[i]);
      assert |p| == dim
             && forall i :: 0 <= i < dim ==> a.min[i] <= p[i] <= a.max[i] && b.min[i] <= p[i] <= b.max[i];
    }
    if p: seq<real> :| |p| == dim
                       && forall i :: 0 <= i < dim ==> a.min[i] <= p[i] <= a.max[i] && b.min[i] <= p[i] <= b.max[i] {
      forall i | 0 <= i < dim ensures a.min[i] <= b.max[i] && b.min[i] <= a.max[i] {
        assert a.min[i] <= p[i] <= a.max[i] && b.min[i] <= p[i] <= b.max[i];
      }
    }
  }

  /** The nodes whose boxes intersect `box`. */
  ghost function Touching(nodes: map<nat, Node>, box: Box): set<nat>
    requires Sized(box, |box.min|) && BoxesSized(nodes, |box.min|)
  {
    set h | h in nodes && Intersects(nodes[h].box, box, |box.min|)
  }

  /** A query over `s` that started with `calls` and `erased` and ended with `calls'`, `erased'` and `stop` did what the
    * plain scan of `s` does. */
  ghost predicate Queried(nodes: map<nat, Node>, box: Box, f: seq<nat> -> Reply, s: seq<nat>, erased: set<nat>,
                          calls: seq<nat>, erased': set<nat>, calls': seq<nat>, stop: bool)
    requires Sized(box, |box.min|) && BoxesSized(nodes, |box.min|)
  {
    Scanned(Touching(nodes, box), f, s, erased, calls) == Progress(erased', calls', stop)
  }

  lemma QueriedOne(nodes: map<nat, Node>, box: Box, f: seq<nat> -> Reply, h: nat, erased: set<nat>, calls: seq<nat>)
    requires Sized(box, |box.min|) && BoxesSized(nodes, |box.min|) && h in nodes
    ensures Sized(nodes[h].box, |box.min|)
    ensures var now := calls + [h];
            if h !in erased && Intersects(nodes[h].box, box, |box.min|)
            then Queried(nodes, box, f, [h], erased, calls, erased + Elements(f(now).erase), now, f(now).stop)
            else Queried(nodes, box, f, [h], erased, calls, erased, calls, false)
  {
    hide Intersects, Scanned;
    ScannedOne(Touching(nodes, box), f, h, erased, calls);
  }

  lemma QueriedStops(nodes: map<nat, Node>, box: Box, f: seq<nat> -> Reply, s: seq<nat>, r: seq<nat>, erased: set<nat>,
                     calls: seq<nat>, erased1: set<nat>, calls1: seq<nat>)
    requires Sized(box, |box.min|) && BoxesSized(nodes, |box.min|)
    requires Queried(nodes, box, f, s, erased, calls, erased1, calls1, true)
    ensures Queried(nodes, box, f, s + r, erased, calls, erased1, calls1, true)
  {
    hide Scanned;
    ScannedConcat(Touching(nodes, box), f, s, r, erased, calls);
  }

  /** Two queries in a row are one query over both lists. */
  lemma QueriedJoins(nodes: map<nat, Node>, box: Box, f: seq<nat> -> Reply, s: seq<nat>, r: seq<nat>, erased: set<nat>,
                     calls: seq<nat>, erased1: set<nat>, calls1: seq<nat>, erased2: set<nat>, calls2: seq<nat>,
                     stop: bool)
    requires Sized(box, |box.min|) && BoxesSized(nodes, |box.min|)
    requires Queried(nodes, box, f, s, erased, calls, erased1, calls1, false)
    requires Queried(nodes, box, f, r, erased1, calls1, erased2, calls2, stop)
    ensures Queried(nodes, box, f, s + r, erased, calls, erased2, calls2, stop)
  {
    hide Scanned;
    ScannedConcat(Touching(nodes, box), f, s, r, erased, calls);
  }

  // A pruned side has no hit.
  lemma QueriedPrunedLeft(nodes: map<nat, Node>, t: Shape, box: Box, f: seq<nat> -> Reply, h: nat, erased: set<nat>,
                          calls: seq<nat>)
    requires |box.min| > 0 && Sized(box, |box.min|) && BoxesSized(nodes, |box.min|)
    requires Shaped(nodes, t.sub) && t.depth.Keys == t.sub.Keys && Bounded(nodes, t, |box.min|)
    requires h in t.sub && nodes[h].left.Some? && nodes[h].left.value in t.sub
    requires nodes[h].lTo < box.min[t.depth[h] % |box.min|]
    ensures Queried(nodes, box, f, Preorder(nodes, t.sub, nodes[h].left.value), erased, calls, erased, calls, false)
  {
    var s := Preorder(nodes, t.sub, nodes[h].left.value);
    PreorderLists(nodes, t.sub, nodes[h].left.value);
    PreorderInTree(nodes, t.sub, nodes[h].left.value);
    forall x | x in s ensures x !in Touching(nodes, box) {
      assert x in Elements(s);
      assert Within(nodes, t, |box.min|, h, x, nodes[x].box);
    }
    ScannedNone(Touching(nodes, box), f, s, erased, calls);
  }

  lemma QueriedPrunedRight(nodes: map<nat, Node>, t: Shape, box: Box, f: seq<nat> -> Reply, h: nat, erased: set<nat>,
                           calls: seq<nat>)
    requires |box.min| > 0 && Sized(box, |box.min|) && BoxesSized(nodes, |box.min|)
    requires Shaped(nodes, t.sub) && t.depth.Keys == t.sub.Keys && Bounded(nodes, t, |box.min|)
    requires h in t.sub && nodes[h].right.Some? && nodes[h].right.value in t.sub
    requires nodes[h].rFr > box.max[t.depth[h] % |box.min|]
    ensures Queried(nodes, box, f, Preorder(nodes, t.sub, nodes[h].right.value), erased, calls, erased, calls, false)
  {
    var s := Preorder(nodes, t.sub, nodes[h].right.value);
    PreorderLists(nodes, t.sub, nodes[h].right.value);
    PreorderInTree(nodes, t.sub, nodes[h].right.value);
    forall x | x in s ensures x !in Touching(nodes, box) {
      assert x in Elements(s);
      assert Within(nodes, t, |box.min|, h, x, nodes[x].box);
    }
    ScannedNone(Touching(nodes, box), f, s, erased, calls);
  }

  lemma QueriedNothing(nodes: map<nat, Node>, box: Box, f: seq<nat> -> Reply, erased: set<nat>, calls: seq<nat>)
    requires Sized(box, |box.min|) && BoxesSized(nodes, |box.min|)
    ensures Queried(nodes, box, f, [], erased, calls, erased, calls, false)
  {
  }

  /** A query over one side of `h`, or over none of it where the bounds prune that side. */
  ghost predicate SideQueried(nodes: map<nat, Node>, sub: map<nat, set<nat>>, box: Box, f: seq<nat> -> Reply,
                              link: Option<nat>, erased: set<nat>, calls: seq<nat>,
                              erased': set<nat>, calls': seq<nat>, stop: bool)
    requires Sized(box, |box.min|) && BoxesSized(nodes, |box.min|)
    requires Shaped(nodes, sub) && (link.Some? ==> link.value in sub)
  {
    Queried(nodes, box, f, Side(nodes, sub, link), erased, calls, erased', calls', stop)
  }

  lemma LeftSkipped(nodes: map<nat, Node>, t: Shape, box: Box, f: seq<nat> -> Reply, h: nat, erased: set<nat>,
                    calls: seq<nat>)
    requires |box.min| > 0 && Sized(box, |box.min|) && BoxesSized(nodes, |box.min|)
    requires Shaped(nodes, t.sub) && t.depth.Keys == t.sub.Keys && Bounded(nodes, t, |box.min|) && h in t.sub
    requires nodes[h].left.Some? ==> nodes[h].left.value in t.sub && nodes[h].lTo < box.min[t.depth[h] % |box.min|]
    ensures SideQueried(nodes, t.sub, box, f, nodes[h].left, erased, calls, erased, calls, false)
  {
    hide Bounded, Queried, Preorder;
    if nodes[h].left.Some? {
      QueriedPrunedLeft(nodes, t, box, f, h, erased, calls);
    } else {
      QueriedNothing(nodes, box, f, erased, calls);
    }
  }

  lemma RightSkipped(nodes: map<nat, Node>, t: Shape, box: Box, f: seq<nat> -> Reply, h: nat, erased: set<nat>,
                     calls: seq<nat>)
    requires |box.min| > 0 && Sized(box, |box.min|) && BoxesSized(nodes, |box.min|)
    requires Shaped(nodes, t.sub) && t.depth.Keys == t.sub.Keys && Bounded(nodes, t, |box.min|) && h in t.sub
    requires nodes[h].right.Some? ==> nodes[h].right.value in t.sub && nodes[h].rFr > box.max[t.depth[h] % |box.min|]
    ensures SideQueried(nodes, t.sub, box, f, nodes[h].right, erased, calls, erased, calls, false)
  {
    hide Bounded, Queried, Preorder;
    if nodes[h].right.Some? {
      QueriedPrunedRight(nodes, t, box, f, h, erased, calls);
    } else {
      QueriedNothing(nodes, box, f, erased, calls);
    }
  }

  /** A query over the subtree of `h`. */
  ghost predicate TreeQueried(nodes: map<nat, Node>, sub: map<nat, set<nat>>, box: Box, f: seq<nat> -> Reply, h: nat,
                              erased: set<nat>, calls: seq<nat>, erased': set<nat>, calls': seq<nat>, stop: bool)
    requires Sized(box, |box.min|) && BoxesSized(nodes, |box.min|) && Shaped(nodes, sub) && h in sub
  {
    Queried(nodes, box, f, Preorder(nodes, sub, h), erased, calls, erased', calls', stop)
  }

  lemma StoppedAtNode(nodes: map<nat, Node>, sub: map<nat, set<nat>>, box: Box, f: seq<nat> -> Reply, h: nat,
                      e0: set<nat>, c0: seq<nat>, e1: set<nat>, c1: seq<nat>)
    requires Sized(box, |box.min|) && BoxesSized(nodes, |box.min|) && Shaped(nodes, sub) && h in sub
    requires nodes[h].left.Some? ==> nodes[h].left.value in sub
    requires nodes[h].right.Some? ==> nodes[h].right.value in sub
    requires Queried(nodes, box, f, [h], e0, c0, e1, c1, true)
    ensures TreeQueried(nodes, sub, box, f, h, e0, c0, e1, c1, true)
  {
    hide Preorder, Queried, Side;
    var l, r := Side(nodes, sub, nodes[h].left), Side(nodes, sub, nodes[h].right);
    SidesOfPreorder(nodes, sub, h);
    QueriedStops(nodes, box, f, [h], l, e0, c0, e1, c1);
    QueriedStops(nodes, box, f, [h] + l, r, e0, c0, e1, c1);
  }

  lemma StoppedAtLeft(nodes: map<nat, Node>, sub: map<nat, set<nat>>, box: Box, f: seq<nat> -> Reply, h: nat,
                      e0: set<nat>, c0: seq<nat>, e1: set<nat>, c1: seq<nat>, e2: set<nat>, c2: seq<nat>)
    requires Sized(box, |box.min|) && BoxesSized(nodes, |box.min|) && Shaped(nodes, sub) && h in sub
    requires nodes[h].left.Some? ==> nodes[h].left.value in sub
    requires nodes[h].right.Some? ==> nodes[h].right.value in sub
    requires Queried(nodes, box, f, [h], e0, c0, e1, c1, false)
    requires SideQueried(nodes, sub, box, f, nodes[h].left, e1, c1, e2, c2, true)
    ensures TreeQueried(nodes, sub, box, f, h, e0, c0, e2, c2, true)
  {
    hide Preorder, Queried, Side;
    var l, r := Side(nodes, sub, nodes[h].left), Side(nodes, sub, nodes[h].right);
    SidesOfPreorder(nodes, sub, h);
    QueriedJoins(nodes, box, f, [h], l, e0, c0, e1, c1, e2, c2, true);
    QueriedStops(nodes, box, f, [h] + l, r, e0, c0, e2, c2);
  }

  lemma ReachedRight(nodes: map<nat, Node>, sub: map<nat, set<nat>>, box: Box, f: seq<nat> -> Reply, h: nat,
                     e0: set<nat>, c0: seq<nat>, e1: set<nat>, c1: seq<nat>, e2: set<nat>, c2: seq<nat>,
                     e3: set<nat>, c3: seq<nat>, stop: bool)
    requires Sized(box, |box.min|) && BoxesSized(nodes, |box.min|) && Shaped(nodes, sub) && h in sub
    requires nodes[h].left.Some? ==> nodes[h].left.value in sub
    requires nodes[h].right.Some? ==> nodes[h].right.value in sub
    requires Queried(nodes, box, f, [h], e0, c0, e1, c1, false)
    requires SideQueried(nodes, sub, box, f, nodes[h].left, e1, c1, e2, c2, false)
    requires SideQueried(nodes, sub, box, f, nodes[h].right, e2, c2, e3, c3, stop)
    ensures TreeQueried(nodes, sub, box, f, h, e0, c0, e3, c3, stop)
  {
    hide Preorder, Queried, Side;
    var l, r := Side(nodes, sub, nodes[h].left), Side(nodes, sub, nodes[h].right);
    SidesOfPreorder(nodes, sub, h);
    QueriedJoins(nodes, box, f, [h], l, e0, c0, e1, c1, e2, c2, false);
    QueriedJoins(nodes, box, f, [h] + l, r, e0, c0, e2, c2, e3, c3, stop);
  }

  lemma TouchingMeans(nodes: map<nat, Node>, box: Box, h: nat)
    requires Sized(box, |box.min|) && BoxesSized(nodes, |box.min|) && h in nodes
    ensures Sized(nodes[h].box, |box.min|)
    ensures var b := nodes[h].box;
            && (h in Touching(nodes, box)
                <==> forall i :: 0 <= i < |box.min| ==> b.min[i] <= box.max[i] && box.min[i] <= b.max[i])
            && ((forall i :: 0 <= i < |box.min| ==> b.min[i] <= b.max[i] && box.min[i] <= box.max[i]) ==>
                  (h in Touching(nodes, box)
                   <==> exists p: seq<real> ::
                          && |p| == |box.min|
                          && forall i :: 0 <= i < |box.min| ==>
                             b.min[i] <= p[i] <= b.max[i] && box.min[i] <= p[i] <= box.max[i]))
  {
    var b := nodes[h].box;
    if forall i :: 0 <= i < |box.min| ==> b.min[i] <= b.max[i] && box.min[i] <= box.max[i] {
      IntersectsMeans(b, box, |box.min|);
    }
  }

  lemma NodeCalled(nodes: map<nat, Node>, box: Box, f: seq<nat> -> Reply, s: seq<nat>, erased: set<nat>,
                   calls: seq<nat>, j: nat)
    requires Sized(box, |box.min|) && BoxesSized(nodes, |box.min|) && Elements(s) <= nodes.Keys && j < |s|
    requires s[j] in calls
             <==> s[j] in Touching(nodes, box) && s[j] !in erased
                  && forall m :: 0 <= m < |calls| && calls[m] in s[..j] ==> s[j] !in f(calls[..m + 1]).erase
    ensures s[j] in nodes && Sized(nodes[s[j]].box, |box.min|)
    ensures var b := nodes[s[j]].box;
            var left := s[j] !in erased && forall m :: 0 <= m < |calls| && calls[m] in s[..j] ==>
                                             s[j] !in f(calls[..m + 1]).erase;
            && (s[j] in calls <==>
                  left && forall i :: 0 <= i < |box.min| ==> b.min[i] <= box.max[i] && box.min[i] <= b.max[i])
            && ((forall i :: 0 <= i < |box.min| ==> b.min[i] <= b.max[i] && box.min[i] <= box.max[i]) ==>
                  (s[j] in calls <==>
                     left && exists p: seq<real> ::
                               && |p| == |box.min|
                               && forall i :: 0 <= i < |box.min| ==>
                                    b.min[i] <= p[i] <= b.max[i] && box.min[i] <= p[i] <= box.max[i]))
  {
    hide Touching;
    assert s[j] in Elements(s);
    TouchingMeans(nodes, box, s[j]);
  }

  /** What a finished query means: the calls are nodes in the order of the list, none twice. A node has its turn
    * unless the query stopped at an earlier one. It is called exactly if its box meets the query box on every axis,
    * and, for boxes with corners in order, exactly if the two have a point in common, provided that it was not
    * erased at the start and no reply to a call of an earlier node erased it. What is erased at the end was erased
    * at the start or by some reply. The query stops at the first reply that says so. */
  lemma QueryMeaning(nodes: map<nat, Node>, box: Box, f: seq<nat> -> Reply, s: seq<nat>, erased: set<nat>,
                     erased': set<nat>, calls: seq<nat>, stop: bool)
    requires Sized(box, |box.min|) && BoxesSized(nodes, |box.min|) && Elements(s) <= nodes.Keys && Distinct(s)
    requires Queried(nodes, box, f, s, erased, [], erased', calls, stop)
    ensures calls == Among(s, Elements(calls)) && Distinct(calls)
    ensures forall j :: 0 <= j < |s| && (stop ==> calls != [] && calls[|calls| - 1] in s[j..]) ==>
              assert s[j] in Elements(s);
              var b := nodes[s[j]].box;
              var left := s[j] !in erased && forall m :: 0 <= m < |calls| && calls[m] in s[..j] ==>
                                               s[j] !in f(calls[..m + 1]).erase;
              && (s[j] in calls <==>
                    left && forall i :: 0 <= i < |box.min| ==> b.min[i] <= box.max[i] && box.min[i] <= b.max[i])
              && ((forall i :: 0 <= i < |box.min| ==> b.min[i] <= b.max[i] && box.min[i] <= box.max[i]) ==>
                    (s[j] in calls <==>
                       left && exists p: seq<real> ::
                                 && |p| == |box.min|
                                 && forall i :: 0 <= i < |box.min| ==>
                                    b.min[i] <= p[i] <= b.max[i] && box.min[i] <= p[i] <= box.max[i]))
    ensures forall x :: x in erased' <==> x in erased || exists m :: 0 < m <= |calls| && x in f(calls[..m]).erase
    ensures stop ==> calls != [] && f(calls).stop
    ensures forall k :: 0 < k < |calls| + (if stop then 0 else 1) ==> !f(calls[..k]).stop
  {
    hide Scanned, HadTurn, Among, Intersects, Touching, BoxesSized, ErasedBy, RightlyCalled;
    ScanMeaning(Touching(nodes, box), f, s, erased);
    ScanCalls(Touching(nodes, box), f, s, erased);
    forall j | 0 <= j < |s| && (stop ==> calls != [] && calls[|calls| - 1] in s[j..]) {
      NodeCalled(nodes, box, f, s, erased, calls, j);
    }
  }
}
