/** The boundary walk of `cap_hole`: from an unlinked half-edge, rotate around its end
    vertex over linked half-edges until the next unlinked one, and repeat. */
module Boundary {
  import opened Prelude
  import opened HalfEdges

  /** Successive values of `he` in the inner loop: `next` then across the link. */
  ghost predicate Fan(l: Links, t: seq<HalfEdge>) {
    && t != []
    && forall i :: 0 <= i < |t| - 1 ==> FanStep(l, t[i], t[i + 1])
  }

  ghost predicate FanStep(l: Links, a: HalfEdge, b: HalfEdge) {
    Next(a) in l && l[Next(a)] == b
  }

  /** The inner loop started at the unlinked `a` stops with `b` the next boundary half-edge. */
  ghost predicate Turns(c: Corners, l: Links, a: HalfEdge, b: HalfEdge) {
    && b in c && b !in l
    && exists t :: TurnsVia(l, a, b, t)
  }

  ghost predicate TurnsVia(l: Links, a: HalfEdge, b: HalfEdge, t: seq<HalfEdge>) {
    Fan(l, t) && t[0] == a && Next(t[|t| - 1]) == b
  }

  /** One rotation step is injective and never lands on an unlinked half-edge. */
  lemma FanStepInjective(c: Corners, l: Links, a: HalfEdge, a': HalfEdge, b: HalfEdge)
    requires Whole(c) && LinksOk(c, l) && a in c && a' in c
    requires FanStep(l, a, b) && FanStep(l, a', b)
    ensures a == a' && b in l && b in c
  {
    assert LinkOk(c, l, Next(a)) && LinkOk(c, l, Next(a'));
    WholeNext(c, a); WholeNext(c, a');
    NextPrev(a); NextPrev(a');
  }

  lemma NextInjective(a: HalfEdge, b: HalfEdge)
    requires a.ith < 3 && b.ith < 3 && Next(a) == Next(b)
    ensures a == b
  {
    NextPrev(a); NextPrev(b);
  }

  /** A fan that starts at an unlinked half-edge has not met the next one before. */
  lemma FanFresh(c: Corners, l: Links, t: seq<HalfEdge>, b: HalfEdge)
    requires Whole(c) && LinksOk(c, l) && Fan(l, t) && Distinct(t) && t[0] !in l
    requires forall i :: 0 <= i < |t| ==> t[i] in c
    requires FanStep(l, t[|t| - 1], b)
    ensures b in c && b in l && b !in t
  {
    FanStepInjective(c, l, t[|t| - 1], t[|t| - 1], b);
    if b in t {
      var j :| 0 <= j < |t| && t[j] == b;
      if j > 0 {
        assert FanStep(l, t[j - 1], t[j]);
        FanStepInjective(c, l, t[j - 1], t[|t| - 1], b);
        assert false;
      }
    }
  }

  /** Two fans that start at unlinked half-edges and end together started together. */
  lemma {:induction false} FanSource(c: Corners, l: Links, s: seq<HalfEdge>, t: seq<HalfEdge>)
    requires Whole(c) && LinksOk(c, l) && Fan(l, s) && Fan(l, t)
    requires s[0] in c && t[0] in c && s[0] !in l && t[0] !in l
    requires s[|s| - 1] == t[|t| - 1]
    ensures s[0] == t[0]
    decreases |s| + |t|
  {
    FanInMesh(c, l, s); FanInMesh(c, l, t);
    var m, n := |s| - 1, |t| - 1;
    if m == 0 || n == 0 {
      if n > 0 { FanLeavesSource(c, l, t); }
      if m > 0 { FanLeavesSource(c, l, s); }
    } else {
      assert FanStep(l, s[m - 1], s[m]) && FanStep(l, t[n - 1], t[n]);
      FanStepInjective(c, l, s[m - 1], t[n - 1], s[m]);
      assert s[..m][m - 1] == t[..n][n - 1];
      FanSource(c, l, s[..m], t[..n]);
    }
  }

  // After its first step a fan is on linked half-edges.
  lemma FanLeavesSource(c: Corners, l: Links, t: seq<HalfEdge>)
    requires Whole(c) && LinksOk(c, l) && Fan(l, t) && |t| > 1
    requires forall i :: 0 <= i < |t| ==> t[i] in c
    ensures t[|t| - 1] in l
  {
    var n := |t| - 1;
    assert FanStep(l, t[n - 1], t[n]);
    FanStepInjective(c, l, t[n - 1], t[n - 1], t[n]);
  }

  lemma {:induction false} FanInMesh(c: Corners, l: Links, t: seq<HalfEdge>)
    requires Whole(c) && LinksOk(c, l) && Fan(l, t) && t[0] in c
    ensures forall i :: 0 <= i < |t| ==> t[i] in c
  {
    var n := |t| - 1;
    if n > 0 {
      FanInMesh(c, l, t[..n]);
      assert t[..n][n - 1] in c;
      assert FanStep(l, t[n - 1], t[n]);
      FanStepInjective(c, l, t[n - 1], t[n - 1], t[n]);
      forall i | 0 <= i < n ensures t[i] in c { assert t[i] == t[..n][i]; }
    }
  }

  /** All half-edges of a fan end at the same vertex. */
  lemma {:induction false} FanEnds(c: Corners, l: Links, t: seq<HalfEdge>)
    requires Whole(c) && LinksOk(c, l) && Fan(l, t) && t[0] in c
    ensures t[|t| - 1] in c && Next(t[|t| - 1]) in c && Next(t[0]) in c
    ensures End(c, t[|t| - 1]) == End(c, t[0])
  {
    FanInMesh(c, l, t);
    var n := |t| - 1;
    WholeNext(c, t[0]);
    if n > 0 {
      FanEnds(c, l, t[..n]);
      assert t[..n][n - 1] == t[n - 1];
      assert FanStep(l, t[n - 1], t[n]);
      LinkReversed(c, l, Next(t[n - 1]));
    }
  }

  /** The outer step is injective on the unlinked half-edges: `Turns` is a permutation of
      them, because they are finitely many. */
  lemma TurnsInjective(c: Corners, l: Links, a: HalfEdge, a': HalfEdge, b: HalfEdge)
    requires Whole(c) && LinksOk(c, l) && a in c && a' in c && a !in l && a' !in l
    requires Turns(c, l, a, b) && Turns(c, l, a', b)
    ensures a == a'
  {
    var t :| TurnsVia(l, a, b, t);
    var t' :| TurnsVia(l, a', b, t');
    FanInMesh(c, l, t); FanInMesh(c, l, t');
    NextInjective(t[|t| - 1], t'[|t'| - 1]);
    FanSource(c, l, t, t');
  }

  lemma TurnsAdjacent(c: Corners, l: Links, a: HalfEdge, b: HalfEdge)
    requires Whole(c) && LinksOk(c, l) && a in c && Turns(c, l, a, b)
    ensures Adjacent(c, a, b)
  {
    var t :| TurnsVia(l, a, b, t);
    FanEnds(c, l, t);
  }

  lemma TurnsUnique(c: Corners, l: Links, a: HalfEdge, b: HalfEdge, b': HalfEdge)
    requires Turns(c, l, a, b) && Turns(c, l, a, b')
    ensures b == b'
  {
    var t :| TurnsVia(l, a, b, t);
    var t' :| TurnsVia(l, a, b', t');
    var k := if |t| <= |t'| then |t| - 1 else |t'| - 1;
    FanPrefix(l, t, t', k);
    FanGoesOn(l, t, k); FanGoesOn(l, t', k);
  }

  lemma FanGoesOn(l: Links, t: seq<HalfEdge>, k: nat)
    requires Fan(l, t) && k < |t|
    ensures k < |t| - 1 ==> Next(t[k]) in l
  {
    assert k < |t| - 1 ==> FanStep(l, t[k], t[k + 1]);
  }

  lemma {:induction false} FanPrefix(l: Links, s: seq<HalfEdge>, t: seq<HalfEdge>, k: nat)
    requires Fan(l, s) && Fan(l, t) && s[0] == t[0] && k < |s| && k < |t|
    ensures s[k] == t[k]
  {
    if k > 0 {
      FanPrefix(l, s, t, k - 1);
      assert FanStep(l, s[k - 1], s[k]) && FanStep(l, t[k - 1], t[k]);
    }
  }

  ghost predicate Adjacent(c: Corners, a: HalfEdge, b: HalfEdge) {
    Next(a) in c && b in c && End(c, a) == Start(c, b)
  }

  /** A chain of boundary half-edges from `a`, each turning into the following one. */
  ghost predicate Walk(c: Corners, l: Links, a: HalfEdge, p: seq<HalfEdge>) {
    && (p != [] ==> Turns(c, l, a, p[0]))
    && (forall i :: 0 <= i < |p| - 1 ==> Turns(c, l, p[i], p[i + 1]))
  }

  /** The boundary of the mesh that contains `a`, as `cap_hole` collects it: duplicate-free
      unlinked half-edges, each turning into the following one, ending with `a` itself. */
  ghost predicate BoundaryOf(c: Corners, l: Links, a: HalfEdge, p: seq<HalfEdge>) {
    && p != [] && p[|p| - 1] == a
    && Distinct(p)
    && (forall i :: 0 <= i < |p| ==> p[i] in Unlinked(c, l))
    && Walk(c, l, a, p)
  }

  /** A closed vertex cycle: each half-edge ends where the following one starts. */
  ghost predicate ClosedCycle(c: Corners, p: seq<HalfEdge>) {
    && (forall i :: 0 <= i < |p| - 1 ==> Adjacent(c, p[i], p[i + 1]))
    && (p != [] ==> Adjacent(c, p[|p| - 1], p[0]))
  }

  lemma BoundaryIsClosed(c: Corners, l: Links, a: HalfEdge, p: seq<HalfEdge>)
    requires Whole(c) && LinksOk(c, l) && BoundaryOf(c, l, a, p)
    ensures ClosedCycle(c, p)
  {
    hide Turns, Adjacent;
    forall i | 0 <= i < |p| - 1 ensures Adjacent(c, p[i], p[i + 1]) {
      TurnsAdjacent(c, l, p[i], p[i + 1]);
    }
    TurnsAdjacent(c, l, a, p[0]);
  }

  /** The outer loop has collected `p` and not yet come back to where it started. */
  ghost predicate Collecting(c: Corners, l: Links, a: HalfEdge, p: seq<HalfEdge>) {
    && a in Unlinked(c, l) && a !in p
    && Distinct(p) && Walk(c, l, a, p)
    && forall i :: 0 <= i < |p| ==> p[i] in Unlinked(c, l)
  }

  function LastOr<T>(p: seq<T>, a: T): T {
    if p == [] then a else p[|p| - 1]
  }

  /** The outer loop has not met the next boundary half-edge before, unless the walk has
      come back to where it started. */
  lemma CollectStep(c: Corners, l: Links, a: HalfEdge, p: seq<HalfEdge>, b: HalfEdge)
    requires Whole(c) && LinksOk(c, l) && Collecting(c, l, a, p) && Turns(c, l, LastOr(p, a), b)
    ensures b in Unlinked(c, l) && b !in Elements(p)
    ensures if b == a then BoundaryOf(c, l, a, p + [b]) else Collecting(c, l, a, p + [b])
  {
    TurnsUnlinked(c, l, LastOr(p, a), b);
    hide Turns, LinksOk, Whole;
    if b in p {
      var j :| 0 <= j < |p| && p[j] == b;
      TurnsInjective(c, l, if j == 0 then a else p[j - 1], LastOr(p, a), b);
      assert false;
    }
  }

  lemma CollectStart(c: Corners, l: Links, a: HalfEdge)
    requires a in Unlinked(c, l)
    ensures Collecting(c, l, a, [])
  {
  }

  lemma TurnsUnlinked(c: Corners, l: Links, a: HalfEdge, b: HalfEdge)
    requires Turns(c, l, a, b)
    ensures b in Unlinked(c, l)
  {
  }

  /** A boundary of a single half-edge: it turns into itself. */
  lemma LoneBoundary(c: Corners, l: Links, a: HalfEdge, p: seq<HalfEdge>)
    requires Whole(c) && LinksOk(c, l) && BoundaryOf(c, l, a, p)
    ensures |p| == 1 <==> Turns(c, l, a, a)
    ensures |p| == 1 ==> Start(c, a) == End(c, a)
  {
    hide Turns;
    if Turns(c, l, a, a) {
      TurnsUnique(c, l, a, p[0], a);
    }
    if |p| == 1 {
      TurnsAdjacent(c, l, a, a);
    }
  }

  /** A mesh with such a boundary: one triangle with two corners at vertex 0, its other two edges linked together. */
  function LoneCorners(): Corners {
    map[HalfEdge(0, 0) := 0, HalfEdge(0, 1) := 0, HalfEdge(0, 2) := 1]
  }

  function LoneLinks(): Links {
    map[HalfEdge(0, 1) := HalfEdge(0, 2), HalfEdge(0, 2) := HalfEdge(0, 1)]
  }

  /** Whatever the walk collects there has a single entry. */
  lemma LoneBoundaryExists(p: seq<HalfEdge>)
    ensures Whole(LoneCorners()) && LinksOk(LoneCorners(), LoneLinks())
    ensures HalfEdge(0, 0) in Unlinked(LoneCorners(), LoneLinks())
    ensures Turns(LoneCorners(), LoneLinks(), HalfEdge(0, 0), HalfEdge(0, 0))
    ensures BoundaryOf(LoneCorners(), LoneLinks(), HalfEdge(0, 0), p) <==> p == [HalfEdge(0, 0)]
  {
    var c, l, h := LoneCorners(), LoneLinks(), HalfEdge(0, 0);
    var t := [h, HalfEdge(0, 2)];
    assert Next(h) == HalfEdge(0, 1) && Next(HalfEdge(0, 2)) == h && Next(HalfEdge(0, 1)) == HalfEdge(0, 2);
    assert FanStep(l, t[0], t[1]);
    assert TurnsVia(l, h, h, t);
    hide Turns;
    if BoundaryOf(c, l, h, p) { LoneBoundary(c, l, h, p); }
  }

  /** No unlinked half-edge is a boundary by itself. */
  ghost predicate NoLoneBoundary(c: Corners, l: Links) {
    forall h :: h in Unlinked(c, l) ==> !Turns(c, l, h, h)
  }

  /** In particular this holds when no unlinked half-edge starts and ends at one vertex. */
  lemma ProperEdgesSuffice(c: Corners, l: Links)
    requires Whole(c) && LinksOk(c, l)
    requires forall h :: h in Unlinked(c, l) ==> Next(h) in c && Start(c, h) != End(c, h)
    ensures NoLoneBoundary(c, l)
  {
    hide Turns;
    forall h | h in Unlinked(c, l) ensures !Turns(c, l, h, h) {
      if Turns(c, l, h, h) {
        TurnsAdjacent(c, l, h, h);
      }
    }
  }

  /** Every unlinked half-edge turns into another one: the rotation cannot go on forever. */
  lemma TurnsTotal(c: Corners, l: Links, a: HalfEdge) returns (b: HalfEdge)
    requires Whole(c) && LinksOk(c, l) && a in Unlinked(c, l)
    ensures Turns(c, l, a, b)
  {
    WholeNext(c, a);
    b := TurnsFrom(c, l, [a]);
  }

  lemma {:induction false} TurnsFrom(c: Corners, l: Links, t: seq<HalfEdge>) returns (b: HalfEdge)
    requires Whole(c) && LinksOk(c, l) && Fan(l, t) && Distinct(t) && t[0] in Unlinked(c, l)
    requires forall i :: 0 <= i < |t| ==> t[i] in c
    ensures Turns(c, l, t[0], b)
    decreases c.Keys - Elements(t)
  {
    var last := t[|t| - 1];
    WholeNext(c, last);
    if Next(last) in l {
      var n := l[Next(last)];
      FanFresh(c, l, t, n);
      ElementsSnoc(t, n);
      assert n in c.Keys - Elements(t);
      b := TurnsFrom(c, l, t + [n]);
    } else {
      b := Next(last);
      assert TurnsVia(l, t[0], b, t);
    }
  }

  /** Adding polygons and links elsewhere does not disturb a turn. */
  lemma TurnsStable(c: Corners, l: Links, c': Corners, l': Links, a: HalfEdge, b: HalfEdge)
    requires Turns(c, l, a, b) && b in Unlinked(c', l')
    requires forall h :: h in l ==> h in l' && l'[h] == l[h]
    ensures Turns(c', l', a, b)
  {
    var t :| TurnsVia(l, a, b, t);
    forall i | 0 <= i < |t| - 1 ensures FanStep(l', t[i], t[i + 1]) {
      assert FanStep(l, t[i], t[i + 1]);
    }
    assert TurnsVia(l', a, b, t);
  }

  /** A boundary is closed under turning backwards. */
  lemma BoundaryBackwards(c: Corners, l: Links, a: HalfEdge, p: seq<HalfEdge>, h: HalfEdge, b: HalfEdge)
    requires Whole(c) && LinksOk(c, l) && BoundaryOf(c, l, a, p)
    requires h in Unlinked(c, l) && Turns(c, l, h, b) && b in p
    ensures h in p
  {
    hide Turns;
    var j :| 0 <= j < |p| && p[j] == b;
    TurnsInjective(c, l, if j == 0 then a else p[j - 1], h, b);
  }

  /** Capping the boundary `p` leaves every other one as it is: a boundary `q` from a half-edge outside `p` has no
    * half-edge of `p`, and it is still the boundary from there. */
  lemma OtherBoundaryKept(c: Corners, l: Links, c': Corners, l': Links, a: HalfEdge, p: seq<HalfEdge>,
                          x: HalfEdge, q: seq<HalfEdge>)
    requires Whole(c) && LinksOk(c, l) && BoundaryOf(c, l, a, p) && BoundaryOf(c, l, x, q) && x !in p
    requires forall h :: h in l ==> h in l' && l'[h] == l[h]
    requires Unlinked(c', l') == Unlinked(c, l) - Elements(p)
    ensures BoundaryOf(c', l', x, q) && Elements(q) !! Elements(p)
  {
    hide Turns, Unlinked;
    forall i | 0 <= i < |q| ensures q[i] !in p { OutsideBoundary(c, l, a, p, x, q, i); }
    forall i | 0 <= i < |q| ensures q[i] in Unlinked(c', l') {}
    forall i | 0 <= i < |q| - 1 ensures Turns(c', l', q[i], q[i + 1]) {
      TurnsStable(c, l, c', l', q[i], q[i + 1]);
    }
    TurnsStable(c, l, c', l', x, q[0]);
  }

  lemma {:induction false} OutsideBoundary(c: Corners, l: Links, a: HalfEdge, p: seq<HalfEdge>, x: HalfEdge,
                                           q: seq<HalfEdge>, i: nat)
    requires Whole(c) && LinksOk(c, l) && BoundaryOf(c, l, a, p) && BoundaryOf(c, l, x, q) && x !in p && i < |q|
    ensures q[i] !in p
  {
    hide Turns;
    if i > 0 { OutsideBoundary(c, l, a, p, x, q, i - 1); }
    var before := if i == 0 then x else q[i - 1];
    assert before in Unlinked(c, l) && Turns(c, l, before, q[i]) && before !in p;
    if q[i] in p { BoundaryBackwards(c, l, a, p, before, q[i]); }
  }

  /** Capping one boundary makes no other one a single half-edge. */
  lemma NoLoneBoundaryKept(c: Corners, l: Links, c': Corners, l': Links, a: HalfEdge, p: seq<HalfEdge>)
    requires Whole(c) && LinksOk(c, l) && NoLoneBoundary(c, l) && BoundaryOf(c, l, a, p)
    requires forall h :: h in l ==> h in l' && l'[h] == l[h]
    requires Unlinked(c', l') == Unlinked(c, l) - Elements(p)
    ensures NoLoneBoundary(c', l')
  {
    hide Turns, Unlinked;
    forall h | h in Unlinked(c', l') ensures !Turns(c', l', h, h) {
      var b := TurnsTotal(c, l, h);
      TurnsUnlinked(c, l, h, b);
      if b in p {
        BoundaryBackwards(c, l, a, p, h, b);
        assert false;
      }
      TurnsStable(c, l, c', l', h, b);
      if Turns(c', l', h, h) {
        TurnsUnique(c', l', h, h, b);
      }
    }
  }

  /** Nor does it do away with one: a half-edge that turns into itself is not on a longer boundary, and goes on turning
    * into itself when that boundary is capped. */
  lemma LoneBoundaryKept(c: Corners, l: Links, c': Corners, l': Links, a: HalfEdge, p: seq<HalfEdge>, h: HalfEdge)
    requires Whole(c) && LinksOk(c, l) && BoundaryOf(c, l, a, p) && |p| > 1
    requires h in Unlinked(c, l) && Turns(c, l, h, h)
    requires forall h :: h in l ==> h in l' && l'[h] == l[h]
    requires Unlinked(c', l') == Unlinked(c, l) - Elements(p)
    ensures h in Unlinked(c', l') && Turns(c', l', h, h)
  {
    hide Turns;
    if h in p {
      var j :| 0 <= j < |p| && p[j] == h;
      assert p[CyclicPrev(j, |p|)] in Unlinked(c, l);
      TurnsInjective(c, l, p[CyclicPrev(j, |p|)], h, h);
      assert false;
    }
    TurnsStable(c, l, c', l', h, h);
  }

  /** Hence whether some boundary is a single half-edge does not change while holes are capped. */
  lemma LoneBoundarySame(c: Corners, l: Links, c': Corners, l': Links, a: HalfEdge, p: seq<HalfEdge>)
    requires Whole(c) && LinksOk(c, l) && BoundaryOf(c, l, a, p) && |p| > 1
    requires forall h :: h in l ==> h in l' && l'[h] == l[h]
    requires Unlinked(c', l') == Unlinked(c, l) - Elements(p)
    ensures NoLoneBoundary(c', l') <==> NoLoneBoundary(c, l)
  {
    hide Turns, Unlinked, BoundaryOf;
    if NoLoneBoundary(c, l) {
      NoLoneBoundaryKept(c, l, c', l', a, p);
    } else {
      var h :| h in Unlinked(c, l) && Turns(c, l, h, h);
      LoneBoundaryKept(c, l, c', l', a, p, h);
    }
  }
}
