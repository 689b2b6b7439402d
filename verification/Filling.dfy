/** What one step of the hole-filling loop of `cap_hole` does to the mesh and to the
    perimeter, on values. */
module Filling {
  import opened Prelude
  import opened HalfEdges
  import opened Boundary

  ghost predicate Extends(c: Corners, c': Corners) {
    forall h :: h in c ==> h in c' && c'[h] == c[h]
  }

  ghost predicate KeepsLinks(l: Links, l': Links) {
    forall h :: h in l ==> h in l' && l'[h] == l[h]
  }

  /** The mesh after the triangle over the consecutive half-edges `a` and `b` is added. */
  ghost function FilledCorners(c: Corners, p: nat, a: HalfEdge, b: HalfEdge): Corners
    requires a in c && Next(a) in c && Next(b) in c
  {
    WithPoly(c, p, Start(c, a), End(c, b), End(c, a))
  }

  ghost function FilledLinks(l: Links, p: nat, a: HalfEdge, b: HalfEdge): Links {
    Linked(Linked(l, a, HalfEdge(p, 2)), b, HalfEdge(p, 1))
  }

  lemma LinkedOk(c: Corners, l: Links, a: HalfEdge, b: HalfEdge)
    requires LinksOk(c, l) && a !in l && b !in l && a != b
    requires a in c && Next(a) in c && b in c && Next(b) in c
    requires Start(c, b) == End(c, a) && End(c, b) == Start(c, a)
    ensures LinksOk(c, Linked(l, a, b)) && Unlinked(c, Linked(l, a, b)) == Unlinked(c, l) - {a, b}
    ensures KeepsLinks(l, Linked(l, a, b))
  {
    var l' := Linked(l, a, b);
    forall h | h in l' ensures LinkOk(c, l', h) {
      if h != a && h != b {
        assert LinkOk(c, l, h);
        assert l[h] != a && l[h] != b;
      }
    }
  }

  lemma ExtendLinksOk(c: Corners, c': Corners, l: Links)
    requires LinksOk(c, l) && Extends(c, c')
    ensures LinksOk(c', l)
  {
    forall h | h in l ensures LinkOk(c', l, h) {
      assert LinkOk(c, l, h);
    }
  }

  lemma WithPolyExtends(c: Corners, p: nat, v0: Vert, v1: Vert, v2: Vert)
    requires Whole(c) && p !in Polys(c)
    ensures var c' := WithPoly(c, p, v0, v1, v2);
            && Extends(c, c') && c'.Keys == c.Keys + Edges(p)
            && c'[HalfEdge(p, 0)] == v0 && c'[HalfEdge(p, 1)] == v1 && c'[HalfEdge(p, 2)] == v2
    ensures Edges(p) !! c.Keys
    ensures Polys(WithPoly(c, p, v0, v1, v2)) == Polys(c) + {p}
    ensures |Polys(WithPoly(c, p, v0, v1, v2))| == |Polys(c)| + 1
  {
    WithPolyWhole(c, p, v0, v1, v2);
    var c' := WithPoly(c, p, v0, v1, v2);
    forall q ensures q in Polys(c') <==> q in Polys(c) || q == p {
      if q in Polys(c) {
        var h :| h in c && h.poly == q;
        assert h in c';
      } else if q == p {
        assert HalfEdge(p, 0) in c';
      }
    }
  }

  /** Adding the triangle and making its two links keeps links valid; of its half-edges
      only the new perimeter half-edge stays unlinked. */
  lemma TriangleFills(c: Corners, l: Links, p: nat, a: HalfEdge, b: HalfEdge)
    requires Whole(c) && LinksOk(c, l) && p !in Polys(c)
    requires a in c && a !in l && b in c && b !in l && a != b
    requires Next(a) in c && Next(b) in c && Adjacent(c, a, b)
    ensures var c', l', e := FilledCorners(c, p, a, b), FilledLinks(l, p, a, b), HalfEdge(p, 0);
            && LinksOk(c', l') && Extends(c, c') && KeepsLinks(l, l')
            && Unlinked(c', l') == Unlinked(c, l) - {a, b} + {e}
            && e !in c && e in c' && Next(e) in c'
            && Start(c', e) == Start(c, a) && End(c', e) == End(c, b)
            && |Polys(c')| == |Polys(c)| + 1
  {
    hide WithPoly, LinksOk, Polys, Linked, Whole, Unlinked;
    var c' := FilledCorners(c, p, a, b);
    var e0, e1, e2 := HalfEdge(p, 0), HalfEdge(p, 1), HalfEdge(p, 2);
    WithPolyExtends(c, p, Start(c, a), End(c, b), End(c, a));
    ExtendLinksOk(c, c', l);
    LinkKeys(c, l, Edges(p));
    LinkedOk(c', l, a, e2);
    LinkedKeys(l, a, e2);
    LinkedOk(c', Linked(l, a, e2), b, e1);
    UnlinkedExtended(c, c', l, p);
    TriangleLeft(Unlinked(c, l), a, b, p);
  }

  lemma TriangleLeft(u: set<HalfEdge>, a: HalfEdge, b: HalfEdge, p: nat)
    requires Edges(p) !! u && a !in Edges(p) && b !in Edges(p)
    ensures u + Edges(p) - {a, HalfEdge(p, 2)} - {b, HalfEdge(p, 1)} == u - {a, b} + {HalfEdge(p, 0)}
  {
  }

  lemma LinkKeys(c: Corners, l: Links, s: set<HalfEdge>)
    requires LinksOk(c, l) && s !! c.Keys
    ensures s !! l.Keys
  {
    forall h | h in l ensures h !in s { assert LinkOk(c, l, h); }
  }

  lemma LinkedKeys(l: Links, a: HalfEdge, b: HalfEdge)
    ensures Linked(l, a, b).Keys == l.Keys + {a, b}
  {
  }

  lemma UnlinkedExtended(c: Corners, c': Corners, l: Links, p: nat)
    requires c'.Keys == c.Keys + Edges(p) && Edges(p) !! l.Keys
    ensures Unlinked(c', l) == Unlinked(c, l) + Edges(p) && Unlinked(c, l) <= c.Keys
  {
  }

  // ---- the perimeter -----------------------------------------------------------------

  lemma ShortenedElements<T>(p: seq<T>, i: nat, e: T)
    requires i < |p| && 2 <= |p| && Distinct(p) && e !in p
    ensures Distinct(Shortened(p, i, e)) && |Shortened(p, i, e)| == |p| - 1
    ensures Elements(Shortened(p, i, e)) == Elements(p) - {p[i], p[CyclicNext(i, |p|)]} + {e}
  {
    var j, s := CyclicNext(i, |p|), Shortened(p, i, e);
    if i + 1 < |p| {
      assert p == p[..i] + [p[i], p[j]] + p[i + 2..];
    } else {
      assert p == [p[0]] + p[1..i] + [p[i]];
    }
  }

  lemma ShortenedIndex<T>(p: seq<T>, i: nat, e: T, k: nat)
    requires i < |p| && 2 <= |p| && k < |p| - 1
    ensures |Shortened(p, i, e)| == |p| - 1
    ensures Shortened(p, i, e)[k] ==
            if i + 1 < |p| then (if k < i then p[k] else if k == i then e else p[k + 1])
            else (if k < i - 1 then p[k + 1] else e)
  {
  }

  /** The shortened perimeter is again a closed vertex cycle. */
  lemma ShortenedCloses(c: Corners, c': Corners, p: seq<HalfEdge>, i: nat, e: HalfEdge)
    requires ClosedCycle(c, p) && i < |p| && 3 <= |p| && Extends(c, c')
    requires var a, b := p[i], p[CyclicNext(i, |p|)];
             && a in c && Next(b) in c && e in c' && Next(e) in c'
             && Start(c', e) == Start(c, a) && End(c', e) == End(c, b)
    ensures ClosedCycle(c', Shortened(p, i, e))
  {
    var s, n := Shortened(p, i, e), |p|;
    forall k | 0 <= k < |s| - 1 ensures Adjacent(c', s[k], s[k + 1]) {
      if i + 1 < n {
        if k + 1 <= i { assert Adjacent(c, p[k], p[k + 1]); }
        else { assert Adjacent(c, p[k + 1], p[k + 2]); }
      } else {
        assert Adjacent(c, p[k + 1], p[k + 2]);
      }
    }
    if i + 1 < n {
      if i + 2 == n {
        assert Adjacent(c, p[n - 1], p[0]);
        assert s[|s| - 1] == e && s[0] == p[0];
      } else {
        assert s[|s| - 1] == p[n - 1];
        assert Adjacent(c, p[n - 1], p[0]);
      }
    } else {
      assert s[|s| - 1] == e && s[0] == p[1];
      assert Adjacent(c, p[0], p[1]);
    }
  }

  /** Invariant of the filling loop: `c0`, `l0`, `p0` are the mesh and the boundary before
      it, `c`, `l`, `p` the mesh and the perimeter now. */
  ghost predicate Fills(c0: Corners, l0: Links, p0: seq<HalfEdge>, c: Corners, l: Links, p: seq<HalfEdge>,
                        created: int) {
    && Extends(c0, c) && KeepsLinks(l0, l)
    && Unlinked(c, l) == Unlinked(c0, l0) - Elements(p0) + Elements(p)
    && Elements(p) !! Unlinked(c0, l0) - Elements(p0)
    && |Polys(c)| == |Polys(c0)| + created
    && created + |p| == |p0|
    && Distinct(p) && ClosedCycle(c, p) && Elements(p) <= Unlinked(c, l)
    && |p| >= 2
  }

  lemma ExtendsTrans(c0: Corners, l0: Links, c: Corners, l: Links, c': Corners, l': Links)
    requires Extends(c0, c) && Extends(c, c') && KeepsLinks(l0, l) && KeepsLinks(l, l')
    ensures Extends(c0, c') && KeepsLinks(l0, l')
  {
  }

  lemma NewOutside(c0: Corners, l0: Links, c: Corners, l: Links, p: seq<HalfEdge>, e: HalfEdge)
    requires Extends(c0, c) && e !in c && Elements(p) <= Unlinked(c, l)
    ensures e !in Unlinked(c0, l0) && e !in p
  {
    assert e in p ==> e in Elements(p);
  }

  lemma PerimeterSets(u0: set<HalfEdge>, e0: set<HalfEdge>, ep: set<HalfEdge>, a: HalfEdge, b: HalfEdge, e: HalfEdge)
    requires ep !! u0 - e0 && a in ep && b in ep && e !in u0
    ensures u0 - e0 + ep - {a, b} + {e} == u0 - e0 + (ep - {a, b} + {e})
    ensures ep - {a, b} + {e} !! u0 - e0
  {
  }

  lemma FillStep(c0: Corners, l0: Links, p0: seq<HalfEdge>, c: Corners, l: Links, p: seq<HalfEdge>, created: int,
                 i: nat, t: nat)
    requires Whole(c) && LinksOk(c, l) && t !in Polys(c)
    requires Fills(c0, l0, p0, c, l, p, created) && i < |p| && 3 <= |p|
    ensures var a, b, e := p[i], p[CyclicNext(i, |p|)], HalfEdge(t, 0);
            && a in c && a !in l && b in c && b !in l && a != b
            && Next(a) in c && Next(b) in c && Adjacent(c, a, b) && e !in p
            && var c', l', p' := FilledCorners(c, t, a, b), FilledLinks(l, t, a, b), Shortened(p, i, e);
               && LinksOk(c', l')
               && Fills(c0, l0, p0, c', l', p', created + 1)
               && ClosedCycle(c', p') && Distinct(p') && |p'| == |p| - 1
  {
    hide FilledCorners, FilledLinks, LinksOk, ClosedCycle, Unlinked, Shortened, Polys, Whole, Adjacent, Extends,
      KeepsLinks, Elements;
    var a, b, e := p[i], p[CyclicNext(i, |p|)], HalfEdge(t, 0);
    PerimeterAt(c, l, p, i);
    PerimeterAt(c, l, p, CyclicNext(i, |p|));
    var c', l' := FilledCorners(c, t, a, b), FilledLinks(l, t, a, b);
    TriangleFills(c, l, t, a, b);
    NewOutside(c0, l0, c, l, p, e);
    ExtendsTrans(c0, l0, c, l, c', l');
    ShortenedElements(p, i, e);
    ShortenedCloses(c, c', p, i, e);
    PerimeterSets(Unlinked(c0, l0), Elements(p0), Elements(p), a, b, e);
  }

  lemma FillsAt(c0: Corners, l0: Links, p0: seq<HalfEdge>, c: Corners, l: Links, p: seq<HalfEdge>, created: int, i: nat)
    requires Whole(c) && Fills(c0, l0, p0, c, l, p, created) && i < |p|
    ensures Distinct(p) && ClosedCycle(c, p) && |p| >= 2
    ensures var b := p[CyclicNext(i, |p|)];
            && p[i] in c && p[i] !in l && Next(p[i]) in c && b in c && b !in l && Next(b) in c
            && Adjacent(c, p[i], b) && p[i] != b
  {
    PerimeterAt(c, l, p, i);
    PerimeterAt(c, l, p, CyclicNext(i, |p|));
  }

  lemma PerimeterAt(c: Corners, l: Links, p: seq<HalfEdge>, i: nat)
    requires Whole(c) && Elements(p) <= Unlinked(c, l) && ClosedCycle(c, p) && i < |p|
    requires Distinct(p) && |p| >= 2
    ensures var b := p[CyclicNext(i, |p|)];
            && p[i] in c && p[i] !in l && Next(p[i]) in c
            && Adjacent(c, p[i], b) && p[i] != b && p[i] in Elements(p)
  {
    assert p[i] in Elements(p);
    WholeNext(c, p[i]);
  }

  lemma FillStart(c: Corners, l: Links, a: HalfEdge, p: seq<HalfEdge>)
    requires Whole(c) && LinksOk(c, l) && BoundaryOf(c, l, a, p) && |p| != 1
    ensures |p| >= 2 && Fills(c, l, p, c, l, p, 0)
  {
    BoundaryIsClosed(c, l, a, p);
    hide Walk, ClosedCycle, LinksOk, Whole;
  }

  /** Linking the last two perimeter half-edges leaves nothing of the boundary open. */
  lemma FillEnd(c0: Corners, l0: Links, p0: seq<HalfEdge>, c: Corners, l: Links, p: seq<HalfEdge>, created: int)
    requires Whole(c) && LinksOk(c, l) && Fills(c0, l0, p0, c, l, p, created) && |p| == 2
    ensures p[0] in c && p[1] in c && p[0] !in l && p[1] !in l && p[0] != p[1]
    ensures var l' := Linked(l, p[0], p[1]);
            && LinksOk(c, l') && Extends(c0, c) && KeepsLinks(l0, l')
            && Unlinked(c, l') == Unlinked(c0, l0) - Elements(p0)
            && |Polys(c)| == |Polys(c0)| + created && created == |p0| - 2
  {
    PerimeterAt(c, l, p, 0);
    PerimeterAt(c, l, p, 1);
    assert Elements(p) == {p[0], p[1]};
    hide ClosedCycle, LinksOk, Whole, Unlinked, Extends, KeepsLinks, Linked, Polys;
    LinkedOk(c, l, p[0], p[1]);
    ExtendsTrans(c0, l0, c, l, c, Linked(l, p[0], p[1])) by { ExtendsSelf(c); }
  }

  lemma ExtendsSelf(c: Corners)
    ensures Extends(c, c)
  {
  }
}
