/** `split_edge` and `cut_poly`: subdivide an edge or a triangle at an existing vertex,
    moving the links of the half-edges that change their place to the new half-edges. */
module Subdivision {
  import opened Prelude
  import opened HalfEdges
  import opened Filling

  /** The end points of half-edges, start first. */
  type Ends = map<HalfEdge, (Vert, Vert)>

  function EndsOf(c: Corners): (e: Ends)
    requires Whole(c)
    ensures e.Keys == c.Keys
  {
    map h | h in c ::
      WholeNext(c, h);
      (Start(c, h), End(c, h))
  }

  function Flip(e: (Vert, Vert)): (Vert, Vert) {
    (e.1, e.0)
  }

  /** Links are mutual, irreflexive and reverse the end points given by `e`. */
  ghost predicate Reversing(e: Ends, l: Links) {
    forall h :: h in l ==> ReversingAt(e, l, h)
  }

  ghost predicate ReversingAt(e: Ends, l: Links, h: HalfEdge)
    requires h in l
  {
    h in e && l[h] in e && l[h] in l && l[l[h]] == h && l[h] != h && e[l[h]] == Flip(e[h])
  }

  lemma LinksOkReversing(c: Corners, l: Links)
    requires Whole(c)
    ensures LinksOk(c, l) <==> Reversing(EndsOf(c), l)
  {
    var e := EndsOf(c);
    if LinksOk(c, l) {
      forall h | h in l ensures ReversingAt(e, l, h) {
        LinkReversed(c, l, h);
        assert LinkOk(c, l, h);
      }
    }
    if Reversing(e, l) {
      forall h | h in l ensures LinkOk(c, l, h) {
        assert ReversingAt(e, l, h);
        WholeNext(c, h);
      }
    }
  }

  /** The link of `from`, if there is one, moved to `to`. */
  function MoveLink(l: Links, from: HalfEdge, to: HalfEdge): Links {
    if from in l then Linked(UnlinkedAt(l, from), to, l[from]) else l
  }

  function At(r: map<HalfEdge, HalfEdge>, h: HalfEdge): HalfEdge {
    if h in r then r[h] else h
  }

  /** `l'` is `l` with every half-edge renamed by `r`, plus links among `inner`. */
  ghost predicate Renamed(l: Links, l': Links, r: map<HalfEdge, HalfEdge>, inner: set<HalfEdge>) {
    && (forall h :: h in l ==> RenamedAt(l, l', r, h))
    && (forall g :: g in l' && g !in inner ==> FromLink(l, r, g))
    && (forall g :: g in inner ==> InnerAt(l', inner, g))
  }

  ghost predicate InnerAt(l: Links, inner: set<HalfEdge>, g: HalfEdge) {
    g in l && l[g] in inner
  }

  ghost predicate RenamedAt(l: Links, l': Links, r: map<HalfEdge, HalfEdge>, h: HalfEdge)
    requires h in l
  {
    At(r, h) in l' && l'[At(r, h)] == At(r, l[h])
  }

  ghost predicate FromLink(l: Links, r: map<HalfEdge, HalfEdge>, g: HalfEdge) {
    exists h :: h in l && g == At(r, h)
  }

  /** Moving a link to a half-edge with the same end points keeps links reversing; the
      partner now points to `to`, `from` is free, every other link stays. */
  lemma MoveLinkOk(e: Ends, l: Links, from: HalfEdge, to: HalfEdge)
    requires Reversing(e, l) && to !in l && from != to
    requires from in e && to in e && e[to] == e[from]
    ensures Reversing(e, MoveLink(l, from, to)) && from !in MoveLink(l, from, to)
    ensures to in MoveLink(l, from, to) <==> from in l
    ensures forall h :: h != from && h != to ==> (h in MoveLink(l, from, to) <==> h in l)
  {
    var l' := MoveLink(l, from, to);
    if from in l {
      assert ReversingAt(e, l, from);
      forall h | h in l' ensures ReversingAt(e, l', h) {
        if h != to && h != l[from] {
          assert ReversingAt(e, l, h);
        }
      }
    }
  }

  lemma LinkReversing(e: Ends, l: Links, a: HalfEdge, b: HalfEdge)
    requires Reversing(e, l) && a !in l && b !in l && a != b && a in e && b in e && e[b] == Flip(e[a])
    ensures Reversing(e, Linked(l, a, b)) && Linked(l, a, b).Keys == l.Keys + {a, b}
  {
    var l' := Linked(l, a, b);
    forall h | h in l' ensures ReversingAt(e, l', h) {
      if h != a && h != b {
        assert ReversingAt(e, l, h);
      }
    }
  }

  /** Only the end points of linked half-edges matter. */
  lemma ReversingSame(e: Ends, e': Ends, l: Links)
    requires Reversing(e, l) && forall h :: h in l && h in e ==> h in e' && e'[h] == e[h]
    ensures Reversing(e', l)
  {
    forall h | h in l ensures ReversingAt(e', l, h) {
      assert ReversingAt(e, l, h);
    }
  }

  lemma RenamedNone(e: Ends, l: Links)
    requires Reversing(e, l)
    ensures Renamed(l, l, map[], {})
  {
    var none: map<HalfEdge, HalfEdge> := map[];
    forall g | g in l ensures FromLink(l, none, g) {
      assert g == At(none, g);
    }
  }

  /** `MoveLink` renames `from` to `to` on both sides of the table. */
  lemma MoveLinkAt(e: Ends, l: Links, from: HalfEdge, to: HalfEdge, h: HalfEdge)
    requires Reversing(e, l) && to !in l && to != from && h in l
    ensures var l', r := MoveLink(l, from, to), map[from := to];
            At(r, h) in l' && l'[At(r, h)] == At(r, l[h])
  {
    assert ReversingAt(e, l, h);
    if from in l {
      assert ReversingAt(e, l, from);
    }
  }

  lemma MoveLinkKeys(e: Ends, l: Links, from: HalfEdge, to: HalfEdge)
    requires Reversing(e, l) && to !in l && to != from
    ensures MoveLink(l, from, to).Keys == if from in l then l.Keys - {from} + {to} else l.Keys
  {
    if from in l {
      assert ReversingAt(e, l, from);
    }
  }

  lemma AtAt(r: map<HalfEdge, HalfEdge>, from: HalfEdge, to: HalfEdge, h: HalfEdge)
    requires from !in r && from !in r.Values
    ensures At(map[from := to], At(r, h)) == At(r[from := to], h)
  {
    assert h in r ==> r[h] in r.Values;
  }

  lemma RenamedMove(e: Ends, l: Links, l': Links, r: map<HalfEdge, HalfEdge>, inner: set<HalfEdge>, from: HalfEdge,
                    to: HalfEdge)
    requires Reversing(e, l') && Renamed(l, l', r, inner)
    requires from !in inner && from !in r && from !in r.Values && to !in l' && to != from
    ensures Renamed(l, MoveLink(l', from, to), r[from := to], inner)
  {
    hide MoveLink, At, Reversing, FromLink, RenamedAt, InnerAt;
    var l2, r2 := MoveLink(l', from, to), r[from := to];
    MoveLinkKeys(e, l', from, to);
    forall h | h in l ensures RenamedAt(l, l2, r2, h) {
      RenamedAtMove(e, l, l', r, from, to, h);
    }
    forall g | g in inner ensures InnerAt(l2, inner, g) {
      InnerAtMove(e, l', inner, from, to, g);
    }
    forall g | g in l2 && g !in inner ensures FromLink(l, r2, g) {
      FromLinkMove(l, l', r, inner, from, to, g);
    }
  }

  lemma RenamedAtMove(e: Ends, l: Links, l': Links, r: map<HalfEdge, HalfEdge>, from: HalfEdge, to: HalfEdge,
                      h: HalfEdge)
    requires Reversing(e, l') && h in l && RenamedAt(l, l', r, h)
    requires from !in r && from !in r.Values && to !in l' && to != from
    ensures RenamedAt(l, MoveLink(l', from, to), r[from := to], h)
  {
    hide MoveLink, Reversing, At;
    MoveLinkAt(e, l', from, to, At(r, h));
    AtAt(r, from, to, h);
    AtAt(r, from, to, l[h]);
  }

  lemma InnerAtMove(e: Ends, l: Links, inner: set<HalfEdge>, from: HalfEdge, to: HalfEdge, g: HalfEdge)
    requires Reversing(e, l) && InnerAt(l, inner, g) && g in inner && from !in inner && to !in l && to != from
    ensures InnerAt(MoveLink(l, from, to), inner, g)
  {
    hide MoveLink, Reversing;
    MoveLinkAt(e, l, from, to, g);
  }

  lemma FromLinkMove(l: Links, l': Links, r: map<HalfEdge, HalfEdge>, inner: set<HalfEdge>, from: HalfEdge,
                     to: HalfEdge, g: HalfEdge)
    requires Renamed(l, l', r, inner) && from !in inner && from !in r && from !in r.Values && to !in l'
    requires g !in inner && g in if from in l' then l'.Keys - {from} + {to} else l'.Keys
    ensures FromLink(l, r[from := to], g)
  {
    hide RenamedAt;
    var g' := if g == to then from else g;
    assert FromLink(l, r, g');
    var h :| h in l && g' == At(r, h);
    assert g == At(r[from := to], h);
  }

  lemma RenamedLink(l: Links, l': Links, r: map<HalfEdge, HalfEdge>, inner: set<HalfEdge>, a: HalfEdge, b: HalfEdge)
    requires Renamed(l, l', r, inner) && a !in l' && b !in l' && a != b
    ensures Renamed(l, Linked(l', a, b), r, inner + {a, b})
  {
    hide FromLink;
    var l2 := Linked(l', a, b);
    forall h | h in l ensures RenamedAt(l, l2, r, h) {
      assert RenamedAt(l, l', r, h);
    }
  }

  // ---- cut_poly ----------------------------------------------------------------------

  /** The corners after `cut_poly`: the old triangle keeps a and b and gets p, two new ones
      are (b, c, p) and (c, a, p). */
  ghost function CutCorners(c: Corners, abc: nat, bcp: nat, cap: nat, p: Vert): Corners
    requires Edges(abc) <= c.Keys
  {
    var v0, v1, v2 := c[HalfEdge(abc, 0)], c[HalfEdge(abc, 1)], c[HalfEdge(abc, 2)];
    WithPoly(WithPoly(c[HalfEdge(abc, 2) := p], bcp, v1, v2, p), cap, v2, v0, p)
  }

  lemma EndsPoly(c: Corners, p: nat, v0: Vert, v1: Vert, v2: Vert)
    requires Whole(c) && Edges(p) !! c.Keys
    ensures var c' := WithPoly(c, p, v0, v1, v2);
            && Whole(c') && c'.Keys == c.Keys + Edges(p)
            && var e, f := EndsOf(c), EndsOf(c');
               && (forall h :: h in c ==> f[h] == e[h])
               && f[HalfEdge(p, 0)] == (v0, v1) && f[HalfEdge(p, 1)] == (v1, v2) && f[HalfEdge(p, 2)] == (v2, v0)
  {
    hide Whole, WithPoly, EndsOf;
    var c' := WithPoly(c, p, v0, v1, v2);
    PolyAdded(c, p, v0, v1, v2);
    forall h | h in c ensures EndsOf(c')[h] == EndsOf(c)[h] {
      EndsAt(c, h);
      EndsAt(c', h);
    }
    EndsAt(c', HalfEdge(p, 0)); EndsAt(c', HalfEdge(p, 1)); EndsAt(c', HalfEdge(p, 2));
  }

  lemma EndsAt(c: Corners, h: HalfEdge)
    requires Whole(c) && h in c
    ensures Next(h) in c && EndsOf(c)[h] == (c[h], c[Next(h)])
  {
    WholeNext(c, h);
  }

  lemma PolyAdded(c: Corners, p: nat, v0: Vert, v1: Vert, v2: Vert)
    requires Whole(c) && Edges(p) !! c.Keys
    ensures var c' := WithPoly(c, p, v0, v1, v2);
            && Whole(c') && c'.Keys == c.Keys + Edges(p) && Extends(c, c')
            && c'[HalfEdge(p, 0)] == v0 && c'[HalfEdge(p, 1)] == v1 && c'[HalfEdge(p, 2)] == v2
  {
  }

  lemma EndsCorner(c: Corners, h: HalfEdge, v: Vert)
    requires Whole(c) && h in c
    ensures Prev(h) in c && Whole(c[h := v])
    ensures var e, f := EndsOf(c), EndsOf(c[h := v]);
            && (forall g :: g in c && g != h && g != Prev(h) ==> f[g] == e[g])
            && f[h] == (v, e[h].1) && f[Prev(h)] == (e[Prev(h)].0, v)
  {
    hide Whole;
    WholeNext(c, h);
    NextPrev(h);
    CornerMoved(c, h, v);
    forall g | g in c && g != h && g != Prev(h) ensures EndsOf(c[h := v])[g] == EndsOf(c)[g] {
      WholeNext(c, g);
      NextPrev(g);
    }
  }

  lemma CornerMoved(c: Corners, h: HalfEdge, v: Vert)
    requires Whole(c) && h in c
    ensures Whole(c[h := v])
  {
  }

  lemma CutEnds(c: Corners, abc: nat, bcp: nat, cap: nat, p: Vert)
    requires Whole(c) && Edges(abc) <= c.Keys && Edges(bcp) !! c.Keys && Edges(cap) !! c.Keys && bcp != cap
    ensures Whole(CutCorners(c, abc, bcp, cap, p))
    ensures var e, f := EndsOf(c), EndsOf(CutCorners(c, abc, bcp, cap, p));
            var v0, v1, v2 := c[HalfEdge(abc, 0)], c[HalfEdge(abc, 1)], c[HalfEdge(abc, 2)];
            && f.Keys == c.Keys + Edges(bcp) + Edges(cap) && e.Keys == c.Keys
            && (forall h :: h in c && h != HalfEdge(abc, 1) && h != HalfEdge(abc, 2) ==> f[h] == e[h])
            && e[HalfEdge(abc, 1)] == (v1, v2) && e[HalfEdge(abc, 2)] == (v2, v0)
            && f[HalfEdge(abc, 1)] == (v1, p) && f[HalfEdge(abc, 2)] == (p, v0)
            && f[HalfEdge(bcp, 0)] == (v1, v2) && f[HalfEdge(bcp, 1)] == (v2, p) && f[HalfEdge(bcp, 2)] == (p, v1)
            && f[HalfEdge(cap, 0)] == (v2, v0) && f[HalfEdge(cap, 1)] == (v0, p) && f[HalfEdge(cap, 2)] == (p, v2)
  {
    hide Whole, WithPoly, EndsOf;
    var v0, v1, v2 := c[HalfEdge(abc, 0)], c[HalfEdge(abc, 1)], c[HalfEdge(abc, 2)];
    var c1 := c[HalfEdge(abc, 2) := p];
    OldEnds(c, abc);
    EndsCorner(c, HalfEdge(abc, 2), p);
    EndsPoly(c1, bcp, v1, v2, p);
    EndsPoly(WithPoly(c1, bcp, v1, v2, p), cap, v2, v0, p);
  }

  lemma OldEnds(c: Corners, abc: nat)
    requires Whole(c) && Edges(abc) <= c.Keys
    ensures var e, v0, v1, v2 := EndsOf(c), c[HalfEdge(abc, 0)], c[HalfEdge(abc, 1)], c[HalfEdge(abc, 2)];
            && e.Keys == c.Keys
            && e[HalfEdge(abc, 0)] == (v0, v1) && e[HalfEdge(abc, 1)] == (v1, v2) && e[HalfEdge(abc, 2)] == (v2, v0)
  {
  }

  ghost function CutMoved(l: Links, abc: nat, bcp: nat, cap: nat): Links {
    MoveLink(MoveLink(l, HalfEdge(abc, 1), HalfEdge(bcp, 0)), HalfEdge(abc, 2), HalfEdge(cap, 0))
  }

  ghost function CutLinks(l: Links, abc: nat, bcp: nat, cap: nat): Links {
    Linked(Linked(Linked(CutMoved(l, abc, bcp, cap), HalfEdge(abc, 1), HalfEdge(bcp, 2)),
                  HalfEdge(bcp, 1), HalfEdge(cap, 2)), HalfEdge(cap, 1), HalfEdge(abc, 2))
  }

  /** The outer links of the two half-edges that changed place. */
  ghost function CutRename(abc: nat, bcp: nat, cap: nat): map<HalfEdge, HalfEdge> {
    map[HalfEdge(abc, 1) := HalfEdge(bcp, 0), HalfEdge(abc, 2) := HalfEdge(cap, 0)]
  }

  /** The six half-edges that meet in p. */
  ghost function CutInner(abc: nat, bcp: nat, cap: nat): set<HalfEdge> {
    {HalfEdge(abc, 1), HalfEdge(bcp, 2), HalfEdge(bcp, 1), HalfEdge(cap, 2), HalfEdge(cap, 1), HalfEdge(abc, 2)}
  }

  /** The two moves, seen with the end points the half-edges had before. */
  lemma CutMoves(e: Ends, l: Links, abc: nat, bcp: nat, cap: nat)
    requires Reversing(e, l) && abc != bcp && abc != cap && bcp != cap
    requires Edges(abc) + Edges(bcp) + Edges(cap) <= e.Keys && (Edges(bcp) + Edges(cap)) !! l.Keys
    requires e[HalfEdge(bcp, 0)] == e[HalfEdge(abc, 1)] && e[HalfEdge(cap, 0)] == e[HalfEdge(abc, 2)]
    ensures var l1, l2 := MoveLink(l, HalfEdge(abc, 1), HalfEdge(bcp, 0)), CutMoved(l, abc, bcp, cap);
            && Reversing(e, l1) && Reversing(e, l2) && HalfEdge(cap, 0) !in l1
            && CutInner(abc, bcp, cap) !! l2.Keys
            && Renamed(l, l2, CutRename(abc, bcp, cap), {})
  {
    hide MoveLink, Reversing, Renamed;
    var e1, n1, e2, n2 := HalfEdge(abc, 1), HalfEdge(bcp, 0), HalfEdge(abc, 2), HalfEdge(cap, 0);
    MoveLinkOk(e, l, e1, n1);
    MoveLinkOk(e, MoveLink(l, e1, n1), e2, n2);
    RenamedNone(e, l);
    RenamedMove(e, l, l, map[], {}, e1, n1);
    RenamedMove(e, l, MoveLink(l, e1, n1), map[e1 := n1], {}, e2, n2);
    assert CutRename(abc, bcp, cap) == map[e1 := n1][e2 := n2];
  }

  /** The three inner links, seen with the new end points. */
  lemma CutInnerLinks(f: Ends, l: Links, l2: Links, abc: nat, bcp: nat, cap: nat)
    requires Reversing(f, l2) && CutInner(abc, bcp, cap) !! l2.Keys && CutInner(abc, bcp, cap) <= f.Keys
    requires abc != bcp && abc != cap && bcp != cap
    requires f[HalfEdge(bcp, 2)] == Flip(f[HalfEdge(abc, 1)]) && f[HalfEdge(cap, 2)] == Flip(f[HalfEdge(bcp, 1)])
    requires f[HalfEdge(abc, 2)] == Flip(f[HalfEdge(cap, 1)])
    requires Renamed(l, l2, CutRename(abc, bcp, cap), {})
    ensures var l3 := Linked(l2, HalfEdge(abc, 1), HalfEdge(bcp, 2));
            var l4 := Linked(l3, HalfEdge(bcp, 1), HalfEdge(cap, 2));
            var l5 := Linked(l4, HalfEdge(cap, 1), HalfEdge(abc, 2));
            && HalfEdge(bcp, 1) !in l3 && HalfEdge(cap, 2) !in l3 && HalfEdge(cap, 1) !in l4 && HalfEdge(abc, 2) !in l4
            && Reversing(f, l5) && Renamed(l, l5, CutRename(abc, bcp, cap), CutInner(abc, bcp, cap))
  {
    hide Reversing, Renamed, Linked, CutRename;
    var l3 := Linked(l2, HalfEdge(abc, 1), HalfEdge(bcp, 2));
    var l4 := Linked(l3, HalfEdge(bcp, 1), HalfEdge(cap, 2));
    LinkReversing(f, l2, HalfEdge(abc, 1), HalfEdge(bcp, 2));
    LinkReversing(f, l3, HalfEdge(bcp, 1), HalfEdge(cap, 2));
    LinkReversing(f, l4, HalfEdge(cap, 1), HalfEdge(abc, 2));
    var r := CutRename(abc, bcp, cap);
    RenamedLink(l, l2, r, {}, HalfEdge(abc, 1), HalfEdge(bcp, 2));
    RenamedLink(l, l3, r, {} + {HalfEdge(abc, 1), HalfEdge(bcp, 2)}, HalfEdge(bcp, 1), HalfEdge(cap, 2));
    RenamedLink(l, l4, r, {} + {HalfEdge(abc, 1), HalfEdge(bcp, 2)} + {HalfEdge(bcp, 1), HalfEdge(cap, 2)},
                HalfEdge(cap, 1), HalfEdge(abc, 2));
    assert CutInner(abc, bcp, cap) == {} + {HalfEdge(abc, 1), HalfEdge(bcp, 2)} + {HalfEdge(bcp, 1), HalfEdge(cap, 2)}
                                      + {HalfEdge(cap, 1), HalfEdge(abc, 2)};
  }

  lemma CutPolyOk(c: Corners, l: Links, abc: nat, bcp: nat, cap: nat, p: Vert)
    requires Whole(c) && LinksOk(c, l) && Edges(abc) <= c.Keys
    requires Edges(bcp) !! c.Keys && Edges(cap) !! c.Keys && bcp != cap
    ensures abc != bcp && abc != cap
    ensures var c', l1, l2 := CutCorners(c, abc, bcp, cap, p), MoveLink(l, HalfEdge(abc, 1), HalfEdge(bcp, 0)),
            CutMoved(l, abc, bcp, cap);
            && c'.Keys == c.Keys + Edges(bcp) + Edges(cap) && Whole(c')
            && MoveFree(c', l, HalfEdge(abc, 1), HalfEdge(bcp, 0))
               && MoveFree(c', l1, HalfEdge(abc, 2), HalfEdge(cap, 0))
            && CutInner(abc, bcp, cap) !! l2.Keys
            && LinksOk(c', CutLinks(l, abc, bcp, cap))
            && Renamed(l, CutLinks(l, abc, bcp, cap), CutRename(abc, bcp, cap), CutInner(abc, bcp, cap))
  {
    hide Whole, LinksOk, Reversing, Renamed, MoveLink, CutMoved, CutCorners, Linked, MoveFree;
    var c', l2 := CutCorners(c, abc, bcp, cap, p), CutMoved(l, abc, bcp, cap);
    assert HalfEdge(abc, 0) in Edges(abc) && HalfEdge(bcp, 0) in Edges(bcp) && HalfEdge(cap, 0) in Edges(cap);
    CutEnds(c, abc, bcp, cap, p);
    var e, f := EndsOf(c), EndsOf(c');
    LinksOkReversing(c, l);
    LinkKeys(c, l, Edges(bcp) + Edges(cap));
    var g := f + e;
    ReversingSame(e, g, l);
    CutMoves(g, l, abc, bcp, cap);
    MoveFreeOk(c', g, l, HalfEdge(abc, 1), HalfEdge(bcp, 0));
    MoveFreeOk(c', g, MoveLink(l, HalfEdge(abc, 1), HalfEdge(bcp, 0)), HalfEdge(abc, 2), HalfEdge(cap, 0));
    ReversingSame(g, f, l2);
    CutInnerLinks(f, l, l2, abc, bcp, cap);
    LinksOkReversing(c', CutLinks(l, abc, bcp, cap));
  }

  /** The checks of `unlink()` and `link()` when the link of `from` moves to `to`. */
  ghost predicate MoveFree(c: Corners, l: Links, from: HalfEdge, to: HalfEdge) {
    && from in c && to in c && to !in l && to != from
    && (from in l ==> l[from] in l && l[l[from]] == from && l[from] in c && l[from] != to && l[from] != from)
  }

  lemma MoveFreeOk(c: Corners, e: Ends, l: Links, from: HalfEdge, to: HalfEdge)
    requires Reversing(e, l) && e.Keys <= c.Keys && from in e && to in e && to !in l && to != from
    ensures MoveFree(c, l, from, to)
  {
    if from in l {
      assert ReversingAt(e, l, from);
    }
  }

  /** `if(from.is_linked()) { other; from.unlink(); to.link(other) }` */
  method MoveLinkOf(m: Mesh, from: HalfEdge, to: HalfEdge)
    requires MoveFree(m.corner, m.link, from, to)
    modifies m`link
    ensures m.link == MoveLink(old(m.link), from, to)
  {
    if from in m.link {
      var other := m.link[from];
      m.Unlink(from);
      m.Link(to, other);
    }
  }

  /** `cut_poly`: the triangle `abc` is cut at the vertex `p` into three. Every old link is
      kept under the new place of its half-edge, the six half-edges at p are linked in
      pairs, and the vertex-to-corner links stay the inverse of the corners. */
  method CutPoly(m: Mesh, abc: nat, p: Vert) returns (bcp: nat, cap: nat)
    requires m.Valid() && HalfEdge(abc, 0) in m.corner && p in m.vertPolys
    modifies m
    ensures m.Valid() && Edges(abc) <= old(m.corner).Keys && bcp != cap
    ensures Edges(bcp) !! old(m.corner).Keys && Edges(cap) !! old(m.corner).Keys
    ensures m.corner == CutCorners(old(m.corner), abc, bcp, cap, p)
    ensures Renamed(old(m.link), m.link, CutRename(abc, bcp, cap), CutInner(abc, bcp, cap))
    ensures m.link == CutLinks(old(m.link), abc, bcp, cap)
  {
    hide Stored, Whole, LinksOk, Renamed, MoveLink, Linked, WithPoly, MoveFree, Polys, Edges, CutRename, CutInner;
    m.ValidParts();
    ghost var c, l := m.corner, m.link;
    PolyVerts(m.domain, c, l, m.vertPolys, abc);
    EdgesOf(c, abc);
    var a := m.corner[HalfEdge(abc, 0)];
    var b := m.corner[HalfEdge(abc, 1)];
    var v := m.corner[HalfEdge(abc, 2)];
    m.ChangeVert(HalfEdge(abc, 2), p);
    bcp := m.Add(b, v, p);
    cap := m.Add(v, a, p);
    TwoFresh(c, HalfEdge(abc, 2), p, bcp, cap, b, v, p);
    CutPolyOk(c, l, abc, bcp, cap, p);
    CutThere(m.corner, c, abc, bcp, cap);
    MoveLinkOf(m, HalfEdge(abc, 1), HalfEdge(bcp, 0));
    MoveLinkOf(m, HalfEdge(abc, 2), HalfEdge(cap, 0));
    CutFree(m.link, abc, bcp, cap);
    m.Link(HalfEdge(abc, 1), HalfEdge(bcp, 2));
    m.Link(HalfEdge(bcp, 1), HalfEdge(cap, 2));
    m.Link(HalfEdge(cap, 1), HalfEdge(abc, 2));
    StoredRelinked(m.domain, m.corner, l, m.link, m.vertPolys);
  }

  lemma EdgesOf(c: Corners, q: nat)
    requires Edges(q) <= c.Keys
    ensures HalfEdge(q, 0) in c && HalfEdge(q, 1) in c && HalfEdge(q, 2) in c
  {
  }

  lemma CutThere(c': Corners, c: Corners, abc: nat, bcp: nat, cap: nat)
    requires c'.Keys == c.Keys + Edges(bcp) + Edges(cap) && Edges(abc) <= c.Keys
    ensures CutInner(abc, bcp, cap) <= c'.Keys
    ensures HalfEdge(abc, 1) in c' && HalfEdge(abc, 2) in c' && HalfEdge(bcp, 1) in c' && HalfEdge(bcp, 2) in c'
    ensures HalfEdge(cap, 1) in c' && HalfEdge(cap, 2) in c'
  {
  }

  // The three inner links find their ends free.
  lemma CutFree(l: Links, abc: nat, bcp: nat, cap: nat)
    requires CutInner(abc, bcp, cap) !! l.Keys && abc != bcp && abc != cap && bcp != cap
    ensures HalfEdge(abc, 1) !in l && HalfEdge(bcp, 2) !in l
    ensures var l1 := Linked(l, HalfEdge(abc, 1), HalfEdge(bcp, 2));
            var l2 := Linked(l1, HalfEdge(bcp, 1), HalfEdge(cap, 2));
            && HalfEdge(bcp, 1) !in l1 && HalfEdge(cap, 2) !in l1 && HalfEdge(cap, 1) !in l2 && HalfEdge(abc, 2) !in l2
  {
  }

  lemma PolyVerts(domain: nat, c: Corners, l: Links, vp: VertPolys, q: nat)
    requires Stored(domain, c, l, vp) && HalfEdge(q, 0) in c
    ensures Edges(q) <= c.Keys
    ensures c[HalfEdge(q, 0)] in vp && c[HalfEdge(q, 1)] in vp && c[HalfEdge(q, 2)] in vp
  {
  }

  /** Two polygons added one after the other are both new, and different. */
  lemma TwoFresh(c: Corners, h: HalfEdge, v: Vert, q: nat, r: nat, v0: Vert, v1: Vert, v2: Vert)
    requires h in c && q !in Polys(c[h := v]) && r !in Polys(WithPoly(c[h := v], q, v0, v1, v2))
    ensures q != r && Edges(q) !! c.Keys && Edges(r) !! c.Keys
  {
    var c1 := c[h := v];
    var c2 := WithPoly(c1, q, v0, v1, v2);
    assert HalfEdge(q, 0) in c2;
    forall g | g in c ensures g.poly != q && g.poly != r {
      assert g in c1 && g in c2;
    }
  }

  // ---- split_edge --------------------------------------------------------------------

  /** The corners after one half of `split_edge`: the triangle of `h` gets `p` at the corner
      `at`, and the new triangle `q` takes the other side. */
  ghost function HalfSplit(c: Corners, at: HalfEdge, q: nat, p: Vert, v1: Vert, v2: Vert): Corners {
    WithPoly(c, q, p, v1, v2)[at := p]
  }

  lemma HalfSplitEnds(c: Corners, at: HalfEdge, q: nat, p: Vert, v1: Vert, v2: Vert)
    requires Whole(c) && at in c && Edges(q) !! c.Keys
    ensures Prev(at) in c && Whole(HalfSplit(c, at, q, p, v1, v2))
    ensures HalfSplit(c, at, q, p, v1, v2).Keys == c.Keys + Edges(q)
    ensures var e, f := EndsOf(c), EndsOf(HalfSplit(c, at, q, p, v1, v2));
            && (forall g :: g in c && g != at && g != Prev(at) ==> f[g] == e[g])
            && f[at] == (p, e[at].1) && f[Prev(at)] == (e[Prev(at)].0, p)
            && f[HalfEdge(q, 0)] == (p, v1) && f[HalfEdge(q, 1)] == (v1, v2) && f[HalfEdge(q, 2)] == (v2, p)
  {
    hide Whole, WithPoly, EndsOf;
    PolyAdded(c, q, p, v1, v2);
    EndsPoly(c, q, p, v1, v2);
    EndsCorner(WithPoly(c, q, p, v1, v2), at, p);
    WholeNext(c, at);
  }

  /** Links after one half of `split_edge`: the outer link of `old` moves to `to`, and `old`
      is linked with the new half-edge `inner` on the other side of the cut. */
  ghost function HalfLinks(l: Links, old': HalfEdge, to: HalfEdge, inner: HalfEdge): Links {
    Linked(MoveLink(l, old', to), old', inner)
  }

  /** One half of the split, seen with end points `g` in which `old'` has the end points it
      had before; afterwards it has those given by `now`. */
  lemma HalfLinksOk(g: Ends, l: Links, l0: Links, r: map<HalfEdge, HalfEdge>, s: set<HalfEdge>,
                    old': HalfEdge, to: HalfEdge, inner: HalfEdge, now: (Vert, Vert))
    requires Reversing(g, l) && to !in l && inner !in l && old' != to && old' != inner && to != inner
    requires old' in g && to in g && inner in g && g[to] == g[old'] && g[inner] == Flip(now)
    requires Renamed(l0, l, r, s) && old' !in s && old' !in r && old' !in r.Values
    ensures var l2 := HalfLinks(l, old', to, inner);
            && Reversing(g[old' := now], l2)
            && Renamed(l0, l2, r[old' := to], s + {old', inner})
            && l2.Keys == l.Keys + {old', inner} + if old' in l then {to} else {}
    ensures old' !in MoveLink(l, old', to) && inner !in MoveLink(l, old', to)
  {
    hide Reversing, Renamed, MoveLink, Linked;
    var l1 := MoveLink(l, old', to);
    MoveLinkOk(g, l, old', to);
    MoveLinkKeys(g, l, old', to);
    ReversingSame(g, g[old' := now], l1);
    LinkReversing(g[old' := now], l1, old', inner);
    RenamedMove(g, l0, l, r, s, old', to);
    RenamedLink(l0, l1, r[old' := to], s, old', inner);
  }

  /** Two half-edges that are linked to each other may change their end points together. */
  lemma ReversingPair(e: Ends, l: Links, a: HalfEdge, b: HalfEdge, ends: (Vert, Vert))
    requires Reversing(e, l) && a in l && l[a] == b
    ensures Reversing(e[a := ends][b := Flip(ends)], l)
  {
    assert ReversingAt(e, l, a);
    forall h | h in l ensures ReversingAt(e[a := ends][b := Flip(ends)], l, h) {
      assert ReversingAt(e, l, h);
    }
  }

  ghost function UpperCorners(c: Corners, ab: HalfEdge, q: nat, p: Vert): Corners
    requires Next(ab) in c && Prev(ab) in c
  {
    HalfSplit(c, Next(ab), q, p, c[Next(ab)], c[Prev(ab)])
  }

  ghost function UpperLinks(l: Links, ab: HalfEdge, q: nat): Links {
    HalfLinks(l, Next(ab), HalfEdge(q, 1), HalfEdge(q, 2))
  }

  ghost function LowerLinks(l: Links, ba: HalfEdge, q: nat, q2: nat): Links {
    Linked(HalfLinks(l, Prev(ba), HalfEdge(q2, 1), HalfEdge(q2, 0)), HalfEdge(q, 0), HalfEdge(q2, 2))
  }

  ghost function UpperRename(ab: HalfEdge, q: nat): map<HalfEdge, HalfEdge> {
    map[Next(ab) := HalfEdge(q, 1)]
  }

  ghost function UpperInner(ab: HalfEdge, q: nat): set<HalfEdge> {
    {Next(ab), HalfEdge(q, 2)}
  }

  ghost function LowerInner(ba: HalfEdge, q: nat, q2: nat): set<HalfEdge> {
    {Prev(ba), HalfEdge(q2, 0), HalfEdge(q, 0), HalfEdge(q2, 2)}
  }

  ghost predicate Paired(l: Links, a: HalfEdge, b: HalfEdge) {
    a in l && b in l && l[a] == b && l[b] == a
  }

  /** The inner half-edges p-c and c-p are linked. */
  ghost predicate UpperPaired(l: Links, ab: HalfEdge, q: nat) {
    Paired(l, Next(ab), HalfEdge(q, 2))
  }

  /** The inner half-edges d-p and p-d are linked, and the outer halves p-b and b-p of the edge. */
  ghost predicate LowerPaired(l: Links, ba: HalfEdge, q: nat, q2: nat) {
    Paired(l, Prev(ba), HalfEdge(q2, 0)) && Paired(l, HalfEdge(q, 0), HalfEdge(q2, 2))
  }

  lemma UpperLinksPaired(l: Links, ab: HalfEdge, q: nat)
    requires ab.poly != q
    ensures UpperPaired(UpperLinks(l, ab, q), ab, q)
  {
  }

  lemma LowerLinksPaired(e: Ends, l: Links, ab: HalfEdge, ba: HalfEdge, q: nat, q2: nat)
    requires Reversing(e, l) && UpperPaired(l, ab, q)
    requires ab.poly != ba.poly && ab.poly != q && ab.poly != q2 && ba.poly != q && ba.poly != q2 && q != q2
    requires HalfEdge(q2, 1) !in l
    ensures UpperPaired(LowerLinks(l, ba, q, q2), ab, q) && LowerPaired(LowerLinks(l, ba, q, q2), ba, q, q2)
  {
    var l1 := MoveLink(l, Prev(ba), HalfEdge(q2, 1));
    NextPoly(ab);
    NextPoly(ba);
    hide Next, Prev;
    if Prev(ba) in l {
      assert ReversingAt(e, l, Prev(ba));
    }
    assert Paired(l1, Next(ab), HalfEdge(q, 2));
  }

  /** The upper half, with end points `g` that give the half-edge b-c its old ones. */
  lemma UpperLinksOk(g: Ends, l: Links, ab: HalfEdge, q: nat, b: Vert, v: Vert, p: Vert)
    requires Reversing(g, l) && Edges(q) !! l.Keys && ab.poly != q
    requires Edges(q) <= g.Keys && Next(ab) in g && g[Next(ab)] == (b, v)
    requires g[HalfEdge(q, 1)] == (b, v) && g[HalfEdge(q, 2)] == (v, p)
    ensures var l1 := UpperLinks(l, ab, q);
            && Reversing(g[Next(ab) := (p, v)], l1)
            && Renamed(l, l1, UpperRename(ab, q), UpperInner(ab, q))
            && l1.Keys == l.Keys + UpperInner(ab, q) + if Next(ab) in l then {HalfEdge(q, 1)} else {}
    ensures var l1 := MoveLink(l, Next(ab), HalfEdge(q, 1));
            Next(ab) !in l1 && HalfEdge(q, 2) !in l1
  {
    hide Reversing, Renamed, HalfLinks, MoveLink;
    RenamedNone(g, l);
    HalfLinksOk(g, l, l, map[], {}, Next(ab), HalfEdge(q, 1), HalfEdge(q, 2), (p, v));
    assert {} + UpperInner(ab, q) == UpperInner(ab, q);
    assert map[][Next(ab) := HalfEdge(q, 1)] == UpperRename(ab, q);
  }

  /** The end points that all half-edges have at some moment of the split: the new ones for new half-edges, the old ones
    * for old half-edges. */
  ghost function UpperEnds(c: Corners, ab: HalfEdge, q: nat, p: Vert): Ends
    requires Whole(c) && Next(ab) in c && Prev(ab) in c && Whole(UpperCorners(c, ab, q, p))
  {
    EndsOf(UpperCorners(c, ab, q, p)) + EndsOf(c)
  }

  lemma UpperCornersOk(c: Corners, ab: HalfEdge, q: nat, p: Vert)
    requires Whole(c) && ab in c && Edges(q) !! c.Keys
    ensures Next(ab) in c && Prev(ab) in c && Whole(UpperCorners(c, ab, q, p)) && ab.poly != q
    ensures UpperCorners(c, ab, q, p).Keys == c.Keys + Edges(q)
    ensures var b, v, g, f := c[Next(ab)], c[Prev(ab)], UpperEnds(c, ab, q, p), EndsOf(UpperCorners(c, ab, q, p));
            && g.Keys == c.Keys + Edges(q) && f.Keys == c.Keys + Edges(q)
            && g[Next(ab)] == (b, v) && g[HalfEdge(q, 1)] == (b, v) && g[HalfEdge(q, 2)] == (v, p)
            && (forall h :: h in c ==> g[h] == EndsOf(c)[h])
            && (forall h :: h in f && h != ab && h != Next(ab) ==> f[h] == g[h]) && f[Next(ab)] == (p, v)
  {
    hide Whole, HalfSplit, EndsOf, Next, Prev;
    WholeNext(c, ab);
    NextPrev(ab);
    NotNew(c, ab, q);
    EndsAt(c, Next(ab));
    assert HalfEdge(q, 0) in Edges(q) && HalfEdge(q, 1) in Edges(q) && HalfEdge(q, 2) in Edges(q);
    HalfSplitEnds(c, Next(ab), q, p, c[Next(ab)], c[Prev(ab)]);
  }

  /** The links after the upper half, seen with these end points. */
  lemma UpperReversing(c: Corners, l: Links, ab: HalfEdge, q: nat, p: Vert)
    requires Whole(c) && LinksOk(c, l) && ab in c && Edges(q) !! c.Keys
    ensures Next(ab) in c && Prev(ab) in c && Whole(UpperCorners(c, ab, q, p))
    ensures var g, l1 := UpperEnds(c, ab, q, p), UpperLinks(l, ab, q);
            && Reversing(g, l) && Reversing(g[Next(ab) := (p, c[Prev(ab)])], l1)
            && Renamed(l, l1, UpperRename(ab, q), UpperInner(ab, q))
            && l1.Keys == l.Keys + UpperInner(ab, q) + if Next(ab) in l then {HalfEdge(q, 1)} else {}
    ensures Edges(q) !! l.Keys
    ensures var l1 := MoveLink(l, Next(ab), HalfEdge(q, 1));
            Next(ab) !in l1 && HalfEdge(q, 2) !in l1
  {
    hide Whole, LinksOk, Reversing, Renamed, UpperLinks, UpperCorners, UpperEnds, Next, Prev, MoveLink;
    UpperCornersOk(c, ab, q, p);
    LinksOkReversing(c, l);
    LinkKeys(c, l, Edges(q));
    ReversingSame(EndsOf(c), UpperEnds(c, ab, q, p), l);
    UpperLinksOk(UpperEnds(c, ab, q, p), l, ab, q, c[Next(ab)], c[Prev(ab)], p);
  }

  /** Splitting a boundary edge. */
  lemma SplitBoundaryOk(c: Corners, l: Links, ab: HalfEdge, q: nat, p: Vert)
    requires Whole(c) && LinksOk(c, l) && ab in c && ab !in l && Edges(q) !! c.Keys
    ensures Next(ab) in c && Prev(ab) in c && Whole(UpperCorners(c, ab, q, p))
    ensures LinksOk(UpperCorners(c, ab, q, p), UpperLinks(l, ab, q))
    ensures Renamed(l, UpperLinks(l, ab, q), UpperRename(ab, q), UpperInner(ab, q))
    ensures ab !in UpperLinks(l, ab, q) && UpperPaired(UpperLinks(l, ab, q), ab, q)
  {
    hide Whole, LinksOk, Reversing, Renamed, UpperLinks, UpperCorners, UpperEnds, EndsOf, Next, Prev;
    UpperCornersOk(c, ab, q, p);
    UpperReversing(c, l, ab, q, p);
    WholeNext(c, ab);
    NextPrev(ab);
    var c', l' := UpperCorners(c, ab, q, p), UpperLinks(l, ab, q);
    UpperLinksPaired(l, ab, q);
    ReversingSame(UpperEnds(c, ab, q, p)[Next(ab) := (p, c[Prev(ab)])], EndsOf(c'), l');
    LinksOkReversing(c', l');
  }

  /** The lower half and the link p-b, with end points `g`. */
  lemma LowerLinksOk(g: Ends, l0: Links, l: Links, ab: HalfEdge, ba: HalfEdge, q: nat, q2: nat, d: Vert, b: Vert,
                     p: Vert)
    requires Reversing(g, l) && Edges(q2) !! l.Keys && HalfEdge(q, 0) !in l
    requires ab.poly != ba.poly && ab.poly != q && ba.poly != q && ba.poly != q2 && q != q2 && ab.poly != q2
    requires Edges(q) + Edges(q2) <= g.Keys && Prev(ba) in g && g[Prev(ba)] == (d, b)
    requires g[HalfEdge(q2, 0)] == (p, d) && g[HalfEdge(q2, 1)] == (d, b)
    requires g[HalfEdge(q2, 2)] == (b, p) && g[HalfEdge(q, 0)] == (p, b)
    requires Renamed(l0, l, UpperRename(ab, q), UpperInner(ab, q))
    ensures var l2 := LowerLinks(l, ba, q, q2);
            && Reversing(g[Prev(ba) := (d, p)], l2)
            && Renamed(l0, l2, UpperRename(ab, q)[Prev(ba) := HalfEdge(q2, 1)],
                       UpperInner(ab, q) + LowerInner(ba, q, q2))
            && l2.Keys <= l.Keys + Edges(q) + Edges(q2) + {Prev(ba)}
    ensures var l1 := MoveLink(l, Prev(ba), HalfEdge(q2, 1));
            && Prev(ba) !in l1 && HalfEdge(q2, 0) !in l1
            && HalfEdge(q, 0) !in Linked(l1, Prev(ba), HalfEdge(q2, 0))
            && HalfEdge(q2, 2) !in Linked(l1, Prev(ba), HalfEdge(q2, 0))
  {
    hide Reversing, Renamed, HalfLinks, Linked, MoveLink;
    var db, ndb, pd, r, s := Prev(ba), HalfEdge(q2, 1), HalfEdge(q2, 0), UpperRename(ab, q), UpperInner(ab, q);
    HalfLinksOk(g, l, l0, r, s, db, ndb, pd, (d, p));
    var l1 := HalfLinks(l, db, ndb, pd);
    HalfLinksIs(l, db, ndb, pd);
    LinkReversing(g[db := (d, p)], l1, HalfEdge(q, 0), HalfEdge(q2, 2));
    RenamedLink(l0, l1, r[db := ndb], s + {db, pd}, HalfEdge(q, 0), HalfEdge(q2, 2));
    assert s + {db, pd} + {HalfEdge(q, 0), HalfEdge(q2, 2)} == s + LowerInner(ba, q, q2);
  }

  lemma HalfLinksIs(l: Links, old': HalfEdge, to: HalfEdge, inner: HalfEdge)
    ensures HalfLinks(l, old', to, inner) == Linked(MoveLink(l, old', to), old', inner)
  {
  }

  /** The corners after both halves of the split. */
  ghost function SplitCorners(c: Corners, ab: HalfEdge, ba: HalfEdge, q: nat, q2: nat, p: Vert): Corners
    requires Next(ab) in c && Prev(ab) in c && Prev(ba) in c
  {
    HalfSplit(UpperCorners(c, ab, q, p), ba, q2, p, c[Prev(ba)], c[Next(ab)])
  }

  /** End points of the half-edges before (`e`) and after (`f`) the split of a-b at p, where
      the triangles are (a, b, v) and (b, a, d). */
  lemma SplitEnds(c: Corners, ab: HalfEdge, ba: HalfEdge, q: nat, q2: nat, p: Vert)
    requires Whole(c) && ab in c && ba in c && ab.poly != ba.poly
    requires Next(ab) in c && Prev(ab) in c && Next(ba) in c && Prev(ba) in c
    requires c[ba] == c[Next(ab)] && c[Next(ba)] == c[ab]
    requires Edges(q) !! c.Keys && Edges(q2) !! c.Keys && q != q2
    ensures var c2, a, b, v, d := SplitCorners(c, ab, ba, q, q2, p), c[ab], c[Next(ab)], c[Prev(ab)], c[Prev(ba)];
            && Whole(c2) && c2.Keys == c.Keys + Edges(q) + Edges(q2)
            && var e, f := EndsOf(c), EndsOf(c2);
               && (forall h :: h in c && h !in {ab, Next(ab), ba, Prev(ba)} ==> f[h] == e[h])
               && e[Next(ab)] == (b, v) && e[Prev(ba)] == (d, b)
               && f[ab] == (a, p) && f[ba] == (p, a) && f[Next(ab)] == (p, v) && f[Prev(ba)] == (d, p)
               && f[HalfEdge(q, 0)] == (p, b) && f[HalfEdge(q, 1)] == (b, v) && f[HalfEdge(q, 2)] == (v, p)
               && f[HalfEdge(q2, 0)] == (p, d) && f[HalfEdge(q2, 1)] == (d, b) && f[HalfEdge(q2, 2)] == (b, p)
    ensures ab.poly != q && ab.poly != q2 && ba.poly != q && ba.poly != q2
  {
    hide Whole, HalfSplit;
    WholeNext(c, ab); WholeNext(c, ba);
    NextPrev(ab); NextPrev(ba);
    NotNew(c, ab, q); NotNew(c, ab, q2); NotNew(c, ba, q); NotNew(c, ba, q2);
    var b, v, d := c[Next(ab)], c[Prev(ab)], c[Prev(ba)];
    HalfSplitEnds(c, Next(ab), q, p, b, v);
    HalfSplitEnds(UpperCorners(c, ab, q, p), ba, q2, p, d, b);
  }

  lemma NotNew(c: Corners, h: HalfEdge, q: nat)
    requires Whole(c) && h in c && Edges(q) !! c.Keys
    ensures h.poly != q
  {
    assert HalfEdge(q, 0) in Edges(q);
  }

  /** The checks of `unlink()` and `link()` in the upper half. */
  ghost predicate UpperFree(c: Corners, l: Links, ab: HalfEdge, q: nat) {
    && MoveFree(c, l, Next(ab), HalfEdge(q, 1))
    && HalfEdge(q, 2) in c
    && {Next(ab), HalfEdge(q, 2)} !! MoveLink(l, Next(ab), HalfEdge(q, 1)).Keys
  }

  /** The checks of `unlink()` and `link()` in the lower half. */
  ghost predicate LowerFree(c: Corners, l: Links, ba: HalfEdge, q: nat, q2: nat) {
    && MoveFree(c, l, Prev(ba), HalfEdge(q2, 1))
    && HalfEdge(q2, 0) in c && HalfEdge(q, 0) in c && HalfEdge(q2, 2) in c && q != q2
    && var l1 := MoveLink(l, Prev(ba), HalfEdge(q2, 1));
       && {Prev(ba), HalfEdge(q2, 0)} !! l1.Keys
       && {HalfEdge(q, 0), HalfEdge(q2, 2)} !! Linked(l1, Prev(ba), HalfEdge(q2, 0)).Keys
  }

  ghost predicate LinksIn(c: Corners, l: Links) {
    forall h :: h in l ==> h in c && l[h] in c
  }

  lemma ReversingIn(e: Ends, c: Corners, l: Links)
    requires Reversing(e, l) && e.Keys <= c.Keys
    ensures LinksIn(c, l)
  {
    forall h | h in l ensures h in c && l[h] in c {
      assert ReversingAt(e, l, h);
    }
  }

  lemma StoredWith(domain: nat, c: Corners, l: Links, l': Links, vp: VertPolys)
    requires Stored(domain, c, l, vp) && LinksIn(c, l')
    ensures Stored(domain, c, l', vp)
  {
    hide VertPolysOk, Whole;
  }

  lemma CornerVerts(domain: nat, c: Corners, l: Links, vp: VertPolys, h: HalfEdge)
    requires Stored(domain, c, l, vp) && h in c
    ensures h.ith < 3 && Next(h) in c && Prev(h) in c && c[h] in vp && c[Next(h)] in vp && c[Prev(h)] in vp
  {
    hide Whole, VertPolysOk;
    WholeNext(c, h);
    VertThere(c, vp, h); VertThere(c, vp, Next(h)); VertThere(c, vp, Prev(h));
  }

  lemma VertThere(c: Corners, vp: VertPolys, h: HalfEdge)
    requires VertPolysOk(c, vp) && h in c
    ensures c[h] in vp
  {
  }

  lemma FreshEdges(c: Corners, q: nat)
    requires q !in Polys(c)
    ensures Edges(q) !! c.Keys
  {
  }

  lemma UpperMoves(c: Corners, l: Links, ab: HalfEdge, q: nat, p: Vert)
    requires Whole(c) && LinksOk(c, l) && ab in c && Edges(q) !! c.Keys
    ensures Next(ab) in c && Prev(ab) in c && UpperFree(UpperCorners(c, ab, q, p), l, ab, q)
  {
    hide Whole, LinksOk, Reversing, Renamed, UpperLinks, UpperCorners, UpperEnds, EndsOf, MoveFree, MoveLink, Next,
      Prev, UpperRename, UpperInner, Edges;
    UpperCornersOk(c, ab, q, p);
    UpperReversing(c, l, ab, q, p);
    NextPoly(ab);
    NewEdges(q);
    MoveFreeOk(UpperCorners(c, ab, q, p), UpperEnds(c, ab, q, p), l, Next(ab), HalfEdge(q, 1));
  }

  lemma UpperLinksIn(c: Corners, l: Links, ab: HalfEdge, q: nat, p: Vert)
    requires Whole(c) && LinksOk(c, l) && ab in c && Edges(q) !! c.Keys
    ensures Next(ab) in c && Prev(ab) in c && LinksIn(UpperCorners(c, ab, q, p), UpperLinks(l, ab, q))
  {
    hide Whole, LinksOk, LinksIn, Reversing, Renamed, UpperLinks, UpperCorners, UpperEnds, EndsOf, MoveLink, Next, Prev,
      UpperRename, UpperInner, Edges;
    UpperCornersOk(c, ab, q, p);
    UpperReversing(c, l, ab, q, p);
    var g := UpperEnds(c, ab, q, p)[Next(ab) := (p, c[Prev(ab)])];
    ReversingIn(g, UpperCorners(c, ab, q, p), UpperLinks(l, ab, q));
  }

  lemma UpperStage(c: Corners, l: Links, ab: HalfEdge, q: nat, p: Vert)
    requires Whole(c) && LinksOk(c, l) && ab in c && Edges(q) !! c.Keys
    ensures Next(ab) in c && Prev(ab) in c && Whole(UpperCorners(c, ab, q, p))
    ensures UpperFree(UpperCorners(c, ab, q, p), l, ab, q)
    ensures LinksIn(UpperCorners(c, ab, q, p), UpperLinks(l, ab, q))
    ensures ab in UpperLinks(l, ab, q) <==> ab in l
    ensures ab in l ==> UpperLinks(l, ab, q)[ab] == if l[ab] == Next(ab) then HalfEdge(q, 1) else l[ab]
  {
    hide Edges, UpperRename, Whole, LinksOk, LinksIn, UpperFree, Reversing, Renamed, UpperLinks, UpperCorners,
      UpperEnds, EndsOf, MoveLink, Next, Prev;
    UpperMoves(c, l, ab, q, p);
    UpperLinksIn(c, l, ab, q, p);
    UpperReversing(c, l, ab, q, p);
    WholeNext(c, ab);
    NextPrev(ab);
    NotNew(c, ab, q);
    if ab in l {
      UpperPairKept(l, UpperLinks(l, ab, q), ab, q);
    }
  }

  lemma UpperPairKept(l: Links, l1: Links, ab: HalfEdge, q: nat)
    requires ab in l && ab.ith < 3
    requires Renamed(l, l1, UpperRename(ab, q), UpperInner(ab, q))
    ensures ab in l1 && l1[ab] == if l[ab] == Next(ab) then HalfEdge(q, 1) else l[ab]
  {
    NextPrev(ab);
    assert RenamedAt(l, l1, UpperRename(ab, q), ab);
  }

  /** The end points that all half-edges have at some moment of the whole split. */
  ghost function SplitEndsAll(c: Corners, ab: HalfEdge, ba: HalfEdge, q: nat, q2: nat, p: Vert): Ends
    requires Whole(c) && Next(ab) in c && Prev(ab) in c && Prev(ba) in c && Whole(SplitCorners(c, ab, ba, q, q2, p))
  {
    EndsOf(SplitCorners(c, ab, ba, q, q2, p)) + EndsOf(c)
  }

  // The polygons of the edge and what their links and corners say about each other.
  lemma SplitPolys(c: Corners, l: Links, ab: HalfEdge)
    requires Whole(c) && LinksOk(c, l) && ab in c && ab in l
    ensures var ba := l[ab];
            && ba in c && ba in l && l[ba] == ab && Next(ab) in c && Prev(ab) in c && Next(ba) in c && Prev(ba) in c
            && c[ba] == c[Next(ab)] && c[Next(ba)] == c[ab] && ab.ith < 3 && ba.ith < 3
  {
    LinkReversed(c, l, ab);
    LinkedInMesh(c, l, ab);
    WholeNext(c, ab);
    WholeNext(c, l[ab]);
  }

  lemma SplitAllEnds(c: Corners, ab: HalfEdge, ba: HalfEdge, q: nat, q2: nat, p: Vert)
    requires Whole(c) && ab in c && ba in c && ab.poly != ba.poly
    requires Next(ab) in c && Prev(ab) in c && Next(ba) in c && Prev(ba) in c
    requires c[ba] == c[Next(ab)] && c[Next(ba)] == c[ab]
    requires Edges(q) !! c.Keys && Edges(q2) !! c.Keys && q != q2
    ensures Whole(SplitCorners(c, ab, ba, q, q2, p))
    ensures var a, b, v, d, g := c[ab], c[Next(ab)], c[Prev(ab)], c[Prev(ba)], SplitEndsAll(c, ab, ba, q, q2, p);
            && g.Keys == c.Keys + Edges(q) + Edges(q2) && (forall h :: h in c ==> g[h] == EndsOf(c)[h])
            && g[Next(ab)] == (b, v) && g[Prev(ba)] == (d, b)
            && g[HalfEdge(q, 0)] == (p, b) && g[HalfEdge(q, 1)] == (b, v) && g[HalfEdge(q, 2)] == (v, p)
            && g[HalfEdge(q2, 0)] == (p, d) && g[HalfEdge(q2, 1)] == (d, b) && g[HalfEdge(q2, 2)] == (b, p)
            && var f := EndsOf(SplitCorners(c, ab, ba, q, q2, p));
               f.Keys == g.Keys
               && forall h :: h in f ==>
                    f[h] == g[Next(ab) := (p, v)][Prev(ba) := (d, p)][ab := (a, p)][ba := (p, a)][h]
  {
    hide Whole, EndsOf, SplitCorners, Next, Prev;
    SplitEnds(c, ab, ba, q, q2, p);
    NewEdges(q);
    NewEdges(q2);
  }

  lemma NewEdges(q: nat)
    ensures HalfEdge(q, 0) in Edges(q) && HalfEdge(q, 1) in Edges(q) && HalfEdge(q, 2) in Edges(q)
  {
  }

  /** The links after both halves, seen with these end points. */
  lemma SplitReversing(c: Corners, l: Links, ab: HalfEdge, q: nat, q2: nat, p: Vert)
    requires Whole(c) && LinksOk(c, l) && ab in c && ab in l && l[ab].poly != ab.poly
    requires Edges(q) !! c.Keys && Edges(q2) !! c.Keys && q != q2
    requires Next(ab) in c && Prev(ab) in c && l[ab] in c && Prev(l[ab]) in c
    requires Whole(SplitCorners(c, ab, l[ab], q, q2, p))
    ensures var ba, g, l1 := l[ab], SplitEndsAll(c, ab, l[ab], q, q2, p), UpperLinks(l, ab, q);
            var g1, l2 := g[Next(ab) := (p, c[Prev(ab)])], LowerLinks(l1, ba, q, q2);
            && Reversing(g1, l1) && Reversing(g1[Prev(ba) := (c[Prev(ba)], p)], l2)
            && Renamed(l, l2, UpperRename(ab, q)[Prev(ba) := HalfEdge(q2, 1)],
                       UpperInner(ab, q) + LowerInner(ba, q, q2))
            && HalfEdge(q2, 1) !in l1 && UpperPaired(l2, ab, q) && LowerPaired(l2, ba, q, q2)
    ensures var l1, ba := UpperLinks(l, ab, q), l[ab];
            var m1 := MoveLink(l1, Prev(ba), HalfEdge(q2, 1));
            && {Prev(ba), HalfEdge(q2, 0)} !! m1.Keys
            && {HalfEdge(q, 0), HalfEdge(q2, 2)} !! Linked(m1, Prev(ba), HalfEdge(q2, 0)).Keys
  {
    hide Whole, LinksOk, Reversing, Renamed, UpperLinks, LowerLinks, SplitCorners, SplitEndsAll, EndsOf, UpperRename,
      MoveLink, Linked, LowerInner, UpperInner, UpperPaired, LowerPaired, Edges, Next, Prev;
    var ba, g := l[ab], SplitEndsAll(c, ab, l[ab], q, q2, p);
    SplitPolys(c, l, ab);
    SplitAllEnds(c, ab, ba, q, q2, p);
    NotNew(c, ab, q); NotNew(c, ab, q2); NotNew(c, ba, q); NotNew(c, ba, q2);
    NewEdges(q); NewEdges(q2);
    LinksOkReversing(c, l);
    LinkKeys(c, l, Edges(q));
    LinkKeys(c, l, Edges(q2));
    ReversingSame(EndsOf(c), g, l);
    UpperLinksOk(g, l, ab, q, c[Next(ab)], c[Prev(ab)], p);
    StillFree(l, UpperLinks(l, ab, q), ab, q, q2);
    OtherPoly(ab, ba);
    UpperLinksPaired(l, ab, q);
    LowerLinksPaired(g[Next(ab) := (p, c[Prev(ab)])], UpperLinks(l, ab, q), ab, ba, q, q2);
    LowerLinksOk(g[Next(ab) := (p, c[Prev(ab)])], l, UpperLinks(l, ab, q), ab, ba, q, q2, c[Prev(ba)], c[Next(ab)], p);
  }

  lemma OtherPoly(ab: HalfEdge, ba: HalfEdge)
    requires ab.poly != ba.poly
    ensures Next(ab) != Prev(ba)
  {
  }

  // The upper half has linked no half-edge of the polygon of the lower half, nor p-b.
  lemma StillFree(l: Links, l1: Links, ab: HalfEdge, q: nat, q2: nat)
    requires l1.Keys == l.Keys + UpperInner(ab, q) + if Next(ab) in l then {HalfEdge(q, 1)} else {}
    requires Edges(q) !! l.Keys && Edges(q2) !! l.Keys && q != q2 && ab.poly != q && ab.poly != q2
    ensures Edges(q2) !! l1.Keys && HalfEdge(q, 0) !in l1 && HalfEdge(q2, 1) !in l1
  {
  }

  lemma NextPoly(h: HalfEdge)
    ensures Next(h).poly == h.poly && Prev(h).poly == h.poly
  {
  }

  /** Splitting an edge between two different polygons. */
  lemma SplitInnerOk(c: Corners, l: Links, ab: HalfEdge, q: nat, q2: nat, p: Vert)
    requires Whole(c) && LinksOk(c, l) && ab in c && ab in l && l[ab].poly != ab.poly
    requires Edges(q) !! c.Keys && Edges(q2) !! c.Keys && q != q2
    ensures Next(ab) in c && Prev(ab) in c && l[ab] in c && Prev(l[ab]) in c
    ensures var ba := l[ab];
            var c2, l2 := SplitCorners(c, ab, ba, q, q2, p), LowerLinks(UpperLinks(l, ab, q), ba, q, q2);
            && Whole(c2) && c2.Keys == c.Keys + Edges(q) + Edges(q2)
            && LinksOk(c2, l2) && Paired(l2, ab, ba) && UpperPaired(l2, ab, q) && LowerPaired(l2, ba, q, q2)
            && Renamed(l, l2, UpperRename(ab, q)[Prev(ba) := HalfEdge(q2, 1)],
                       UpperInner(ab, q) + LowerInner(ba, q, q2))
    ensures LowerFree(SplitCorners(c, ab, l[ab], q, q2, p), UpperLinks(l, ab, q), l[ab], q, q2)
  {
    hide Whole, LinksOk, Reversing, Renamed, UpperLinks, LowerLinks, SplitCorners, SplitEndsAll, EndsOf, UpperRename,
      MoveFree, MoveLink, Linked, UpperInner, LowerInner, UpperPaired, LowerPaired, Next, Prev;
    SplitPolys(c, l, ab);
    var ba := l[ab];
    NextPrev(ab); NextPrev(ba);
    SplitAllEnds(c, ab, ba, q, q2, p);
    SplitReversing(c, l, ab, q, q2, p);
    var c2, l1, g := SplitCorners(c, ab, ba, q, q2, p), UpperLinks(l, ab, q), SplitEndsAll(c, ab, ba, q, q2, p);
    var l2, g1 := LowerLinks(l1, ba, q, q2), g[Next(ab) := (p, c[Prev(ab)])];
    NewEdges(q);
    NewEdges(q2);
    MoveFreeOk(c2, g1, l1, Prev(ba), HalfEdge(q2, 1));
    var g2 := g1[Prev(ba) := (c[Prev(ba)], p)];
    PairKept(l, l2, ab, q, q2);
    PairedBack(g2, l2, ab, ba);
    ReversingPair(g2, l2, ab, ba, (c[ab], p));
    ReversingSame(g2[ab := (c[ab], p)][ba := (p, c[ab])], EndsOf(c2), l2);
    LinksOkReversing(c2, l2);
  }

  lemma PairedBack(e: Ends, l: Links, a: HalfEdge, b: HalfEdge)
    requires Reversing(e, l) && a in l && l[a] == b
    ensures Paired(l, a, b)
  {
    assert ReversingAt(e, l, a);
  }

  lemma LinkedInMesh(c: Corners, l: Links, h: HalfEdge)
    requires LinksOk(c, l) && h in l
    ensures l[h] in c && l[h] in l && l[l[h]] == h
  {
    assert LinkOk(c, l, h);
  }

  /** The two halves of the split edge stay linked with each other. */
  lemma PairKept(l: Links, l2: Links, ab: HalfEdge, q: nat, q2: nat)
    requires ab in l && l[ab].poly != ab.poly && ab.ith < 3 && l[ab].ith < 3
    requires Renamed(l, l2, UpperRename(ab, q)[Prev(l[ab]) := HalfEdge(q2, 1)],
                     UpperInner(ab, q) + LowerInner(l[ab], q, q2))
    ensures ab in l2 && l2[ab] == l[ab]
  {
    NextPrev(ab); NextPrev(l[ab]);
    assert RenamedAt(l, l2, UpperRename(ab, q)[Prev(l[ab]) := HalfEdge(q2, 1)], ab);
  }

  /** The upper half of `split_edge`. */
  method SplitUpper(m: Mesh, ab: HalfEdge, p: Vert) returns (q: nat)
    requires m.Valid() && ab in m.corner && p in m.vertPolys
    modifies m
    ensures Stored(m.domain, m.corner, m.link, m.vertPolys) && m.vertPolys.Keys == old(m.vertPolys).Keys
    ensures Edges(q) !! old(m.corner).Keys && Next(ab) in old(m.corner) && Prev(ab) in old(m.corner)
    ensures m.corner == UpperCorners(old(m.corner), ab, q, p) && m.link == UpperLinks(old(m.link), ab, q)
  {
    hide Stored, Whole, LinksOk, MoveLink, MoveFree, Linked, WithPoly, Polys, LinksIn;
    m.ValidParts();
    ghost var c, l := m.corner, m.link;
    CornerVerts(m.domain, c, l, m.vertPolys, ab);
    var b := m.corner[Next(ab)];
    var v := m.corner[Prev(ab)];
    q := m.Add(p, b, v);
    FreshEdges(c, q);
    WithPolyWhole(c, q, p, b, v);
    m.ChangeVert(Next(ab), p);
    UpperStage(c, l, ab, q, p);
    // the other end of b-c calls unlink() and link(), which are symmetric
    MoveLinkOf(m, Next(ab), HalfEdge(q, 1));
    m.Link(Next(ab), HalfEdge(q, 2));
    StoredWith(m.domain, m.corner, l, m.link, m.vertPolys);
  }

  lemma UpperKeeps(c: Corners, h: HalfEdge, ab: HalfEdge, q: nat, p: Vert)
    requires Whole(c) && ab in c && h in c && h.poly != ab.poly && Edges(q) !! c.Keys
    requires Next(ab) in c && Prev(ab) in c
    ensures var c1 := UpperCorners(c, ab, q, p);
            && c.Keys + Edges(q) == c1.Keys && Whole(c)
            && Prev(h) in c && c1[Prev(h)] == c[Prev(h)]
  {
    WholeNext(c, h);
    PolyAdded(c, q, p, c[Next(ab)], c[Prev(ab)]);
    hide WithPoly, Whole;
  }

  // ---- an edge between two edges of one triangle ---------------------------------------

  /** The corners after the lower half, on corners `c1` after the upper one. */
  ghost function LowerCorners(c1: Corners, ba: HalfEdge, b: Vert, q2: nat, p: Vert): Corners
    requires Prev(ba) in c1
  {
    HalfSplit(c1, ba, q2, p, c1[Prev(ba)], b)
  }

  /** The links among new half-edges when the edge is linked to the one before it in its own triangle. */
  ghost function FoldedInner(ab: HalfEdge, q: nat, q2: nat): set<HalfEdge> {
    {HalfEdge(q, 2), HalfEdge(q2, 1), Next(ab), HalfEdge(q2, 0), HalfEdge(q, 0), HalfEdge(q2, 2)}
  }

  ghost predicate FoldedPaired(l: Links, ab: HalfEdge, q: nat, q2: nat) {
    && Paired(l, HalfEdge(q, 2), HalfEdge(q2, 1)) && Paired(l, Next(ab), HalfEdge(q2, 0))
    && Paired(l, HalfEdge(q, 0), HalfEdge(q2, 2))
  }

  /** Moving a link among the inner half-edges. */
  lemma RenamedInner(e: Ends, l: Links, l': Links, r: map<HalfEdge, HalfEdge>, inner: set<HalfEdge>, from: HalfEdge,
                     to: HalfEdge)
    requires Reversing(e, l') && Renamed(l, l', r, inner) && from in inner && from in r && from !in r.Values
    requires to !in l' && to != from
    ensures Renamed(l, MoveLink(l', from, to), r, inner - {from} + {to})
    ensures from in l' && MoveLink(l', from, to).Keys == l'.Keys - {from} + {to}
  {
    hide FromLink;
    assert InnerAt(l', inner, from) && ReversingAt(e, l', from);
    assert InnerAt(l', inner, l'[from]);
    var l2, inner2 := MoveLink(l', from, to), inner - {from} + {to};
    forall h | h in l ensures RenamedAt(l, l2, r, h) {
      assert RenamedAt(l, l', r, h);
      assert ReversingAt(e, l', At(r, h));
    }
    forall g | g in inner2 ensures InnerAt(l2, inner2, g) {
      if g != to {
        assert InnerAt(l', inner, g) && ReversingAt(e, l', g);
      }
    }
  }

  /** End points after both halves, where the triangle is (a, b, b) and its edges a-b and b-a are linked together. */
  lemma FoldedEnds(c: Corners, ab: HalfEdge, q: nat, q2: nat, p: Vert)
    requires Whole(c) && ab in c && Edges(q) !! c.Keys && Edges(q2) !! c.Keys && q != q2
    requires Next(ab) in c && Prev(ab) in c && c[Next(ab)] == c[Prev(ab)]
    requires Prev(Prev(ab)) in UpperCorners(c, ab, q, p)
    ensures var a, b, c2 := c[ab], c[Next(ab)], LowerCorners(UpperCorners(c, ab, q, p), Prev(ab), c[Next(ab)], q2, p);
            && Whole(c2) && c2.Keys == c.Keys + Edges(q) + Edges(q2)
            && var e, f := EndsOf(c), EndsOf(c2);
               && (forall h :: h in c && h !in {ab, Next(ab), Prev(ab)} ==> f[h] == e[h])
               && e[ab] == (a, b) && e[Prev(ab)] == (b, a)
               && f[ab] == (a, p) && f[Next(ab)] == (p, p) && f[Prev(ab)] == (p, a)
               && f[HalfEdge(q, 0)] == (p, b) && f[HalfEdge(q, 1)] == (b, b) && f[HalfEdge(q, 2)] == (b, p)
               && f[HalfEdge(q2, 0)] == (p, p) && f[HalfEdge(q2, 1)] == (p, b) && f[HalfEdge(q2, 2)] == (b, p)
  {
    hide Whole, HalfSplit, EndsOf;
    WholeNext(c, ab);
    AroundTriangle(ab);
    NotNew(c, ab, q); NotNew(c, ab, q2);
    EndsAt(c, ab); EndsAt(c, Next(ab)); EndsAt(c, Prev(ab));
    var b, c1 := c[Next(ab)], UpperCorners(c, ab, q, p);
    HalfSplitEnds(c, Next(ab), q, p, b, c[Prev(ab)]);
    EndsAt(c1, Next(ab));
    NewFresh(c, c1, q, q2);
    HalfSplitEnds(c1, Prev(ab), q2, p, p, b);
  }

  lemma NewFresh(c: Corners, c1: Corners, q: nat, q2: nat)
    requires c1.Keys == c.Keys + Edges(q) && Edges(q2) !! c.Keys && q != q2
    ensures Edges(q2) !! c1.Keys
  {
  }

  lemma AroundTriangle(h: HalfEdge)
    requires h.ith < 3
    ensures Prev(Next(h)) == h && Next(Prev(h)) == h && Prev(Prev(h)) == Next(h) && Next(Next(h)) == Prev(h)
    ensures Next(h) != h && Prev(h) != h && Next(h) != Prev(h) && Next(h).poly == h.poly && Prev(h).poly == h.poly
  {
  }

  /** The lower half on such a triangle, with end points `g` that give p-b, formerly b-b, its ends before. */
  lemma FoldedLinksOk(g: Ends, l: Links, l1: Links, ab: HalfEdge, q: nat, q2: nat, b: Vert, p: Vert)
    requires Reversing(g, l1) && Edges(q2) !! l1.Keys && HalfEdge(q, 0) !in l1
    requires ab.ith < 3 && ab.poly != q && ab.poly != q2 && q != q2
    requires Next(ab) in g && g[Next(ab)] == (p, b) && Edges(q) + Edges(q2) <= g.Keys && g[HalfEdge(q, 0)] == (p, b)
    requires g[HalfEdge(q2, 0)] == (p, p) && g[HalfEdge(q2, 1)] == (p, b) && g[HalfEdge(q2, 2)] == (b, p)
    requires Renamed(l, l1, UpperRename(ab, q), UpperInner(ab, q)) && UpperPaired(l1, ab, q)
    ensures var l2 := LowerLinks(l1, Prev(ab), q, q2);
            && Reversing(g[Next(ab) := (p, p)], l2)
            && Renamed(l, l2, UpperRename(ab, q), FoldedInner(ab, q, q2)) && FoldedPaired(l2, ab, q, q2)
    ensures var m1 := MoveLink(l1, Next(ab), HalfEdge(q2, 1));
            && {Next(ab), HalfEdge(q2, 0)} !! m1.Keys
            && {HalfEdge(q, 0), HalfEdge(q2, 2)} !! Linked(m1, Next(ab), HalfEdge(q2, 0)).Keys
  {
    hide Reversing, Renamed, MoveLink, Linked, Next, Prev;
    AroundTriangle(ab);
    NewEdges(q2);
    var bc, nbc, r, inner := Next(ab), HalfEdge(q2, 1), UpperRename(ab, q), UpperInner(ab, q);
    var m1 := MoveLink(l1, bc, nbc);
    MoveLinkOk(g, l1, bc, nbc);
    RenamedInner(g, l, l1, r, inner, bc, nbc);
    var g2 := g[bc := (p, p)];
    ReversingSame(g, g2, m1);
    LinkReversing(g2, m1, bc, HalfEdge(q2, 0));
    RenamedLink(l, m1, r, inner - {bc} + {nbc}, bc, HalfEdge(q2, 0));
    var m2 := Linked(m1, bc, HalfEdge(q2, 0));
    LinkReversing(g2, m2, HalfEdge(q, 0), HalfEdge(q2, 2));
    RenamedLink(l, m2, r, inner - {bc} + {nbc} + {bc, HalfEdge(q2, 0)}, HalfEdge(q, 0), HalfEdge(q2, 2));
    LowerLinksIs(l1, ab, q, q2);
    assert inner - {bc} + {nbc} + {bc, HalfEdge(q2, 0)} + {HalfEdge(q, 0), HalfEdge(q2, 2)} == FoldedInner(ab, q, q2);
    FoldedLinksPaired(l1, ab, q, q2);
  }

  lemma LowerLinksIs(l: Links, ab: HalfEdge, q: nat, q2: nat)
    requires Prev(Prev(ab)) == Next(ab)
    ensures LowerLinks(l, Prev(ab), q, q2)
            == Linked(Linked(MoveLink(l, Next(ab), HalfEdge(q2, 1)), Next(ab), HalfEdge(q2, 0)), HalfEdge(q, 0),
                      HalfEdge(q2, 2))
  {
  }

  lemma FoldedLinksPaired(l: Links, ab: HalfEdge, q: nat, q2: nat)
    requires ab.ith < 3 && ab.poly != q && ab.poly != q2 && q != q2 && UpperPaired(l, ab, q)
    ensures FoldedPaired(LowerLinks(l, Prev(ab), q, q2), ab, q, q2)
  {
    AroundTriangle(ab);
    hide Next, Prev;
  }

  lemma UpperCornersKeys(c: Corners, ab: HalfEdge, q: nat, p: Vert)
    requires Whole(c) && ab in c && Edges(q) !! c.Keys
    ensures Next(ab) in c && Prev(ab) in c && UpperCorners(c, ab, q, p).Keys == c.Keys + Edges(q)
  {
    hide Whole, UpperCorners, UpperEnds, EndsOf;
    UpperCornersOk(c, ab, q, p);
  }

  /** The end points at the start of the lower half, given those after it. */
  function FoldedBefore(f: Ends, ab: HalfEdge, a: Vert, b: Vert, p: Vert): Ends {
    f[ab := (a, b)][Prev(ab) := (b, a)][Next(ab) := (p, b)]
  }

  lemma FoldedBeforeIs(f: Ends, ab: HalfEdge, a: Vert, b: Vert, p: Vert)
    requires ab.ith < 3 && ab in f && Next(ab) in f && Prev(ab) in f
    requires f[ab] == (a, p) && f[Next(ab)] == (p, p) && f[Prev(ab)] == (p, a)
    ensures var g := FoldedBefore(f, ab, a, b, p);
            && g.Keys == f.Keys && f == g[Next(ab) := (p, p)][ab := (a, p)][Prev(ab) := (p, a)]
            && g[ab] == (a, b) && g[Next(ab)] == (p, b) && g[Prev(ab)] == (b, a)
            && forall h :: h in f && h.poly != ab.poly ==> g[h] == f[h]
  {
    AroundTriangle(ab);
    hide Next, Prev;
  }

  /** The links after the upper half agree with these end points. */
  lemma FoldedReversing(e: Ends, g1: Ends, f: Ends, l1: Links, ab: HalfEdge, q: nat, a: Vert, b: Vert, p: Vert)
    requires ab.ith < 3 && ab in e && Next(ab) in e && Prev(ab) in e && e[ab] == (a, b) && e[Prev(ab)] == (b, a)
    requires ab in f && Next(ab) in f && Prev(ab) in f
    requires forall h :: h in e && h !in {ab, Next(ab), Prev(ab)} ==> h in f && f[h] == e[h]
    requires forall h :: h in e && h != Next(ab) ==> h in g1 && g1[h] == e[h]
    requires Next(ab) in g1 && g1[Next(ab)] == (p, b)
    requires forall h :: h in l1 ==> h in e || (h in g1 && h in f && h.poly != ab.poly && g1[h] == f[h])
    requires Reversing(g1, l1)
    ensures Reversing(FoldedBefore(f, ab, a, b, p), l1)
  {
    AroundTriangle(ab);
    hide Next, Prev, Reversing;
    ReversingSame(g1, FoldedBefore(f, ab, a, b, p), l1);
  }

  lemma FoldedFree(c: Corners, l: Links, l1: Links, ab: HalfEdge, q: nat, q2: nat)
    requires Whole(c) && LinksOk(c, l) && ab in c && Edges(q) !! c.Keys && Edges(q2) !! c.Keys && q != q2
    requires l1.Keys == l.Keys + UpperInner(ab, q) + if Next(ab) in l then {HalfEdge(q, 1)} else {}
    ensures Edges(q2) !! l1.Keys && HalfEdge(q, 0) !in l1 && HalfEdge(q2, 1) !in l1 && ab.poly != q && ab.poly != q2
    ensures Edges(q) !! l.Keys && l.Keys <= c.Keys
  {
    hide Whole, LinksOk, UpperInner, Next;
    NotNew(c, ab, q); NotNew(c, ab, q2);
    LinkKeys(c, l, Edges(q));
    LinkKeys(c, l, Edges(q2));
    StillFree(l, l1, ab, q, q2);
    forall h | h in l ensures h in c { LinkedInMesh(c, l, h); LinkedInMesh(c, l, l[h]); }
  }

  /** Splitting an edge that is linked to the one before it in its own triangle. */
  lemma SplitFoldedOk(c: Corners, l: Links, ab: HalfEdge, q: nat, q2: nat, p: Vert)
    requires Whole(c) && LinksOk(c, l) && ab in c && ab in l && l[ab] == Prev(ab)
    requires Edges(q) !! c.Keys && Edges(q2) !! c.Keys && q != q2
    ensures Next(ab) in c && Prev(ab) in c && Prev(Prev(ab)) in UpperCorners(c, ab, q, p)
    ensures var c2 := LowerCorners(UpperCorners(c, ab, q, p), Prev(ab), c[Next(ab)], q2, p);
            var l1 := UpperLinks(l, ab, q);
            var l2 := LowerLinks(l1, Prev(ab), q, q2);
            && Whole(c2) && LinksOk(c2, l2) && LowerFree(c2, l1, Prev(ab), q, q2)
            && Paired(l2, ab, Prev(ab)) && FoldedPaired(l2, ab, q, q2)
            && Renamed(l, l2, UpperRename(ab, q), FoldedInner(ab, q, q2))
  {
    hide Whole, LinksOk, Reversing, Renamed, UpperLinks, LowerLinks, UpperCorners, LowerCorners, UpperEnds, EndsOf,
      FoldedBefore, UpperRename, UpperInner, FoldedInner, FoldedPaired, MoveFree, MoveLink, Linked, Next, Prev, Paired,
      Edges, LowerFree;
    UpperCornersKeys(c, ab, q, p);
    WholeNext(c, ab);
    AroundTriangle(ab);
    FoldedCornersMeet(c, l, ab);
    FoldedEnds(c, ab, q, q2, p);
    var l1, c2 := UpperLinks(l, ab, q), LowerCorners(UpperCorners(c, ab, q, p), Prev(ab), c[Next(ab)], q2, p);
    var a, b, f, l2 := c[ab], c[Next(ab)], EndsOf(c2), LowerLinks(l1, Prev(ab), q, q2);
    var g := FoldedBefore(f, ab, a, b, p);
    FoldedBeforeIs(f, ab, a, b, p);
    FoldedStart(c, l, ab, q, q2, p);
    NewEdges(q); NewEdges(q2);
    FoldedLinksOk(g, l, l1, ab, q, q2, b, p);
    FoldedLowerFree(c2, g, l1, ab, q, q2);
    FoldedPairKept(l, l2, ab, q, q2);
    FoldedAfter(g, f, l2, ab, a, b, p);
    LinksOkReversing(c2, l2);
  }

  // What holds when the lower half starts.
  lemma FoldedStart(c: Corners, l: Links, ab: HalfEdge, q: nat, q2: nat, p: Vert)
    requires Whole(c) && LinksOk(c, l) && ab in c && ab in l && l[ab] == Prev(ab)
    requires Edges(q) !! c.Keys && Edges(q2) !! c.Keys && q != q2
    requires Next(ab) in c && Prev(ab) in c && Prev(Prev(ab)) in UpperCorners(c, ab, q, p)
    requires Whole(LowerCorners(UpperCorners(c, ab, q, p), Prev(ab), c[Next(ab)], q2, p))
    ensures var c2 := LowerCorners(UpperCorners(c, ab, q, p), Prev(ab), c[Next(ab)], q2, p);
            Reversing(FoldedBefore(EndsOf(c2), ab, c[ab], c[Next(ab)], p), UpperLinks(l, ab, q))
    ensures var l1 := UpperLinks(l, ab, q);
            && Edges(q2) !! l1.Keys && HalfEdge(q, 0) !in l1 && HalfEdge(q2, 1) !in l1
            && ab.poly != q && ab.poly != q2 && UpperPaired(l1, ab, q)
            && Renamed(l, l1, UpperRename(ab, q), UpperInner(ab, q))
  {
    hide Whole, LinksOk, Reversing, Renamed, UpperLinks, UpperCorners, LowerCorners, UpperEnds, EndsOf, UpperRename,
      FoldedBefore, UpperPaired, Edges, MoveLink, Next, Prev;
    WholeNext(c, ab);
    UpperCornersOk(c, ab, q, p);
    FoldedCornersMeet(c, l, ab);
    FoldedEnds(c, ab, q, q2, p);
    UpperReversing(c, l, ab, q, p);
    UpperLinksPaired(l, ab, q);
    NewEdges(q);
    var l1, c2 := UpperLinks(l, ab, q), LowerCorners(UpperCorners(c, ab, q, p), Prev(ab), c[Next(ab)], q2, p);
    FoldedFree(c, l, l1, ab, q, q2);
    FoldedReversing(EndsOf(c), UpperEnds(c, ab, q, p)[Next(ab) := (p, c[Prev(ab)])], EndsOf(c2), l1, ab, q, c[ab],
                    c[Next(ab)], p);
  }

  lemma FoldedLowerFree(c2: Corners, g: Ends, l1: Links, ab: HalfEdge, q: nat, q2: nat)
    requires Reversing(g, l1) && g.Keys <= c2.Keys && ab.ith < 3 && Next(ab) in g && ab.poly != q2 && q != q2
    requires Edges(q) + Edges(q2) <= g.Keys && HalfEdge(q2, 1) !in l1
    requires var m1 := MoveLink(l1, Next(ab), HalfEdge(q2, 1));
             && {Next(ab), HalfEdge(q2, 0)} !! m1.Keys
             && {HalfEdge(q, 0), HalfEdge(q2, 2)} !! Linked(m1, Next(ab), HalfEdge(q2, 0)).Keys
    ensures LowerFree(c2, l1, Prev(ab), q, q2)
  {
    AroundTriangle(ab);
    hide Reversing, MoveFree, MoveLink, Linked, Next, Prev;
    NewEdges(q); NewEdges(q2);
    MoveFreeOk(c2, g, l1, Next(ab), HalfEdge(q2, 1));
  }

  // The two halves of the edge get their new end points together.
  lemma FoldedAfter(g: Ends, f: Ends, l2: Links, ab: HalfEdge, a: Vert, b: Vert, p: Vert)
    requires Reversing(g[Next(ab) := (p, p)], l2) && ab in l2 && l2[ab] == Prev(ab)
    requires f == g[Next(ab) := (p, p)][ab := (a, p)][Prev(ab) := (p, a)]
    ensures Reversing(f, l2) && Paired(l2, ab, Prev(ab))
  {
    hide Reversing, Next, Prev;
    PairedBack(g[Next(ab) := (p, p)], l2, ab, Prev(ab));
    ReversingPair(g[Next(ab) := (p, p)], l2, ab, Prev(ab), (a, p));
  }

  lemma FoldedPairKept(l: Links, l2: Links, ab: HalfEdge, q: nat, q2: nat)
    requires ab in l && l[ab] == Prev(ab) && ab.ith < 3
    requires Renamed(l, l2, UpperRename(ab, q), FoldedInner(ab, q, q2))
    ensures ab in l2 && l2[ab] == Prev(ab)
  {
    AroundTriangle(ab);
    assert RenamedAt(l, l2, UpperRename(ab, q), ab);
  }

  lemma FoldedCornersMeet(c: Corners, l: Links, ab: HalfEdge)
    requires Whole(c) && LinksOk(c, l) && ab in l && ab in c && l[ab] == Prev(ab)
    ensures Next(ab) in c && Prev(ab) in c && c[Next(ab)] == c[Prev(ab)]
  {
    WholeNext(c, ab);
    LinkReversed(c, l, ab);
  }
  /** When the edge is linked to the one after it in its own triangle, the upper half links it to the new triangle,
    * which the lower half then takes for the triangle below: it links p-b to p-d, and when it comes to link p-b with
    * b-p it finds it taken. */
  lemma SplitTurned(c: Corners, l: Links, ab: HalfEdge, q: nat, q2: nat, p: Vert)
    requires Whole(c) && LinksOk(c, l) && ab in c && ab in l && l[ab] == Next(ab)
    requires Edges(q) !! c.Keys && Edges(q2) !! c.Keys && q != q2
    ensures Next(ab) in c && Prev(ab) in c && HalfEdge(q, 0) in UpperCorners(c, ab, q, p)
    ensures var c2 := LowerCorners(UpperCorners(c, ab, q, p), HalfEdge(q, 1), c[Next(ab)], q2, p);
            var l1 := UpperLinks(l, ab, q);
            var m1 := MoveLink(l1, HalfEdge(q, 0), HalfEdge(q2, 1));
            && Edges(q) + Edges(q2) <= c2.Keys && MoveFree(c2, l1, HalfEdge(q, 0), HalfEdge(q2, 1))
            && {HalfEdge(q, 0), HalfEdge(q2, 0)} !! m1.Keys
            && HalfEdge(q, 0) in Linked(m1, HalfEdge(q, 0), HalfEdge(q2, 0))
  {
    hide Whole, LinksOk, Reversing, Renamed, UpperLinks, UpperCorners, UpperEnds, EndsOf, UpperRename, UpperInner, Next,
      Prev;
    WholeNext(c, ab);
    UpperCornersOk(c, ab, q, p);
    UpperReversing(c, l, ab, q, p);
    NewEdges(q); NewEdges(q2);
    FoldedFree(c, l, UpperLinks(l, ab, q), ab, q, q2);
    var c1 := UpperCorners(c, ab, q, p);
    NewFresh(c, c1, q, q2);
    HalfSplitKeys(c1, HalfEdge(q, 1), q2, p, c1[HalfEdge(q, 0)], c[Next(ab)]);
  }

  lemma HalfSplitKeys(c: Corners, at: HalfEdge, q: nat, p: Vert, v1: Vert, v2: Vert)
    requires Whole(c) && at in c && Edges(q) !! c.Keys
    ensures HalfSplit(c, at, q, p, v1, v2).Keys == c.Keys + Edges(q)
  {
    hide Whole;
    HalfSplitEnds(c, at, q, p, v1, v2);
  }

  /** What the checks of `unlink()` and `link()` find in the lower half; `taken` says that the last one finds p-b linked
    * already, and otherwise the links are valid afterwards. */
  ghost predicate LowerStaged(c1: Corners, l1: Links, ba: HalfEdge, b: Vert, q: nat, q2: nat, p: Vert, taken: bool) {
    && ba in c1 && Prev(ba) in c1 && Prev(ba) != HalfEdge(q2, 0)
    && var c2, m1 := LowerCorners(c1, ba, b, q2, p), MoveLink(l1, Prev(ba), HalfEdge(q2, 1));
       && MoveFree(c2, l1, Prev(ba), HalfEdge(q2, 1)) && {Prev(ba), HalfEdge(q2, 0)} !! m1.Keys
       && HalfEdge(q2, 0) in c2 && HalfEdge(q, 0) in c2 && HalfEdge(q2, 2) in c2
       && var m2 := Linked(m1, Prev(ba), HalfEdge(q2, 0));
          && (taken <==> HalfEdge(q, 0) in m2)
          && (!taken ==> HalfEdge(q2, 2) !in m2 && LinksOk(c2, LowerLinks(l1, ba, q, q2)))
  }

  lemma FreeStaged(c1: Corners, l1: Links, ba: HalfEdge, b: Vert, q: nat, q2: nat, p: Vert)
    requires ba in c1 && Prev(ba) in c1 && Prev(ba).poly != q2
    requires LowerFree(LowerCorners(c1, ba, b, q2, p), l1, ba, q, q2)
    requires LinksOk(LowerCorners(c1, ba, b, q2, p), LowerLinks(l1, ba, q, q2))
    ensures LowerStaged(c1, l1, ba, b, q, q2, p, false)
  {
    hide LowerCorners, MoveLink, MoveFree, Linked, LinksOk, LowerLinks, Prev;
  }

  /** All cases of the lower half: only an edge linked to the one after it in its own triangle meets a taken end. */
  lemma LowerStage(c: Corners, l: Links, ab: HalfEdge, q: nat, q2: nat, p: Vert)
    requires Whole(c) && LinksOk(c, l) && ab in c && ab in l
    requires Edges(q) !! c.Keys && Edges(q2) !! c.Keys && q != q2
    ensures ab in UpperLinks(l, ab, q) && Next(ab) in c && Prev(ab) in c
    ensures var ba, c1, l1 := UpperLinks(l, ab, q)[ab], UpperCorners(c, ab, q, p), UpperLinks(l, ab, q);
            && (l[ab] != Next(ab) ==> ba == l[ab])
            && LowerStaged(c1, l1, ba, c[Next(ab)], q, q2, p, l[ab] == Next(ab))
  {
    hide Whole, LinksOk, UpperLinks, LowerLinks, UpperCorners, SplitCorners, LowerCorners, LowerStaged, UpperFree,
      LowerFree, MoveFree, MoveLink, Linked, Edges, UpperRename, UpperInner, FoldedInner, FoldedPaired, Paired, Renamed,
      Next, Prev, LinksIn, EndsOf;
    WholeNext(c, ab);
    UpperStage(c, l, ab, q, p);
    OtherEdge(c, l, ab);
    if l[ab] == Next(ab) {
      TurnedStaged(c, l, ab, q, q2, p);
    } else if l[ab] == Prev(ab) {
      FoldedStaged(c, l, ab, q, q2, p);
    } else {
      InnerStaged(c, l, ab, q, q2, p);
    }
  }

  lemma OtherEdge(c: Corners, l: Links, ab: HalfEdge)
    requires Whole(c) && LinksOk(c, l) && ab in c && ab in l
    ensures l[ab].poly != ab.poly || l[ab] == Next(ab) || l[ab] == Prev(ab)
  {
    assert LinkOk(c, l, ab);
    WholeNext(c, ab);
    WholeNext(c, l[ab]);
  }

  lemma TurnedStaged(c: Corners, l: Links, ab: HalfEdge, q: nat, q2: nat, p: Vert)
    requires Whole(c) && LinksOk(c, l) && ab in c && ab in l && l[ab] == Next(ab)
    requires Edges(q) !! c.Keys && Edges(q2) !! c.Keys && q != q2 && Next(ab) in c && Prev(ab) in c
    ensures LowerStaged(UpperCorners(c, ab, q, p), UpperLinks(l, ab, q), HalfEdge(q, 1), c[Next(ab)], q, q2, p, true)
  {
    hide Whole, LinksOk, UpperLinks, LowerLinks, UpperCorners, LowerCorners, MoveFree, MoveLink, Linked, Next, EndsOf,
      UpperEnds;
    UpperCornersOk(c, ab, q, p);
    SplitTurned(c, l, ab, q, q2, p);
    NewEdges(q); NewEdges(q2);
    assert Prev(HalfEdge(q, 1)) == HalfEdge(q, 0);
  }

  lemma FoldedStaged(c: Corners, l: Links, ab: HalfEdge, q: nat, q2: nat, p: Vert)
    requires Whole(c) && LinksOk(c, l) && ab in c && ab in l && l[ab] == Prev(ab)
    requires Edges(q) !! c.Keys && Edges(q2) !! c.Keys && q != q2 && Next(ab) in c && Prev(ab) in c
    ensures LowerStaged(UpperCorners(c, ab, q, p), UpperLinks(l, ab, q), Prev(ab), c[Next(ab)], q, q2, p, false)
  {
    hide Whole, LinksOk, UpperLinks, LowerLinks, UpperCorners, LowerCorners, LowerStaged, LowerFree, Renamed, EndsOf,
      UpperEnds, UpperRename, FoldedInner, FoldedPaired, Paired, Edges, Next, Prev;
    WholeNext(c, ab);
    AroundTriangle(ab);
    NotNew(c, ab, q2);
    UpperCornersOk(c, ab, q, p);
    SplitFoldedOk(c, l, ab, q, q2, p);
    FreeStaged(UpperCorners(c, ab, q, p), UpperLinks(l, ab, q), Prev(ab), c[Next(ab)], q, q2, p);
  }

  lemma InnerStaged(c: Corners, l: Links, ab: HalfEdge, q: nat, q2: nat, p: Vert)
    requires Whole(c) && LinksOk(c, l) && ab in c && ab in l && l[ab].poly != ab.poly
    requires Edges(q) !! c.Keys && Edges(q2) !! c.Keys && q != q2 && Next(ab) in c && Prev(ab) in c
    ensures LowerStaged(UpperCorners(c, ab, q, p), UpperLinks(l, ab, q), l[ab], c[Next(ab)], q, q2, p, false)
  {
    hide Whole, LinksOk, UpperLinks, LowerLinks, UpperCorners, SplitCorners, LowerCorners, LowerStaged, LowerFree,
      Renamed, UpperRename, UpperInner, LowerInner, UpperPaired, LowerPaired, Paired, Edges, Next, Prev;
    var ba := l[ab];
    LinkedInMesh(c, l, ab);
    InnerCorners(c, l, ab, q, q2, p);
    SplitInnerOk(c, l, ab, q, q2, p);
    NotNew(c, ba, q2);
    NextPoly(ba);
    FreeStaged(UpperCorners(c, ab, q, p), UpperLinks(l, ab, q), ba, c[Next(ab)], q, q2, p);
  }

  /** With two different polygons the corners are those of the picture. */
  lemma InnerCorners(c: Corners, l: Links, ab: HalfEdge, q: nat, q2: nat, p: Vert)
    requires Whole(c) && LinksOk(c, l) && ab in c && ab in l && l[ab].poly != ab.poly
    requires Edges(q) !! c.Keys && Next(ab) in c && Prev(ab) in c
    ensures var ba, c1 := l[ab], UpperCorners(c, ab, q, p);
            && ba in c && ba in c1 && Prev(ba) in c && Prev(ba) in c1
            && LowerCorners(c1, ba, c[Next(ab)], q2, p) == SplitCorners(c, ab, ba, q, q2, p)
  {
    hide Whole, LinksOk, UpperCorners, Next, Prev;
    LinkedInMesh(c, l, ab);
    UpperKeeps(c, l[ab], ab, q, p);
  }

  /** The lower half of `split_edge`, after the upper half; `stuck` when the last link finds p-b linked already. */
  method SplitLower(m: Mesh, ab: HalfEdge, b: Vert, q: nat, p: Vert, ghost c: Corners, ghost l: Links)
    returns (q2: nat, stuck: bool)
    requires Whole(c) && LinksOk(c, l) && ab in c && ab in l && Edges(q) !! c.Keys
    requires Stored(m.domain, m.corner, m.link, m.vertPolys) && p in m.vertPolys
    requires Next(ab) in c && Prev(ab) in c && b == c[Next(ab)] && b in m.vertPolys
    requires m.corner == UpperCorners(c, ab, q, p) && m.link == UpperLinks(l, ab, q)
    modifies m
    ensures Edges(q2) !! c.Keys && q2 != q
    ensures stuck <==> l[ab] == Next(ab)
    ensures stuck ==> HalfEdge(q, 0) in m.link
    ensures !stuck ==> m.Valid() && Prev(l[ab]) in UpperCorners(c, ab, q, p)
                       && m.corner == LowerCorners(UpperCorners(c, ab, q, p), l[ab], b, q2, p)
                       && m.link == LowerLinks(UpperLinks(l, ab, q), l[ab], q, q2)
  {
    hide Stored, Whole, LinksOk, MoveLink, MoveFree, Linked, WithPoly, Polys, LinksIn, UpperLinks, UpperCorners, EndsOf;
    ghost var c1, l1 := m.corner, m.link;
    UpperStage(c, l, ab, q, p);
    UpperCornersOk(c, ab, q, p);
    LowerBefore(c, l, ab, q, p);
    var ba := m.link[ab];
    CornerVerts(m.domain, m.corner, m.link, m.vertPolys, ba);
    var d := m.corner[Prev(ba)];
    q2 := m.Add(p, d, b);
    FreshEdges(c1, q2);
    FreshBoth(c, c1, q, q2);
    WithPolyWhole(c1, q2, p, d, b);
    m.ChangeVert(ba, p);
    LowerStage(c, l, ab, q, q2, p);
    MoveLinkOf(m, Prev(ba), HalfEdge(q2, 1));
    m.Link(Prev(ba), HalfEdge(q2, 0));
    stuck := HalfEdge(q, 0) in m.link;
    if !stuck {
      m.Link(HalfEdge(q, 0), HalfEdge(q2, 2));
      StoredRelinked(m.domain, m.corner, l1, m.link, m.vertPolys);
    }
  }

  // The half-edge across the edge after the upper half.
  lemma LowerBefore(c: Corners, l: Links, ab: HalfEdge, q: nat, p: Vert)
    requires Whole(c) && LinksOk(c, l) && ab in c && ab in l && Edges(q) !! c.Keys && Next(ab) in c && Prev(ab) in c
    ensures ab in UpperLinks(l, ab, q) && UpperLinks(l, ab, q)[ab] in UpperCorners(c, ab, q, p)
  {
    hide Whole, LinksOk, UpperLinks, UpperCorners, EndsOf, UpperFree;
    UpperStage(c, l, ab, q, p);
  }

  lemma FreshBoth(c: Corners, c1: Corners, q: nat, q2: nat)
    requires c1.Keys == c.Keys + Edges(q) && Edges(q2) !! c1.Keys
    ensures Edges(q2) !! c.Keys && q2 != q
  {
    NewEdges(q);
  }

  /** `split_edge`: the edge `ab` is split at the vertex `p`; each of the (one or two) triangles at it becomes two.
    * Links stay mutual and reversed, every old link is kept under the new place of its half-edge, the new inner
    * half-edges are linked in pairs, and the vertex-to-corner links stay the inverse of the corners. It gets
    * `stuck`, at a half-edge that is linked already, exactly when the edge is linked to the one after it in its own
    * triangle. */
  method SplitEdge(m: Mesh, ab: HalfEdge, p: Vert) returns (pbc: nat, pdb: Option<nat>, stuck: bool)
    requires m.Valid() && ab in m.corner && p in m.vertPolys
    modifies m
    ensures stuck <==> ab in old(m.link) && old(m.link)[ab] == Next(ab)
    ensures stuck ==> HalfEdge(pbc, 0) in m.link
    ensures !stuck ==> m.Valid()
    ensures Next(ab) in old(m.corner) && Prev(ab) in old(m.corner) && Edges(pbc) !! old(m.corner).Keys
    ensures pdb.Some? <==> ab in old(m.link)
    ensures pdb.None? ==>
      && m.corner == UpperCorners(old(m.corner), ab, pbc, p)
      && m.link == UpperLinks(old(m.link), ab, pbc)
      && Renamed(old(m.link), m.link, UpperRename(ab, pbc), UpperInner(ab, pbc))
      && ab !in m.link && UpperPaired(m.link, ab, pbc)
    ensures pdb.Some? ==> Edges(pdb.value) !! old(m.corner).Keys && pdb.value != pbc
    ensures pdb.Some? && !stuck ==>
      var ba := old(m.link)[ab];
      && m.link == LowerLinks(UpperLinks(old(m.link), ab, pbc), ba, pbc, pdb.value) && Paired(m.link, ab, ba)
      && if ba == Prev(ab) then
           && Prev(ba) in UpperCorners(old(m.corner), ab, pbc, p)
           && m.corner
              == LowerCorners(UpperCorners(old(m.corner), ab, pbc, p), ba, old(m.corner)[Next(ab)], pdb.value, p)
           && FoldedPaired(m.link, ab, pbc, pdb.value)
           && Renamed(old(m.link), m.link, UpperRename(ab, pbc), FoldedInner(ab, pbc, pdb.value))
         else
           && ba.poly != ab.poly && Prev(ba) in old(m.corner)
           && m.corner == SplitCorners(old(m.corner), ab, ba, pbc, pdb.value, p)
           && UpperPaired(m.link, ab, pbc) && LowerPaired(m.link, ba, pbc, pdb.value)
           && Renamed(old(m.link), m.link, UpperRename(ab, pbc)[Prev(ba) := HalfEdge(pdb.value, 1)],
                      UpperInner(ab, pbc) + LowerInner(ba, pbc, pdb.value))
  {
    hide Stored, Whole, LinksOk, Renamed, UpperLinks, LowerLinks, HalfSplit, UpperCorners, SplitCorners, LowerCorners,
      UpperRename, UpperInner, LowerInner, FoldedInner, UpperPaired, LowerPaired, FoldedPaired, Paired, Edges, Next,
      Prev, UpperFree, LowerFree, LinksIn, EndsOf;
    m.ValidParts();
    ghost var c, l := m.corner, m.link;
    CornerVerts(m.domain, c, l, m.vertPolys, ab);
    var b := m.corner[Next(ab)];
    pbc := SplitUpper(m, ab, p);
    stuck := false;
    UpperStage(c, l, ab, pbc, p);
    if ab in m.link {
      var q2: nat;
      q2, stuck := SplitLower(m, ab, b, pbc, p, c, l);
      pdb := Some(q2);
      OtherEdge(c, l, ab);
      if l[ab] == Prev(ab) {
        AroundTriangle(ab);
        SplitFoldedOk(c, l, ab, pbc, q2, p);
      } else if !stuck {
        InnerCorners(c, l, ab, pbc, q2, p);
        SplitInnerOk(c, l, ab, pbc, q2, p);
      }
    } else {
      SplitBoundaryOk(c, l, ab, pbc, p);
      pdb := None;
    }
  }

  // ---- a triangle on which the split gets stuck ----------------------------------------

  /** The triangle (0, 1, 0), whose edges 0-1 and 1-0 are linked together, and a vertex 2. */
  function TurnedCorners(): Corners {
    map[HalfEdge(0, 0) := 0, HalfEdge(0, 1) := 1, HalfEdge(0, 2) := 0]
  }

  function TurnedLinks(): Links {
    map[HalfEdge(0, 0) := HalfEdge(0, 1), HalfEdge(0, 1) := HalfEdge(0, 0)]
  }

  function TurnedVerts(): VertPolys {
    WithPolyCorners(map[0 := multiset{}, 1 := multiset{}, 2 := multiset{}], 0, 0, 1, 0)
  }

  lemma TurnedStored()
    ensures Stored(1, TurnedCorners(), TurnedLinks(), TurnedVerts()) && LinksOk(TurnedCorners(), TurnedLinks())
  {
    hide Stored, TurnedVerts;
    TurnedUnlinked();
    TurnedLinked();
    StoredRelinked(1, TurnedCorners(), map[], TurnedLinks(), TurnedVerts());
  }

  lemma TurnedLinked()
    ensures LinksOk(TurnedCorners(), TurnedLinks())
  {
  }

  lemma TurnedUnlinked()
    ensures Stored(1, TurnedCorners(), map[], TurnedVerts())
  {
    hide Stored, WithPolyCorners, WithPoly, Polys, TurnedCorners;
    var vp: VertPolys := map[0 := multiset{}, 1 := multiset{}, 2 := multiset{}];
    NothingStored(vp);
    TurnedAdded();
    AddStored(0, map[], map[], vp, 0, 0, 1, 0);
  }

  lemma TurnedAdded()
    ensures WithPoly(map[], 0, 0, 1, 0) == TurnedCorners()
  {
  }

  /** The failing run: the edge 0-1 is split at the vertex 2, which is neither of its ends. */
  method SplitStuck() returns (m: Mesh, pbc: nat, pdb: Option<nat>, stuck: bool)
    ensures stuck && HalfEdge(pbc, 0) in m.link
  {
    hide Stored, LinksOk;
    TurnedStored();
    m := new Mesh(1, TurnedCorners(), TurnedLinks(), TurnedVerts());
    pbc, pdb, stuck := SplitEdge(m, HalfEdge(0, 0), 2);
  }
}
