/** The half-edge triangle mesh: each polygon has three corners and three half-edges, and
    a half-edge may be linked to the half-edge on the other side of the same segment. */
module HalfEdges {
  type Vert = nat

  /** A `H_PolyEdge` and, with the same two numbers, the `H_PolyVert` at its start. */
  datatype HalfEdge = HalfEdge(poly: nat, ith: nat)

  type Corners = map<HalfEdge, Vert>
  type Links = map<HalfEdge, HalfEdge>
  type VertPolys = map<Vert, multiset<HalfEdge>>

  function Next(h: HalfEdge): HalfEdge {
    HalfEdge(h.poly, (h.ith + 1) % 3)
  }

  function Prev(h: HalfEdge): HalfEdge {
    HalfEdge(h.poly, (333333333 + h.ith - 1) % 3)
  }

  /** Every corner belongs to a whole triangle. */
  ghost predicate Whole(c: Corners) {
    forall h :: h in c ==>
      && h.ith < 3
      && HalfEdge(h.poly, 0) in c && HalfEdge(h.poly, 1) in c && HalfEdge(h.poly, 2) in c
  }

  lemma WholeNext(c: Corners, h: HalfEdge)
    requires Whole(c) && h in c
    ensures h.ith < 3 && Next(h) in c && Prev(h) in c
  {
  }

  lemma NextPrev(h: HalfEdge)
    requires h.ith < 3
    ensures Prev(Next(h)) == h && Next(Prev(h)) == h && Next(Next(h)) == Prev(h)
    ensures Next(h) != h && Prev(h) != h && Next(h) != Prev(h)
  {
  }

  function Start(c: Corners, h: HalfEdge): Vert
    requires h in c
  {
    c[h]
  }

  function End(c: Corners, h: HalfEdge): Vert
    requires Next(h) in c
  {
    c[Next(h)]
  }

  /** Edge links are mutual, between two different half-edges of the mesh, and the two run
      in opposite directions between the same two vertices. */
  ghost predicate LinksOk(c: Corners, l: Links) {
    forall h :: h in l ==> LinkOk(c, l, h)
  }

  ghost predicate LinkOk(c: Corners, l: Links, h: HalfEdge)
    requires h in l
  {
    && h in c && l[h] in l && l[l[h]] == h && l[h] != h
    && Next(h) in c && l[h] in c && Start(c, l[h]) == End(c, h)
  }

  lemma LinkReversed(c: Corners, l: Links, h: HalfEdge)
    requires Whole(c) && LinksOk(c, l) && h in l
    ensures l[h] in l && Next(l[h]) in c && Start(c, l[h]) == End(c, h) && End(c, l[h]) == Start(c, h)
  {
    assert LinkOk(c, l, h) && LinkOk(c, l, l[h]);
  }

  /** Vertex-to-corner links are the exact inverse of the corner-to-vertex table. */
  ghost predicate VertPolysOk(c: Corners, vp: VertPolys) {
    && (forall h :: h in c ==> c[h] in vp)
    && (forall v, h :: v in vp ==> vp[v][h] == if h in c && c[h] == v then 1 else 0)
  }

  function Unlinked(c: Corners, l: Links): set<HalfEdge> {
    set h | h in c && h !in l
  }

  function Polys(c: Corners): set<nat> {
    set h | h in c :: h.poly
  }

  /** The three half-edges of polygon `p`. */
  function Edges(p: nat): set<HalfEdge> {
    {HalfEdge(p, 0), HalfEdge(p, 1), HalfEdge(p, 2)}
  }

  // ---- the mutators, on values -------------------------------------------------------

  function Linked(l: Links, a: HalfEdge, b: HalfEdge): Links {
    l[a := b][b := a]
  }

  function UnlinkedAt(l: Links, a: HalfEdge): Links
    requires a in l
  {
    l - {a, l[a]}
  }

  function WithPoly(c: Corners, p: nat, v0: Vert, v1: Vert, v2: Vert): Corners {
    c[HalfEdge(p, 0) := v0][HalfEdge(p, 1) := v1][HalfEdge(p, 2) := v2]
  }

  function WithCorner(vp: VertPolys, v: Vert, h: HalfEdge): (w: VertPolys)
    requires v in vp
    ensures w.Keys == vp.Keys
  {
    vp[v := vp[v] + multiset{h}]
  }

  function WithoutCorner(vp: VertPolys, v: Vert, h: HalfEdge): (w: VertPolys)
    requires v in vp
    ensures w.Keys == vp.Keys
  {
    vp[v := vp[v] - multiset{h}]
  }

  lemma WithoutCornerCount(vp: VertPolys, v: Vert, h: HalfEdge, u: Vert, g: HalfEdge)
    requires v in vp && u in vp && vp[v][h] == 1
    ensures WithoutCorner(vp, v, h)[u][g] == if u == v && g == h then 0 else vp[u][g]
  {
  }

  lemma WithCornerCount(vp: VertPolys, v: Vert, h: HalfEdge, u: Vert, g: HalfEdge)
    requires v in vp && u in vp
    ensures WithCorner(vp, v, h)[u][g] == vp[u][g] + if u == v && g == h then 1 else 0
  {
  }

  lemma ChangeVertKeeps(c: Corners, vp: VertPolys, h: HalfEdge, v: Vert)
    requires VertPolysOk(c, vp) && h in c && v in vp
    ensures c[h] in vp
    ensures VertPolysOk(c[h := v], WithCorner(WithoutCorner(vp, c[h], h), v, h))
  {
    hide WithoutCorner, WithCorner;
    var vp1 := WithoutCorner(vp, c[h], h);
    var vp2, c2 := WithCorner(vp1, v, h), c[h := v];
    forall u, g | u in vp2 ensures vp2[u][g] == if g in c2 && c2[g] == u then 1 else 0 {
      WithoutCornerCount(vp, c[h], h, u, g);
      WithCornerCount(vp1, v, h, u, g);
    }
  }

  lemma AddCornerKeeps(c: Corners, vp: VertPolys, h: HalfEdge, v: Vert)
    requires VertPolysOk(c, vp) && h !in c && v in vp
    ensures VertPolysOk(c[h := v], WithCorner(vp, v, h))
  {
    hide WithCorner;
    var vp2, c2 := WithCorner(vp, v, h), c[h := v];
    forall u, g | u in vp2 ensures vp2[u][g] == if g in c2 && c2[g] == u then 1 else 0 {
      WithCornerCount(vp, v, h, u, g);
    }
  }

  lemma WithPolyWhole(c: Corners, p: nat, v0: Vert, v1: Vert, v2: Vert)
    requires Whole(c) && p !in Polys(c)
    ensures Edges(p) !! c.Keys
    ensures Whole(WithPoly(c, p, v0, v1, v2)) && WithPoly(c, p, v0, v1, v2).Keys == c.Keys + Edges(p)
  {
    forall h | h in c ensures h !in Edges(p) {
      assert h.poly in Polys(c);
    }
  }

  /** What the storage itself guarantees, whatever the links are. */
  ghost predicate Stored(domain: nat, c: Corners, l: Links, vp: VertPolys) {
    && Whole(c)
    && (forall h :: h in c ==> h.poly < domain)
    && (forall h :: h in l ==> h in c && l[h] in c)
    && VertPolysOk(c, vp)
  }

  lemma ChangeVertStored(domain: nat, c: Corners, l: Links, vp: VertPolys, h: HalfEdge, v: Vert)
    requires Stored(domain, c, l, vp) && h in c && v in vp
    ensures c[h] in vp
    ensures Stored(domain, c[h := v], l, WithCorner(WithoutCorner(vp, c[h], h), v, h))
  {
    hide VertPolysOk, WithCorner, WithoutCorner;
    ChangeVertKeeps(c, vp, h, v);
  }

  /** The vertex-to-corner links after the three `emplace` calls of `add`. */
  function WithPolyCorners(vp: VertPolys, p: nat, v0: Vert, v1: Vert, v2: Vert): (w: VertPolys)
    requires {v0, v1, v2} <= vp.Keys
    ensures w.Keys == vp.Keys
  {
    WithCorner(WithCorner(WithCorner(vp, v0, HalfEdge(p, 0)), v1, HalfEdge(p, 1)), v2, HalfEdge(p, 2))
  }

  lemma AddStored(domain: nat, c: Corners, l: Links, vp: VertPolys, p: nat, v0: Vert, v1: Vert, v2: Vert)
    requires Stored(domain, c, l, vp) && p !in Polys(c) && {v0, v1, v2} <= vp.Keys
    ensures Stored(if domain <= p then p + 1 else domain, WithPoly(c, p, v0, v1, v2), l,
                   WithPolyCorners(vp, p, v0, v1, v2))
  {
    hide VertPolysOk, WithPolyCorners, Polys, WithPoly, Whole;
    WithPolyWhole(c, p, v0, v1, v2);
    WithPolyCornersOk(c, vp, p, v0, v1, v2);
  }

  lemma WithPolyCornersOk(c: Corners, vp: VertPolys, p: nat, v0: Vert, v1: Vert, v2: Vert)
    requires VertPolysOk(c, vp) && Edges(p) !! c.Keys && {v0, v1, v2} <= vp.Keys
    ensures VertPolysOk(WithPoly(c, p, v0, v1, v2), WithPolyCorners(vp, p, v0, v1, v2))
  {
    var e0, e1, e2 := HalfEdge(p, 0), HalfEdge(p, 1), HalfEdge(p, 2);
    var c1 := c[e0 := v0];
    var c2 := c1[e1 := v1];
    var vp1 := WithCorner(vp, v0, e0);
    hide VertPolysOk, WithCorner;
    AddCornerKeeps(c, vp, e0, v0);
    AddCornerKeeps(c1, vp1, e1, v1);
    AddCornerKeeps(c2, WithCorner(vp1, v1, e1), e2, v2);
  }

  lemma FreshPolyExists(domain: nat, c: Corners, l: Links, vp: VertPolys)
    requires Stored(domain, c, l, vp)
    ensures domain !in Polys(c)
  {
  }

  lemma StoredRelinked(domain: nat, c: Corners, l: Links, l': Links, vp: VertPolys)
    requires Stored(domain, c, l, vp) && LinksOk(c, l')
    ensures Stored(domain, c, l', vp)
  {
    hide VertPolysOk, Whole;
    forall h | h in l' ensures h in c && l'[h] in c { assert LinkOk(c, l', h); }
  }

  // A mesh without polygons.
  lemma NothingStored(vp: VertPolys)
    requires forall v :: v in vp ==> vp[v] == multiset{}
    ensures Stored(0, map[], map[], vp) && 0 !in Polys(map[])
  {
  }

  class Mesh {
    var domain: nat
    var corner: Corners
    var link: Links
    var vertPolys: VertPolys

    ghost predicate Valid()
      reads this
    {
      Stored(domain, corner, link, vertPolys) && LinksOk(corner, link)
    }

    /** A mesh with given tables. */
    constructor (domain: nat, corner: Corners, link: Links, vertPolys: VertPolys)
      requires Stored(domain, corner, link, vertPolys) && LinksOk(corner, link)
      ensures Valid() && this.domain == domain && this.corner == corner && this.link == link
      ensures this.vertPolys == vertPolys
    {
      this.domain, this.corner, this.link, this.vertPolys := domain, corner, link, vertPolys;
    }

    lemma ValidParts()
      requires Valid()
      ensures Stored(domain, corner, link, vertPolys) && LinksOk(corner, link) && Whole(corner)
    {
    }

    /** `link()`: both ends must be free. */
    method Link(a: HalfEdge, b: HalfEdge)
      requires a in corner && b in corner && a !in link && b !in link
      modifies this`link
      ensures link == Linked(old(link), a, b)
    {
      link := link[a := b];
      link := link[b := a];
    }

    /** `unlink()`: the link must be there and mutual. */
    method Unlink(a: HalfEdge)
      requires a in link && link[a] in link && link[link[a]] == a
      modifies this`link
      ensures link == UnlinkedAt(old(link), a)
    {
      var other := link[a];
      link := link - {a};
      link := link - {other};
    }

    /** `change_vert()`: moves one corner to another vertex and keeps the vertex-to-corner
        links the inverse of the corner table. */
    method ChangeVert(h: HalfEdge, v: Vert)
      requires Stored(domain, corner, link, vertPolys) && h in corner && v in vertPolys
      modifies this`corner, this`vertPolys
      ensures Stored(domain, corner, link, vertPolys)
      ensures corner == old(corner)[h := v] && vertPolys.Keys == old(vertPolys).Keys
    {
      hide *;
      ChangeVertStored(domain, corner, link, vertPolys, h, v);
      var oldVert := corner[h];
      vertPolys := WithoutCorner(vertPolys, oldVert, h);
      vertPolys := WithCorner(vertPolys, v, h);
      corner := corner[h := v];
    }

    /** `polys().add()`: the new polygon gets a handle that no polygon has. Which one it
        is depends on the container (the next index of a dynamic array, any hole of an
        array allocator), so nothing more is promised about it. */
    method Add(v0: Vert, v1: Vert, v2: Vert) returns (p: nat)
      requires Stored(domain, corner, link, vertPolys)
      requires v0 in vertPolys && v1 in vertPolys && v2 in vertPolys
      modifies this`corner, this`vertPolys, this`domain
      ensures Stored(domain, corner, link, vertPolys)
      ensures domain >= old(domain) && p !in Polys(old(corner))
      ensures corner == WithPoly(old(corner), p, v0, v1, v2) && vertPolys.Keys == old(vertPolys).Keys
    {
      hide Stored, VertPolysOk, Whole, WithPoly, WithCorner, Polys;
      FreshPolyExists(domain, corner, link, vertPolys);
      p :| p !in Polys(corner);
      AddStored(domain, corner, link, vertPolys, p, v0, v1, v2);
      domain := if domain <= p then p + 1 else domain;
      corner := WithPoly(corner, p, v0, v1, v2);
      vertPolys := WithCorner(vertPolys, v0, HalfEdge(p, 0));
      vertPolys := WithCorner(vertPolys, v1, HalfEdge(p, 1));
      vertPolys := WithCorner(vertPolys, v2, HalfEdge(p, 2));
    }
  }
}
