/** Erasing a polygon with the accessor's `erase`, with its default switches: the half-edges across its edges lose their
  * links, its corners leave the vertex-to-corner links, and vertices left without corners are erased too. */
module PolyErase {
  import opened HalfEdges

  /** The links of the other polygons, without those into polygon `p`. */
  function LinksWithout(l: Links, p: nat): Links {
    map h | h in l && h.poly != p && l[h].poly != p :: l[h]
  }

  /** The corners of the polygon from the `n`th on, and those of all other polygons. */
  ghost function CornersFrom(c: Corners, p: nat, n: nat): Corners {
    map h | h in c && (h.poly != p || h.ith >= n) :: c[h]
  }

  /** The vertices of polygon `p` before its `n`th corner. */
  ghost predicate Touched(c: Corners, p: nat, n: nat, v: Vert) {
    exists h :: h in c && h.poly == p && h.ith < n && c[h] == v
  }

  ghost predicate HasCorner(c: Corners, v: Vert) {
    exists h :: h in c && c[h] == v
  }

  /** The vertex table once the first `n` corners of `p` are gone: the vertices that lost their last corner are gone. */
  ghost predicate VertsAfter(c: Corners, vp: VertPolys, vp': VertPolys, p: nat, n: nat) {
    && VertPolysOk(CornersFrom(c, p, n), vp')
    && forall v :: v in vp' <==> v in vp && (Touched(c, p, n, v) ==> HasCorner(CornersFrom(c, p, n), v))
  }

  lemma VertsAtStart(c: Corners, vp: VertPolys, p: nat)
    requires Whole(c) && VertPolysOk(c, vp)
    ensures VertsAfter(c, vp, vp, p, 0)
  {
    assert CornersFrom(c, p, 0) == c;
  }

  /** Taking the `n`th corner out of its vertex's links, and the vertex with it if that was its last one. */
  lemma VertsStep(c: Corners, vp: VertPolys, vp': VertPolys, p: nat, n: nat)
    requires Whole(c) && VertsAfter(c, vp, vp', p, n) && HalfEdge(p, n) in c && n < 3
    ensures var h := HalfEdge(p, n);
            && c[h] in vp' && vp'[c[h]][h] == 1
            && var without := WithoutCorner(vp', c[h], h);
            VertsAfter(c, vp, if without[c[h]] == multiset{} then without - {c[h]} else without, p, n + 1)
  {
    hide VertPolysOk, WithoutCorner, CornersFrom, HasCorner, Touched;
    var h, v := HalfEdge(p, n), c[HalfEdge(p, n)];
    var from, to := CornersFrom(c, p, n), CornersFrom(c, p, n + 1);
    OneFewer(c, p, n);
    CornerTaken(from, to, vp', h);
    var without := WithoutCorner(vp', v, h);
    VertexEmpty(to, without, v);
    if without[v] == multiset{} { KeepsInverse(to, without, v); }
    forall u ensures u in (if without[v] == multiset{} then without - {v} else without)
                     <==> u in vp && (Touched(c, p, n + 1, u) ==> HasCorner(to, u))
    {
      TouchedStep(c, p, n, u);
    }
  }

  lemma OneFewer(c: Corners, p: nat, n: nat)
    requires HalfEdge(p, n) in c
    ensures var h, from := HalfEdge(p, n), CornersFrom(c, p, n);
            h in from && from[h] == c[h] && CornersFrom(c, p, n + 1) == from - {h} && HasCorner(from, c[h])
  {
    assert CornersFrom(c, p, n)[HalfEdge(p, n)] == c[HalfEdge(p, n)];
  }

  lemma CornerTaken(from: Corners, to: Corners, vp: VertPolys, h: HalfEdge)
    requires VertPolysOk(from, vp) && h in from && to == from - {h}
    ensures from[h] in vp && vp[from[h]][h] == 1
    ensures VertPolysOk(to, WithoutCorner(vp, from[h], h))
  {
    hide WithoutCorner;
    forall u, g | u in vp ensures WithoutCorner(vp, from[h], h)[u][g] == if g in to && to[g] == u then 1 else 0 {
      WithoutCornerCount(vp, from[h], h, u, g);
    }
  }

  // A vertex has no corner exactly when its set of links is empty.
  lemma VertexEmpty(c: Corners, vp: VertPolys, v: Vert)
    requires VertPolysOk(c, vp) && v in vp
    ensures vp[v] == multiset{} <==> !HasCorner(c, v)
  {
    if vp[v] != multiset{} {
      var h :| h in vp[v];
      assert h in c && c[h] == v;
    }
  }

  lemma KeepsInverse(c: Corners, vp: VertPolys, v: Vert)
    requires VertPolysOk(c, vp) && v in vp && vp[v] == multiset{}
    ensures VertPolysOk(c, vp - {v})
  {
    forall h | h in c ensures c[h] in vp - {v} { assert vp[c[h]][h] == 1; }
  }

  lemma TouchedStep(c: Corners, p: nat, n: nat, u: Vert)
    requires HalfEdge(p, n) in c
    ensures Touched(c, p, n + 1, u) <==> Touched(c, p, n, u) || u == c[HalfEdge(p, n)]
    ensures u != c[HalfEdge(p, n)] ==> (HasCorner(CornersFrom(c, p, n + 1), u) <==> HasCorner(CornersFrom(c, p, n), u))
  {
    var h, from, to := HalfEdge(p, n), CornersFrom(c, p, n), CornersFrom(c, p, n + 1);
    if Touched(c, p, n + 1, u) {
      var g :| g in c && g.poly == p && g.ith < n + 1 && c[g] == u;
      assert g.ith == n ==> g == h;
    }
    if HasCorner(from, u) && u != c[h] {
      var g :| g in from && from[g] == u;
      assert g in to && to[g] == u;
    }
    if HasCorner(to, u) {
      var g :| g in to && to[g] == u;
      assert g in from && from[g] == u;
    }
  }

  // The links once the edges of `p` before the `n`th have been visited: a half-edge of another polygon has lost its
  // link if that led to one of them. Links between two edges of `p` may remain in part.
  ghost predicate LinksVisited(l: Links, l': Links, p: nat, n: nat) {
    && (forall h :: h in l' ==> h in l && l'[h] == l[h])
    && forall h :: h in l && (h.poly != p || l[h].poly != p) ==> (h in l' <==> !(l[h].poly == p && l[h].ith < n))
  }

  lemma LinksStep(c: Corners, l: Links, l': Links, p: nat, n: nat)
    requires LinksOk(c, l) && LinksVisited(l, l', p, n) && n < 3
    ensures var h := HalfEdge(p, n);
            LinksVisited(l, if h in l' then l' - {l'[h]} else l', p, n + 1)
  {
    var h := HalfEdge(p, n);
    var l'' := if h in l' then l' - {l'[h]} else l';
    forall g | g in l && (g.poly != p || l[g].poly != p)
      ensures g in l'' <==> !(l[g].poly == p && l[g].ith < n + 1)
    {
      assert LinkOk(c, l, g) && LinkOk(c, l, l[g]);
      if l[g].poly == p && l[g].ith == n {
        assert l[g] == h && l[h] == g;
      }
    }
  }

  /** Once all three are visited, dropping the polygon's own half-edges leaves mutual, reversed links. */
  lemma LinksErased(c: Corners, l: Links, l': Links, p: nat)
    requires Whole(c) && LinksOk(c, l) && LinksVisited(l, l', p, 3)
    ensures (map h | h in l' && h.poly != p :: l'[h]) == LinksWithout(l, p)
    ensures LinksOk(CornersFrom(c, p, 3), LinksWithout(l, p))
  {
    forall h | h in l ensures l[h].ith < 3 { assert LinkOk(c, l, h); }
    forall h | h in LinksWithout(l, p) ensures LinkOk(CornersFrom(c, p, 3), LinksWithout(l, p), h) {
      assert LinkOk(c, l, h);
    }
  }

  lemma CornersErased(c: Corners, p: nat)
    requires Whole(c)
    ensures CornersFrom(c, p, 3) == c - Edges(p) && Whole(CornersFrom(c, p, 3))
  {
    forall h | h in c ensures h.poly == p <==> h in Edges(p) {}
  }

  lemma StoredErased(domain: nat, c: Corners, l: Links, vp: VertPolys, vp': VertPolys, p: nat)
    requires Stored(domain, c, l, vp) && VertsAfter(c, vp, vp', p, 3)
    requires LinksOk(CornersFrom(c, p, 3), LinksWithout(l, p))
    ensures CornersFrom(c, p, 3) == c - Edges(p)
    ensures Stored(domain, c - Edges(p), LinksWithout(l, p), vp')
  {
    hide VertPolysOk, Whole, LinksWithout, Edges;
    CornersErased(c, p);
    forall h | h in LinksWithout(l, p) ensures h in c - Edges(p) && LinksWithout(l, p)[h] in c - Edges(p) {
      assert LinkOk(CornersFrom(c, p, 3), LinksWithout(l, p), h);
    }
  }

  method Erase(m: Mesh, p: nat)
    requires m.Valid() && HalfEdge(p, 0) in m.corner
    modifies m
    ensures m.Valid() && m.domain == old(m.domain)
    ensures m.corner == old(m.corner) - Edges(p)
    ensures m.link == LinksWithout(old(m.link), p)
    ensures forall v :: v in m.vertPolys
              <==> v in old(m.vertPolys) && (Touched(old(m.corner), p, 3, v) ==> HasCorner(m.corner, v))
    // the same in plain terms
    ensures forall h :: h in m.corner <==> h in old(m.corner) && h.poly != p
    ensures forall h :: h in m.corner ==> m.corner[h] == old(m.corner)[h]
    ensures forall h :: h in m.link <==> h in old(m.link) && h.poly != p && old(m.link)[h].poly != p
    ensures forall h :: h in m.link ==> m.link[h] == old(m.link)[h]
    ensures forall v :: v in m.vertPolys
              <==> v in old(m.vertPolys)
                   && ((exists h :: h in old(m.corner) && h.poly == p && old(m.corner)[h] == v) ==>
                       exists h :: h in old(m.corner) && h.poly != p && old(m.corner)[h] == v)
  {
    hide Stored, LinksOk, Whole, VertPolysOk, LinksVisited, VertsAfter, WithoutCorner, Edges, CornersFrom, Touched,
      HasCorner;
    ghost var c, l, vp, domain := m.corner, m.link, m.vertPolys, m.domain;
    m.ValidParts();
    Begin(domain, c, l, vp, p);

    // unlink edge links
    var ith := 0;
    while ith < 3
      invariant ith <= 3 && LinksVisited(l, m.link, p, ith)
      invariant m.corner == c && m.vertPolys == vp && m.domain == domain
    {
      LinksStep(c, l, m.link, p, ith);
      if HalfEdge(p, ith) in m.link {
        m.link := m.link - {m.link[HalfEdge(p, ith)]};
      }
      ith := ith + 1;
    }

    // unlink vertex-to-corner links
    ith := 0;
    while ith < 3
      invariant ith <= 3 && VertsAfter(c, vp, m.vertPolys, p, ith)
      invariant m.corner == c && LinksVisited(l, m.link, p, 3) && m.domain == domain
    {
      CornerThere(c, p, ith);
      VertsStep(c, vp, m.vertPolys, p, ith);
      var h := HalfEdge(p, ith);
      var v := m.corner[h];
      m.vertPolys := WithoutCorner(m.vertPolys, v, h);
      if m.vertPolys[v] == multiset{} {
        m.vertPolys := m.vertPolys - {v};
      }
      ith := ith + 1;
    }

    LinksErased(c, l, m.link, p);
    StoredErased(domain, c, l, vp, m.vertPolys, p);
    m.corner := m.corner - Edges(p);
    m.link := map h | h in m.link && h.poly != p :: m.link[h];
    VertsLeft(c, vp, m.vertPolys, p);
    ErasedMeans(c, p);
  }

  // The notions of the contract in plain terms.
  lemma ErasedMeans(c: Corners, p: nat)
    requires Whole(c)
    ensures forall h :: h in c - Edges(p) <==> h in c && h.poly != p
    ensures forall v :: Touched(c, p, 3, v) <==> exists h :: h in c && h.poly == p && c[h] == v
    ensures forall v :: HasCorner(c - Edges(p), v) <==> exists h :: h in c && h.poly != p && c[h] == v
  {
    forall h | h in c ensures h in Edges(p) <==> h.poly == p { WholeNext(c, h); }
  }

  lemma Begin(domain: nat, c: Corners, l: Links, vp: VertPolys, p: nat)
    requires Stored(domain, c, l, vp) && LinksOk(c, l) && HalfEdge(p, 0) in c
    ensures LinksVisited(l, l, p, 0) && VertsAfter(c, vp, vp, p, 0)
  {
    VertsAtStart(c, vp, p);
  }

  lemma CornerThere(c: Corners, p: nat, n: nat)
    requires Whole(c) && HalfEdge(p, 0) in c && n < 3
    ensures HalfEdge(p, n) in c
  {
  }

  lemma VertsLeft(c: Corners, vp: VertPolys, vp': VertPolys, p: nat)
    requires VertsAfter(c, vp, vp', p, 3)
    ensures forall v :: v in vp' <==> v in vp && (Touched(c, p, 3, v) ==> HasCorner(CornersFrom(c, p, 3), v))
  {
  }
}
