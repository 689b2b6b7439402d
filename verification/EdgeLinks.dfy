/** `fast_compute_edge_links`: links unlinked half-edges that run between the same two
    vertices in opposite directions; and the two read-only checks of edge links. */
module EdgeLinks {
  import opened Prelude
  import opened HalfEdges
  import opened Filling

  type Key = (Vert, Vert)

  function KeyOf(c: Corners, h: HalfEdge): Key
    requires h in c && Next(h) in c
  {
    (Start(c, h), End(c, h))
  }

  function Reverse(k: Key): Key {
    (k.1, k.0)
  }

  /** The half-edges of `u` that run from `a` to `b`. */
  ghost function Between(c: Corners, u: set<HalfEdge>, a: Vert, b: Vert): set<HalfEdge> {
    set h | h in u && h in c && Next(h) in c && KeyOf(c, h) == (a, b)
  }

  /** No two different half-edges of `u` run in opposite directions along one segment. */
  ghost predicate NoPairLeft(c: Corners, u: set<HalfEdge>) {
    forall g, h :: g in u && h in u && g != h ==> !Opposite(c, g, h)
  }

  ghost predicate Opposite(c: Corners, g: HalfEdge, h: HalfEdge) {
    g in c && h in c && Next(g) in c && Next(h) in c && KeyOf(c, g) == Reverse(KeyOf(c, h))
  }

  /** Half-edges at or after position (i, ith) of the double loop. */
  predicate Ahead(h: HalfEdge, i: nat, ith: nat) {
    h.poly > i || (h.poly == i && h.ith >= ith)
  }

  /** Invariant of the double loop. The table of open edges holds exactly the unlinked
      half-edges it has passed, each under its own key, and no two of them match. */
  ghost predicate Matching(c: Corners, l0: Links, l: Links, table: map<HalfEdge, Key>, matched: nat, i: nat, ith: nat) {
    && KeepsLinks(l0, l)
    && (forall h :: h in table ==> h in Unlinked(c, l) && Next(h) in c && table[h] == KeyOf(c, h) && !Ahead(h, i, ith))
    && (forall h :: h in Unlinked(c, l) && h !in table ==> Ahead(h, i, ith))
    && NoPairLeft(c, table.Keys)
    && 2 * matched + |Unlinked(c, l)| == |Unlinked(c, l0)|
  }

  lemma MatchingStart(c: Corners, l0: Links)
    ensures Matching(c, l0, l0, map[], 0, 0, 0)
  {
    hide Unlinked, NoPairLeft, Opposite;
    NoPairEmpty(c);
    var none: map<HalfEdge, Key> := map[];
    assert none.Keys == {};
  }

  lemma NoPairEmpty(c: Corners)
    ensures NoPairLeft(c, {})
  {
  }

  /** A half-edge without a match in the table goes into it. */
  lemma MatchingOpen(c: Corners, l0: Links, l: Links, table: map<HalfEdge, Key>, matched: nat, h: HalfEdge)
    requires Whole(c) && Matching(c, l0, l, table, matched, h.poly, h.ith) && h in c && Next(h) in c && h !in l
    requires forall g :: g in table ==> table[g] != Reverse(KeyOf(c, h))
    ensures Matching(c, l0, l, table[h := KeyOf(c, h)], matched, h.poly, h.ith + 1)
  {
    hide KeepsLinks;
  }

  /** A half-edge that is already linked is passed over. */
  lemma MatchingSkip(c: Corners, l0: Links, l: Links, table: map<HalfEdge, Key>, matched: nat, h: HalfEdge)
    requires Matching(c, l0, l, table, matched, h.poly, h.ith) && h in l
    ensures Matching(c, l0, l, table, matched, h.poly, h.ith + 1)
  {
    hide KeepsLinks, NoPairLeft;
  }

  /** A half-edge is linked to the entry `g` found under the reversed key. */
  lemma MatchingLink(c: Corners, l0: Links, l: Links, table: map<HalfEdge, Key>, matched: nat, h: HalfEdge, g: HalfEdge)
    requires Whole(c) && LinksOk(c, l) && Matching(c, l0, l, table, matched, h.poly, h.ith)
    requires h in c && Next(h) in c && h !in l && g in table && table[g] == Reverse(KeyOf(c, h))
    ensures g in c && g !in l && g != h
    ensures LinksOk(c, Linked(l, h, g))
    ensures Matching(c, l0, Linked(l, h, g), table - {g}, matched + 1, h.poly, h.ith + 1)
  {
    hide KeepsLinks, Whole, LinksOk, Linked, NoPairLeft, Unlinked, Ahead;
    MatchingEntry(c, l0, l, table, matched, h, g);
    LinkedOk(c, l, h, g);
    ExtendsSelf(c);
    ExtendsTrans(c, l0, c, l, c, Linked(l, h, g));
    TwoLess(Unlinked(c, l), h, g);
    NoPairSmaller(c, table.Keys, (table - {g}).Keys);
    AheadNext(h);
  }

  lemma MatchingEntry(c: Corners, l0: Links, l: Links, table: map<HalfEdge, Key>, matched: nat, h: HalfEdge,
                      g: HalfEdge)
    requires Whole(c) && Matching(c, l0, l, table, matched, h.poly, h.ith) && h in c && h !in l && g in table
    ensures g in c && Next(g) in c && g !in l && g != h && table[g] == KeyOf(c, g) && h !in table
    ensures h in Unlinked(c, l) && g in Unlinked(c, l)
  {
    hide KeepsLinks, NoPairLeft;
  }

  lemma TwoLess<T>(u: set<T>, a: T, b: T)
    requires a in u && b in u && a != b
    ensures |u - {a, b}| == |u| - 2
  {
    assert u - {a, b} == u - {a} - {b};
  }

  lemma NoPairSmaller(c: Corners, u: set<HalfEdge>, v: set<HalfEdge>)
    requires NoPairLeft(c, u) && v <= u
    ensures NoPairLeft(c, v)
  {
    hide Opposite;
  }

  lemma AheadNext(h: HalfEdge)
    ensures forall g :: Ahead(g, h.poly, h.ith + 1) <==> Ahead(g, h.poly, h.ith) && g != h
  {
  }

  lemma MatchingNextPoly(c: Corners, l0: Links, l: Links, table: map<HalfEdge, Key>, matched: nat, i: nat)
    requires Whole(c) && Matching(c, l0, l, table, matched, i, 3)
    ensures Matching(c, l0, l, table, matched, i + 1, 0)
  {
    hide KeepsLinks, NoPairLeft;
  }

  lemma MatchingNoPoly(c: Corners, l0: Links, l: Links, table: map<HalfEdge, Key>, matched: nat, i: nat)
    requires Whole(c) && Matching(c, l0, l, table, matched, i, 0) && HalfEdge(i, 0) !in c
    ensures Matching(c, l0, l, table, matched, i + 1, 0)
  {
    hide KeepsLinks, NoPairLeft;
  }

  lemma MatchingEnd(domain: nat, c: Corners, l0: Links, l: Links, vp: VertPolys, table: map<HalfEdge, Key>,
                    matched: nat, i: nat)
    requires Stored(domain, c, l, vp) && domain <= i && Matching(c, l0, l, table, matched, i, 0)
    ensures KeepsLinks(l0, l) && NoPairLeft(c, Unlinked(c, l))
    ensures 2 * matched + |table| == |Unlinked(c, l0)| && |table| == |Unlinked(c, l)|
  {
    hide KeepsLinks, NoPairLeft, Whole, VertPolysOk;
    assert table.Keys == Unlinked(c, l);
  }

  /** Looks a key up; when several entries have it, which one is found is not specified. */
  method Find(table: map<HalfEdge, Key>, k: Key) returns (r: Option<HalfEdge>)
    ensures r.Some? ==> r.value in table && table[r.value] == k
    ensures r.None? ==> forall g :: g in table ==> table[g] != k
  {
    if g :| g in table && table[g] == k {
      r := Some(g);
    } else {
      r := None;
    }
  }

  method FastComputeEdgeLinks(m: Mesh) returns (matched: nat, unmatched: nat)
    requires m.Valid()
    modifies m`link
    ensures m.Valid() && KeepsLinks(old(m.link), m.link)
    ensures 2 * matched + unmatched == |Unlinked(m.corner, old(m.link))|
    ensures unmatched == |Unlinked(m.corner, m.link)|
    ensures NoPairLeft(m.corner, Unlinked(m.corner, m.link))
    ensures forall g, h :: g in m.corner && h in m.corner && g !in m.link && h !in m.link && g != h ==>
              && Next(g) in m.corner && Next(h) in m.corner
              && !(m.corner[g] == m.corner[Next(h)] && m.corner[Next(g)] == m.corner[h])
  {
    hide *;
    ghost var l0 := m.link;
    var table: map<HalfEdge, Key> := map[];
    matched := 0;
    MatchingStart(m.corner, l0);
    var i := 0;
    while i < m.domain
      invariant m.Valid() && Matching(m.corner, l0, m.link, table, matched, i, 0)
    {
      m.ValidParts();
      if HalfEdge(i, 0) in m.corner {
        var ith := 0;
        while ith < 3
          invariant ith <= 3 && HalfEdge(i, 0) in m.corner
          invariant m.Valid() && Matching(m.corner, l0, m.link, table, matched, i, ith)
        {
          matched, table := MatchOne(m, HalfEdge(i, ith), table, matched, l0);
          ith := ith + 1;
        }
        m.ValidParts();
        MatchingNextPoly(m.corner, l0, m.link, table, matched, i);
      } else {
        MatchingNoPoly(m.corner, l0, m.link, table, matched, i);
      }
      i := i + 1;
    }
    m.ValidParts();
    MatchingEnd(m.domain, m.corner, l0, m.link, m.vertPolys, table, matched, i);
    unmatched := |table|;
    NoPairMeans(m.corner, m.link);
  }

  lemma NoPairMeans(c: Corners, l: Links)
    requires Whole(c) && NoPairLeft(c, Unlinked(c, l))
    ensures forall g, h :: g in c && h in c && g !in l && h !in l && g != h ==>
              Next(g) in c && Next(h) in c && !(c[g] == c[Next(h)] && c[Next(g)] == c[h])
  {
    hide Next, Whole;
    forall g, h | g in c && h in c && g !in l && h !in l && g != h
      ensures Next(g) in c && Next(h) in c && !(c[g] == c[Next(h)] && c[Next(g)] == c[h])
    {
      WholeNext(c, g); WholeNext(c, h);
      assert g in Unlinked(c, l) && h in Unlinked(c, l) && !Opposite(c, g, h);
    }
  }

  /** The body of the double loop. */
  method MatchOne(m: Mesh, pe: HalfEdge, table: map<HalfEdge, Key>, matched: nat, ghost l0: Links)
    returns (matched': nat, table': map<HalfEdge, Key>)
    requires m.Valid() && pe.ith < 3 && HalfEdge(pe.poly, 0) in m.corner
    requires Matching(m.corner, l0, m.link, table, matched, pe.poly, pe.ith)
    modifies m`link
    ensures m.Valid() && Matching(m.corner, l0, m.link, table', matched', pe.poly, pe.ith + 1)
  {
    hide Stored, LinksOk, Whole, Matching, Linked;
    m.ValidParts();
    PolyEdgesThere(m.corner, pe);
    matched', table' := matched, table;
    if pe in m.link {
      MatchingSkip(m.corner, l0, m.link, table, matched, pe);
    } else {
      var key := (m.corner[pe], m.corner[Next(pe)]);
      var open := Find(table, Reverse(key));
      if open.None? {
        MatchingOpen(m.corner, l0, m.link, table, matched, pe);
        table' := table[pe := key];
      } else {
        MatchingLink(m.corner, l0, m.link, table, matched, pe, open.value);
        ghost var l := m.link;
        table' := table - {open.value};
        m.Link(pe, open.value);
        StoredRelinked(m.domain, m.corner, l, m.link, m.vertPolys);
        matched' := matched + 1;
      }
    }
  }

  lemma PolyEdgesThere(c: Corners, h: HalfEdge)
    requires Whole(c) && HalfEdge(h.poly, 0) in c && h.ith < 3
    ensures h in c && Next(h) in c
  {
  }

  // ---- how many matches each segment gets --------------------------------------------

  /** The half-edges from `a` to `b` that got a link are as many as those from `b` to `a`:
      the new links pair them up. */
  lemma NewLinksPair(c: Corners, l0: Links, l: Links, a: Vert, b: Vert)
    requires Whole(c) && LinksOk(c, l0) && LinksOk(c, l) && KeepsLinks(l0, l)
    ensures |NewlyLinked(c, l0, l, a, b)| <= |NewlyLinked(c, l0, l, b, a)|
  {
    var s, t := NewlyLinked(c, l0, l, a, b), NewlyLinked(c, l0, l, b, a);
    forall h | h in s ensures l[h] in t && l[l[h]] == h {
      assert LinkOk(c, l, h);
      LinkReversed(c, l, h);
    }
    InjectiveSize(s, t, l);
  }

  ghost function NewlyLinked(c: Corners, l0: Links, l: Links, a: Vert, b: Vert): set<HalfEdge> {
    set h | h in l && h in c && h !in l0 && Next(h) in c && KeyOf(c, h) == (a, b)
  }

  lemma {:induction false} InjectiveSize(s: set<HalfEdge>, t: set<HalfEdge>, l: Links)
    requires forall h :: h in s ==> h in l && l[h] in t && l[h] in l && l[l[h]] == h
    ensures |s| <= |t|
  {
    if s != {} {
      var h :| h in s;
      InjectiveSize(s - {h}, t - {l[h]}, l);
    }
  }

  lemma BetweenSplit(c: Corners, l0: Links, l: Links, a: Vert, b: Vert)
    requires LinksOk(c, l) && KeepsLinks(l0, l)
    ensures |Between(c, Unlinked(c, l0), a, b)| == |Between(c, Unlinked(c, l), a, b)| + |NewlyLinked(c, l0, l, a, b)|
  {
    var u, v := Between(c, Unlinked(c, l), a, b), NewlyLinked(c, l0, l, a, b);
    assert Between(c, Unlinked(c, l0), a, b) == u + v;
    assert u !! v;
  }

  /** Whatever entry the table finds, each segment gets as many links as it can: the pair
      of vertices a, b gets min(#ab, #ba) of them. */
  lemma MatchesAreMaximum(c: Corners, l0: Links, l: Links, a: Vert, b: Vert)
    requires Whole(c) && LinksOk(c, l0) && LinksOk(c, l) && KeepsLinks(l0, l) && a != b
    requires NoPairLeft(c, Unlinked(c, l))
    ensures var ab, ba := |Between(c, Unlinked(c, l0), a, b)|, |Between(c, Unlinked(c, l0), b, a)|;
            && |NewlyLinked(c, l0, l, a, b)| == |NewlyLinked(c, l0, l, b, a)| == if ab < ba then ab else ba
  {
    NewLinksPair(c, l0, l, a, b);
    NewLinksPair(c, l0, l, b, a);
    BetweenSplit(c, l0, l, a, b);
    BetweenSplit(c, l0, l, b, a);
    OneSideEmpty(c, Unlinked(c, l), a, b);
  }

  lemma OneSideEmpty(c: Corners, u: set<HalfEdge>, a: Vert, b: Vert)
    requires NoPairLeft(c, u) && a != b
    ensures Between(c, u, a, b) == {} || Between(c, u, b, a) == {}
  {
    if Between(c, u, a, b) != {} && Between(c, u, b, a) != {} {
      var g :| g in Between(c, u, a, b);
      var h :| h in Between(c, u, b, a);
      assert Opposite(c, g, h);
    }
  }

  /** A segment from a vertex to itself keeps at most one unlinked half-edge. */
  lemma LoopsLeft(c: Corners, u: set<HalfEdge>, a: Vert, g: HalfEdge, h: HalfEdge)
    requires NoPairLeft(c, u) && g in Between(c, u, a, a) && h in Between(c, u, a, a)
    ensures g == h
  {
    assert g != h ==> Opposite(c, g, h);
  }

  // ---- the checks --------------------------------------------------------------------

  ghost predicate Answered(l: Links, h: HalfEdge) {
    h in l ==> l[h] in l && l[l[h]] == h
  }

  /** All half-edges before position (i, ith) of the double loop have answered links. */
  ghost predicate AnsweredBelow(c: Corners, l: Links, i: nat, ith: nat) {
    forall h :: h in c && !Ahead(h, i, ith) ==> Answered(l, h)
  }

  lemma AnsweredNext(c: Corners, l: Links, i: nat, ith: nat)
    requires AnsweredBelow(c, l, i, ith) && Answered(l, HalfEdge(i, ith))
    ensures AnsweredBelow(c, l, i, ith + 1)
  {
    hide Answered;
    forall h | h in c && !Ahead(h, i, ith + 1) ensures Answered(l, h) {
      assert Ahead(h, i, ith) ==> h == HalfEdge(i, ith);
    }
  }

  lemma AnsweredNextPoly(c: Corners, l: Links, i: nat, ith: nat)
    requires Whole(c) && AnsweredBelow(c, l, i, ith) && (ith == 3 || HalfEdge(i, 0) !in c)
    ensures AnsweredBelow(c, l, i + 1, 0)
  {
    hide Answered;
  }

  lemma AnsweredAll(domain: nat, c: Corners, l: Links, vp: VertPolys, i: nat)
    requires Stored(domain, c, l, vp) && domain <= i && AnsweredBelow(c, l, i, 0)
    ensures forall h :: h in l ==> l[h] in l && l[l[h]] == h
  {
    hide VertPolysOk, Whole;
    forall h | h in l ensures l[h] in l && l[l[h]] == h { assert Answered(l, h); }
  }

  lemma StoredWhole(domain: nat, c: Corners, l: Links, vp: VertPolys)
    requires Stored(domain, c, l, vp)
    ensures Whole(c)
  {
  }

  /** `has_valid_edge_links`: true exactly when every link is answered by its other end. */
  method HasValidEdgeLinks(m: Mesh) returns (ok: bool)
    requires Stored(m.domain, m.corner, m.link, m.vertPolys)
    ensures ok <==> forall h :: h in m.link ==> m.link[h] in m.link && m.link[m.link[h]] == h
  {
    hide Stored, Whole, AnsweredBelow, Ahead;
    StoredWhole(m.domain, m.corner, m.link, m.vertPolys);
    var i := 0;
    NoneAnswered(m.corner, m.link);
    while i < m.domain
      invariant AnsweredBelow(m.corner, m.link, i, 0)
    {
      var ith := 0;
      if HalfEdge(i, 0) in m.corner {
        while ith < 3
          invariant ith <= 3 && AnsweredBelow(m.corner, m.link, i, ith)
        {
          var pe := HalfEdge(i, ith);
          if pe in m.link {
            if m.link[pe] !in m.link {
              return false;
            }
            if m.link[m.link[pe]] != pe {
              return false;
            }
          }
          AnsweredNext(m.corner, m.link, i, ith);
          ith := ith + 1;
        }
      }
      AnsweredNextPoly(m.corner, m.link, i, ith);
      i := i + 1;
    }
    AnsweredAll(m.domain, m.corner, m.link, m.vertPolys, i);
    ok := true;
  }

  lemma NoneAnswered(c: Corners, l: Links)
    ensures AnsweredBelow(c, l, 0, 0)
  {
  }

  /** `has_all_edge_links`. */
  method HasAllEdgeLinks(m: Mesh) returns (ok: bool)
    requires Stored(m.domain, m.corner, m.link, m.vertPolys)
    ensures ok <==> Unlinked(m.corner, m.link) == {}
  {
    hide VertPolysOk;
    var i := 0;
    while i < m.domain
      invariant forall h :: h in Unlinked(m.corner, m.link) ==> Ahead(h, i, 0)
    {
      if HalfEdge(i, 0) in m.corner {
        var ith := 0;
        while ith < 3
          invariant ith <= 3
          invariant forall h :: h in Unlinked(m.corner, m.link) ==> Ahead(h, i, ith)
        {
          if HalfEdge(i, ith) !in m.link {
            assert HalfEdge(i, ith) in Unlinked(m.corner, m.link);
            return false;
          }
          ith := ith + 1;
        }
      }
      i := i + 1;
    }
    ok := true;
  }
}
