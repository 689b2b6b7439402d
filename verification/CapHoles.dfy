/** `cap_hole` and `cap_holes`: collect the boundary around an unlinked half-edge, then
    repeatedly replace two consecutive boundary half-edges by one, adding a triangle. */
module CapHoles {
  import opened Prelude
  import opened HalfEdges
  import opened Boundary
  import opened Filling
  import opened LinkedList

  /** The inner loop of the boundary walk. */
  method NextBoundary(c: Corners, l: Links, start: HalfEdge) returns (he: HalfEdge)
    requires Whole(c) && LinksOk(c, l) && start in Unlinked(c, l)
    ensures Turns(c, l, start, he)
  {
    he := start;
    WholeNext(c, he);
    ghost var t := [he];
    while Next(he) in l
      invariant t != [] && t[0] == start && he == t[|t| - 1] && Next(he) in c
      invariant Fan(l, t) && Distinct(t) && forall i :: 0 <= i < |t| ==> t[i] in c
      decreases c.Keys - Elements(t)
    {
      FanFresh(c, l, t, l[Next(he)]);
      ElementsSnoc(t, l[Next(he)]);
      assert l[Next(he)] in c.Keys - Elements(t);
      he := l[Next(he)];
      WholeNext(c, he);
      t := t + [he];
    }
    he := Next(he);
    assert TurnsVia(l, start, he, t);
  }

  // ---- the candidate queue -----------------------------------------------------------

  /** `cands` maps a queue position to a perimeter handle, `whereCands` a half-edge to its
      queue position; `vals` is the perimeter, handle to half-edge. The three are in
      one-to-one step: every perimeter half-edge has one candidate and knows where. */
  ghost predicate InStep(vals: map<nat, HalfEdge>, cands: map<nat, nat>, whereCands: map<HalfEdge, nat>) {
    && (forall h :: h in vals ==> HasCand(vals[h], h, cands, whereCands))
    && (forall it :: it in cands ==>
          cands[it] in vals && whereCands.Keys >= {vals[cands[it]]} && whereCands[vals[cands[it]]] == it)
    && (forall e :: e in whereCands ==>
          whereCands[e] in cands && cands[whereCands[e]] in vals && vals[cands[whereCands[e]]] == e)
  }

  ghost predicate HasCand(e: HalfEdge, h: nat, cands: map<nat, nat>, whereCands: map<HalfEdge, nat>) {
    e in whereCands && whereCands[e] in cands && cands[whereCands[e]] == h
  }

  lemma DelInStep(vals: map<nat, HalfEdge>, cands: map<nat, nat>, whereCands: map<HalfEdge, nat>, h: nat)
    requires InStep(vals, cands, whereCands) && h in vals
    ensures HasCand(vals[h], h, cands, whereCands)
    ensures InStep(vals - {h}, cands - {whereCands[vals[h]]}, whereCands - {vals[h]})
  {
    forall g | g in vals - {h}
      ensures HasCand(vals[g], g, cands - {whereCands[vals[h]]}, whereCands - {vals[h]})
    {
      assert HasCand(vals[g], g, cands, whereCands);
    }
  }

  lemma AddInStep(vals: map<nat, HalfEdge>, cands: map<nat, nat>, whereCands: map<HalfEdge, nat>, h: nat, e: HalfEdge,
                  it: nat)
    requires InStep(vals, cands, whereCands) && h !in vals && e !in vals.Values && it !in cands
    ensures e !in whereCands
    ensures InStep(vals[h := e], cands[it := h], whereCands[e := it])
  {
    forall g | g in vals ensures HasCand(vals[g], g, cands[it := h], whereCands[e := it]) {
      assert HasCand(vals[g], g, cands, whereCands);
    }
  }

  /** The perimeter as a sequence of half-edges. */
  ghost function Vals(order: seq<nat>, vals: map<nat, HalfEdge>): (p: seq<HalfEdge>)
    requires Elements(order) <= vals.Keys
    ensures |p| == |order|
  {
    seq(|order|, i requires 0 <= i < |order| =>
      assert order[i] in Elements(order);
      vals[order[i]])
  }

  class Capper {
    const m: Mesh
    const perimeter: List<HalfEdge>
    var cands: map<nat, nat>
    var whereCands: map<HalfEdge, nat>

    constructor (m: Mesh)
      ensures this.m == m && fresh(perimeter) && fresh(perimeter.alloc)
      ensures perimeter.Valid() && perimeter.order == [] && cands == map[] && whereCands == map[]
    {
      this.m := m;
      perimeter := new List();
      cands, whereCands := map[], map[];
    }

    ghost predicate Valid()
      reads this, m, perimeter, perimeter.alloc
    {
      && m.Valid()
      && perimeter.Valid()
      && Elements(perimeter.order) <= Content(perimeter.alloc.v).Keys
    }

    ghost function Perimeter(): seq<HalfEdge>
      reads this, m, perimeter, perimeter.alloc
      requires Valid()
    {
      Vals(perimeter.order, Content(perimeter.alloc.v))
    }

    /** The boundary walk: fills the empty perimeter with the boundary `edge` lies on. */
    method CollectBoundary(edge: HalfEdge)
      requires Valid() && perimeter.order == [] && edge in Unlinked(m.corner, m.link)
      modifies perimeter, perimeter.alloc
      ensures Valid() && BoundaryOf(m.corner, m.link, edge, Perimeter())
    {
      hide Chained, Content, Stored, LinksOk, Whole, Unlinked, Turns, Collecting, BoundaryOf;
      m.ValidParts();
      var he := edge;
      CollectStart(m.corner, m.link, edge);
      assert Perimeter() == [];
      while true
        invariant Valid()
        invariant Collecting(m.corner, m.link, edge, Perimeter())
        invariant he == LastOr(Perimeter(), edge) && he in Unlinked(m.corner, m.link)
        decreases Unlinked(m.corner, m.link) - Elements(Perimeter())
      {
        ghost var p := Perimeter();
        he := NextBoundary(m.corner, m.link, he);
        CollectStep(m.corner, m.link, edge, p, he);
        perimeter.ContentKeys();
        var _ := perimeter.EmplaceBack(he);
        perimeter.ContentKeys();
        assert Perimeter() == p + [he];
        ElementsSnoc(p, he);
        if he == edge {
          break;
        }
      }
    }

    /** `add_cand`: a new queue position for the perimeter half-edge at `h`, which must
        end where its successor starts. The score only decides which position it gets.
        `vals` are the perimeter entries that have their candidates already. */
    method AddCand(ghost i: nat, h: nat, ghost vals: map<nat, HalfEdge>) returns (it: nat)
      requires Valid() && i < |perimeter.order| && perimeter.order[i] == h
      requires Adjacent(m.corner, Perimeter()[i], Perimeter()[CyclicNext(i, |perimeter.order|)])
      requires InStep(vals, cands, whereCands) && h !in vals && Perimeter()[i] !in vals.Values
      modifies this`cands, this`whereCands
      ensures InStep(vals[h := Perimeter()[i]], cands, whereCands)
      ensures it !in old(cands) && cands == old(cands)[it := h]
      ensures whereCands == old(whereCands)[Perimeter()[i] := it]
    {
      hide Chained, Content, Stored, LinksOk, InStep;
      perimeter.ContentKeys();
      var h1 := perimeter.NextInCycle(i, h);
      var v0 := perimeter.Get(h);
      var v1 := perimeter.Get(h1);
      assert m.corner[Next(v0)] == m.corner[v1];
      it := FreshPosition(cands);
      AddInStep(vals, cands, whereCands, h, v0, it);
      cands := cands[it := h];
      whereCands := whereCands[v0 := it];
    }

    /** `del_cand`: the half-edge must have a candidate; the other entries of `vals` keep theirs. */
    method DelCand(e: HalfEdge, ghost h: nat, ghost vals: map<nat, HalfEdge>)
      requires InStep(vals, cands, whereCands) && h in vals && vals[h] == e
      modifies this`cands, this`whereCands
      ensures InStep(vals - {h}, cands, whereCands)
      ensures e in old(whereCands)
      ensures cands == old(cands) - {old(whereCands)[e]} && whereCands == old(whereCands) - {e}
    {
      DelInStep(vals, cands, whereCands, h);
      hide InStep;
      var it := whereCands[e];
      cands := cands - {it};
      whereCands := whereCands - {e};
    }

    /** Adds the triangle over the consecutive perimeter half-edges `a` and `b` and makes
        the two missing edge links. */
    method AddTriangle(a: HalfEdge, b: HalfEdge) returns (p: nat)
      requires m.Valid() && a in m.corner && b in m.corner && Next(a) in m.corner && Next(b) in m.corner
      requires a !in m.link && b !in m.link && a != b && Adjacent(m.corner, a, b)
      modifies m
      ensures m.Valid() && p !in Polys(old(m.corner)) && m.domain >= old(m.domain)
      ensures m.corner == FilledCorners(old(m.corner), p, a, b)
      ensures m.link == FilledLinks(old(m.link), p, a, b)
    {
      hide Stored, Polys, Linked, LinksOk, Unlinked, WithPoly, Whole, Extends, KeepsLinks;
      ghost var c, l := m.corner, m.link;
      StoredVerts(m.domain, c, l, m.vertPolys, a, b);
      p := m.Add(m.corner[a], m.corner[Next(b)], m.corner[Next(a)]);
      TriangleFills(c, l, p, a, b);
      TriangleEnds(c, l, p, a, b);
      m.Link(a, HalfEdge(p, 2));
      m.Link(b, HalfEdge(p, 1));
      StoredRelinked(m.domain, m.corner, l, m.link, m.vertPolys);
    }

    /** `del_cand` three times: the candidates of `prev`, `next` and `curr` go. */
    method DropCandidates(prev: nat, next: nat, curr: nat, ghost vals: map<nat, HalfEdge>)
      requires perimeter.Valid() && InStep(vals, cands, whereCands)
      requires prev in vals && next in vals && curr in vals && prev != next && next != curr && prev != curr
      requires vals.Keys <= Content(perimeter.alloc.v).Keys
      requires forall h :: h in vals ==> Content(perimeter.alloc.v)[h] == vals[h]
      modifies this`cands, this`whereCands
      ensures InStep(vals - {prev} - {next} - {curr}, cands, whereCands)
    {
      hide Chained, Content, InStep;
      var ePrev := perimeter.Get(prev);
      var eNext := perimeter.Get(next);
      var eCurr := perimeter.Get(curr);
      DelCand(ePrev, prev, vals);
      DelCand(eNext, next, vals - {prev});
      DelCand(eCurr, curr, vals - {prev} - {next});
    }

    /** `e` takes the place of the consecutive half-edges `curr` and `next`. */
    method Replace(ghost i: nat, curr: nat, next: nat, prev: nat, e: HalfEdge) returns (h: nat)
      requires perimeter.Valid() && 3 <= |perimeter.order| && i < |perimeter.order|
      requires curr == perimeter.order[i] && next == perimeter.order[CyclicNext(i, |perimeter.order|)]
      requires prev in Content(perimeter.alloc.v) && prev != next && next != curr && prev != curr
      requires InStep(Content(perimeter.alloc.v), cands, whereCands)
      modifies this`cands, this`whereCands, perimeter, perimeter.alloc
      ensures perimeter.Valid() && h !in old(perimeter.order)
      ensures perimeter.order == Shortened(old(perimeter.order), i, h)
      ensures Content(perimeter.alloc.v) == Content(old(perimeter.alloc.v))[h := e] - {curr} - {next}
      ensures InStep(Content(old(perimeter.alloc.v)) - {prev} - {next} - {curr}, cands, whereCands)
    {
      hide Chained, Content, InStep, Inserted, Without, Shortened, Distinct;
      ghost var o, vals := perimeter.order, Content(perimeter.alloc.v);
      perimeter.ContentKeys();
      h := perimeter.EmplaceBefore(i, curr, e);
      OrderShortened(o, i, h);
      OrderMembers(o, i, h, vals);
      DropCandidates(prev, next, curr, vals);
      var _, _ := perimeter.Erase(i + 1, curr);
      var _, _ := perimeter.Erase(CyclicNext(i, |o|), next);
    }

    /** `add_cand` for the new half-edge `h` and for the one before it. */
    method AddCandidates(ghost k: nat, prev: nat, h: nat, ghost rest: map<nat, HalfEdge>)
      requires Valid() && k < |perimeter.order| && perimeter.order[k] == h
      requires prev == perimeter.order[CyclicPrev(k, |perimeter.order|)] && prev != h
      requires ClosedCycle(m.corner, Perimeter()) && Distinct(Perimeter())
      requires InStep(rest, cands, whereCands) && h !in rest && prev !in rest
      requires Perimeter()[CyclicPrev(k, |perimeter.order|)] !in rest.Values && Perimeter()[k] !in rest.Values
      requires Content(perimeter.alloc.v)
               == rest[prev := Perimeter()[CyclicPrev(k, |perimeter.order|)]][h := Perimeter()[k]]
      modifies this`cands, this`whereCands
      ensures InStep(Content(perimeter.alloc.v), cands, whereCands)
    {
      hide Chained, Content, Stored, LinksOk, InStep, ClosedCycle, Adjacent, Vals;
      ghost var p, j := Perimeter(), CyclicPrev(k, |perimeter.order|);
      ClosedAt(m.corner, p, k);
      ClosedAt(m.corner, p, j);
      var _ := AddCand(j, prev, rest);
      var _ := AddCand(k, h, rest[prev := p[j]]);
    }

    /** The first loop over the perimeter: one candidate for every half-edge. */
    method AddAll()
      requires Valid() && cands == map[] && whereCands == map[]
      requires ClosedCycle(m.corner, Perimeter()) && Distinct(Perimeter())
      modifies this`cands, this`whereCands
      ensures InStep(Content(perimeter.alloc.v), cands, whereCands)
    {
      hide Chained, Content, Stored, LinksOk, InStep, ClosedCycle, Adjacent, Vals, Taken;
      ghost var o, vals := perimeter.order, Content(perimeter.alloc.v);
      perimeter.ContentKeys();
      TakenNone(o, vals);
      var it := perimeter.front;
      ghost var i := 0;
      while it.Some?
        invariant i <= |o| && it == Ith(o, i)
        invariant InStep(Taken(o, vals, i), cands, whereCands)
        decreases |o| - i
      {
        var h := it.value;
        ClosedAt(m.corner, Perimeter(), i);
        TakenNext(o, vals, i);
        var _ := AddCand(i, h, Taken(o, vals, i));
        it := perimeter.Next(i, h);
        i := i + 1;
      }
      TakenAll(o, vals);
    }

    /** The second perimeter entry, which the last edge link reads: `++it` on the first one. */
    method SecondEntry() returns (second: Option<nat>)
      requires Valid() && perimeter.order != []
      ensures second == Ith(perimeter.order, 1)
    {
      hide Chained, Content, Stored, LinksOk, Whole;
      perimeter.ContentKeys();
      second := perimeter.Next(0, perimeter.front.value);
    }

    /** The last edge link closes the perimeter of two. */
    method Finish(ghost c0: Corners, ghost l0: Links, ghost p0: seq<HalfEdge>, ghost created: int, next: nat)
      requires Valid() && |perimeter.order| == 2 && next == perimeter.order[1]
      requires Fills(c0, l0, p0, m.corner, m.link, Perimeter(), created)
      modifies m`link
      ensures m.Valid()
      ensures Extends(c0, m.corner) && KeepsLinks(l0, m.link)
      ensures Unlinked(m.corner, m.link) == Unlinked(c0, l0) - Elements(p0)
      ensures |Polys(m.corner)| == |Polys(c0)| + created && created == |p0| - 2
    {
      hide Chained, Content, Stored, LinksOk, Whole, Fills, Unlinked, Extends, KeepsLinks, Linked, Polys, Vals;
      ghost var l := m.link;
      m.ValidParts();
      perimeter.ContentKeys();
      ValsAt(perimeter.order, Content(perimeter.alloc.v), 0);
      FillEnd(c0, l0, p0, m.corner, m.link, Perimeter(), created);
      var e0 := perimeter.Get(perimeter.front.value);
      var e1 := perimeter.Get(next);
      m.Link(e0, e1);
      StoredRelinked(m.domain, m.corner, l, m.link, m.vertPolys);
    }

    /** One turn of the filling loop, for whichever candidate the scores put last. */
    method FillOnce(ghost c0: Corners, ghost l0: Links, ghost p0: seq<HalfEdge>, ghost created: int)
      requires Valid() && |perimeter.order| >= 3
      requires InStep(Content(perimeter.alloc.v), cands, whereCands)
      requires Fills(c0, l0, p0, m.corner, m.link, Perimeter(), created)
      modifies this`cands, this`whereCands, m, perimeter, perimeter.alloc
      ensures Valid() && |perimeter.order| == old(|perimeter.order|) - 1 && m.domain >= old(m.domain)
      ensures InStep(Content(perimeter.alloc.v), cands, whereCands)
      ensures Fills(c0, l0, p0, m.corner, m.link, Perimeter(), created + 1)
    {
      hide Chained, Content, Stored, LinksOk, Whole, Polys, InStep, Fills, Shortened, Distinct, Adjacent, Vals,
        FilledCorners, FilledLinks, ClosedCycle, Unlinked;
      ghost var o, vals, p := perimeter.order, Content(perimeter.alloc.v), Perimeter();
      ghost var c, l := m.corner, m.link;
      perimeter.ContentKeys();
      m.ValidParts();
      CandExists(o, vals, cands, whereCands);
      var it :| it in cands;
      var curr := cands[it];
      ghost var i := CandAt(o, vals, cands, whereCands, it);
      var next := perimeter.NextInCycle(i, curr);
      var prev := perimeter.PrevInCycle(i, curr);
      ValsAt(o, vals, i);
      FillsAt(c0, l0, p0, c, l, p, created, i);
      var a := perimeter.Get(curr);
      var b := perimeter.Get(next);
      var t := AddTriangle(a, b);
      FillStep(c0, l0, p0, c, l, p, created, i, t);
      var e := HalfEdge(t, 0);
      Requeue(i, curr, next, prev, e, Shortened(p, i, e));
    }

    /** The list and queue part of one step. */
    method Requeue(ghost i: nat, curr: nat, next: nat, prev: nat, e: HalfEdge, ghost p': seq<HalfEdge>)
      requires Valid() && 3 <= |perimeter.order| && i < |perimeter.order|
      requires curr == perimeter.order[i] && next == perimeter.order[CyclicNext(i, |perimeter.order|)]
      requires prev == perimeter.order[CyclicPrev(i, |perimeter.order|)]
      requires InStep(Content(perimeter.alloc.v), cands, whereCands)
      requires Distinct(Perimeter()) && e !in Perimeter()
      requires p' == Shortened(Perimeter(), i, e) && ClosedCycle(m.corner, p') && Distinct(p')
      modifies this`cands, this`whereCands, perimeter, perimeter.alloc
      ensures Valid() && |perimeter.order| == old(|perimeter.order|) - 1 && Perimeter() == p'
      ensures InStep(Content(perimeter.alloc.v), cands, whereCands)
    {
      hide Chained, Content, Stored, LinksOk, Whole, InStep, Shortened, Distinct, Adjacent, Vals, ClosedCycle;
      ghost var o, vals := perimeter.order, Content(perimeter.alloc.v);
      perimeter.ContentKeys();
      QueueFacts(o, vals, i, e);
      var h := Replace(i, curr, next, prev, e);
      AfterReplace(o, vals, i, h, e);
      AddCandidates(if i + 1 < |o| then i else |o| - 2, prev, h, vals - {prev} - {next} - {curr});
    }
  }

  /** What `AddCandidates` needs to know once `h` has replaced the two old handles. */
  lemma AfterReplace(o: seq<nat>, vals: map<nat, HalfEdge>, i: nat, h: nat, e: HalfEdge)
    requires Distinct(o) && vals.Keys == Elements(o) && 3 <= |o| && i < |o| && h !in o
    requires Distinct(Vals(o, vals)) && e !in Vals(o, vals)
    ensures var s, n, k := Shortened(o, i, h), |o| - 1, if i + 1 < |o| then i else |o| - 2;
            var curr, next, prev, j := o[i], o[CyclicNext(i, |o|)], o[CyclicPrev(i, |o|)], CyclicPrev(k, |o| - 1);
            var vals', rest := vals[h := e] - {curr} - {next}, vals - {prev} - {next} - {curr};
            && |s| == n && s[k] == h && s[j] == prev && prev != h
            && Elements(s) == vals'.Keys
            && var p := Vals(s, vals');
               && p == Shortened(Vals(o, vals), i, e)
               && h !in rest && prev !in rest && p[j] !in rest.Values && p[k] !in rest.Values
               && vals' == rest[prev := p[j]][h := p[k]]
  {
    hide Shortened, Vals, Distinct;
    var k := if i + 1 < |o| then i else |o| - 2;
    QueueFacts(o, vals, i, e);
    OrderShortened(o, i, h);
    PerimeterShortened(o, vals, i, h, e);
    OrderMembers(o, i, h, vals);
    RestOf(vals, o[CyclicPrev(i, |o|)], o[CyclicNext(i, |o|)], o[i], h, e);
    ValsAt(Shortened(o, i, h), vals[h := e] - {o[i]} - {o[CyclicNext(i, |o|)]}, k);
    assert e !in (vals - {o[CyclicPrev(i, |o|)]} - {o[CyclicNext(i, |o|)]} - {o[i]}).Values;
  }

  lemma ValsAt(o: seq<nat>, vals: map<nat, HalfEdge>, i: nat)
    requires Elements(o) <= vals.Keys && i < |o|
    ensures var j, k := CyclicNext(i, |o|), CyclicPrev(i, |o|);
            && o[i] in vals && o[j] in vals && o[k] in vals
            && Vals(o, vals)[i] == vals[o[i]] && Vals(o, vals)[j] == vals[o[j]] && Vals(o, vals)[k] == vals[o[k]]
  {
    assert o[i] in Elements(o) && o[CyclicNext(i, |o|)] in Elements(o) && o[CyclicPrev(i, |o|)] in Elements(o);
  }

  /** The part of the perimeter that already has candidates: its first `i` half-edges. */
  ghost function Taken(o: seq<nat>, vals: map<nat, HalfEdge>, i: nat): map<nat, HalfEdge>
    requires i <= |o|
  {
    map h | h in vals && h in Elements(o[..i]) :: vals[h]
  }

  lemma TakenNone(o: seq<nat>, vals: map<nat, HalfEdge>)
    ensures InStep(Taken(o, vals, 0), map[], map[])
  {
  }

  lemma TakenNext(o: seq<nat>, vals: map<nat, HalfEdge>, i: nat)
    requires Distinct(o) && vals.Keys == Elements(o) && i < |o| && Distinct(Vals(o, vals))
    ensures o[i] !in Taken(o, vals, i) && o[i] in vals && Vals(o, vals)[i] == vals[o[i]]
    ensures Vals(o, vals)[i] !in Taken(o, vals, i).Values
    ensures Taken(o, vals, i + 1) == Taken(o, vals, i)[o[i] := Vals(o, vals)[i]]
  {
    assert o[i] in Elements(o) && o[..i + 1] == o[..i] + [o[i]];
    ElementsSnoc(o[..i], o[i]);
    var p := Vals(o, vals);
    forall h | h in Taken(o, vals, i) ensures vals[h] != p[i] {
      var k :| 0 <= k < i && o[k] == h;
      assert p[k] == vals[h];
    }
  }

  lemma TakenAll(o: seq<nat>, vals: map<nat, HalfEdge>)
    requires vals.Keys == Elements(o)
    ensures Taken(o, vals, |o|) == vals
  {
    assert o[..|o|] == o;
  }

  /** A non-empty perimeter has a candidate, and every candidate is on the perimeter. */
  lemma CandExists(o: seq<nat>, vals: map<nat, HalfEdge>, cands: map<nat, nat>, whereCands: map<HalfEdge, nat>)
    requires vals.Keys == Elements(o) && o != [] && InStep(vals, cands, whereCands)
    ensures exists it :: it in cands
  {
    assert o[0] in Elements(o);
    assert HasCand(vals[o[0]], o[0], cands, whereCands);
  }

  lemma CandAt(o: seq<nat>, vals: map<nat, HalfEdge>, cands: map<nat, nat>, whereCands: map<HalfEdge, nat>, it: nat)
    returns (i: nat)
    requires vals.Keys == Elements(o) && InStep(vals, cands, whereCands) && it in cands
    ensures i < |o| && o[i] == cands[it]
  {
    assert cands[it] in Elements(o);
    i :| 0 <= i < |o| && o[i] == cands[it];
  }

  lemma ClosedAt(c: Corners, p: seq<HalfEdge>, k: nat)
    requires ClosedCycle(c, p) && k < |p|
    ensures Adjacent(c, p[k], p[CyclicNext(k, |p|)])
  {
    hide Adjacent;
  }

  lemma OrderMembers(o: seq<nat>, i: nat, h: nat, vals: map<nat, HalfEdge>)
    requires vals.Keys == Elements(o) && i < |o| && h !in o
    ensures h !in vals && o[i] in vals && o[CyclicNext(i, |o|)] in vals
  {
    assert o[i] in Elements(o) && o[CyclicNext(i, |o|)] in Elements(o);
  }

  lemma RestOf(vals: map<nat, HalfEdge>, prev: nat, next: nat, curr: nat, h: nat, e: HalfEdge)
    requires prev in vals && next in vals && curr in vals && prev != next && prev != curr
    requires h !in vals && e !in vals.Values && vals[prev] !in (vals - {prev, next, curr}).Values
    ensures var rest := vals - {prev} - {next} - {curr};
            && prev !in rest && vals[prev] !in rest.Values
            && h !in rest[prev := vals[prev]] && e !in rest[prev := vals[prev]].Values
            && rest[prev := vals[prev]][h := e] == vals[h := e] - {curr} - {next}
  {
    assert vals - {prev} - {next} - {curr} == vals - {prev, next, curr};
  }

  lemma PerimeterShortened(o: seq<nat>, vals: map<nat, HalfEdge>, i: nat, h: nat, e: HalfEdge)
    requires Distinct(o) && vals.Keys == Elements(o) && 3 <= |o| && i < |o| && h !in o
    ensures var vals' := vals[h := e] - {o[i]} - {o[CyclicNext(i, |o|)]};
            && Elements(Shortened(o, i, h)) == vals'.Keys
            && Vals(Shortened(o, i, h), vals') == Shortened(Vals(o, vals), i, e)
  {
    hide Shortened;
    ShortenedElements(o, i, h);
    var s, n := Shortened(o, i, h), |o|;
    var vals' := vals[h := e] - {o[i]} - {o[CyclicNext(i, n)]};
    ShortenedIndex(Vals(o, vals), i, e, 0);
    forall k | 0 <= k < |s| ensures Vals(s, vals')[k] == Shortened(Vals(o, vals), i, e)[k] {
      ShortenedIndex(o, i, h, k);
      ShortenedIndex(Vals(o, vals), i, e, k);
      assert s[k] in Elements(s);
    }
  }

  /** Facts about the perimeter `o` with content `vals` that one step relies on. */
  lemma QueueFacts(o: seq<nat>, vals: map<nat, HalfEdge>, i: nat, e: HalfEdge)
    requires Distinct(o) && vals.Keys == Elements(o) && 3 <= |o| && i < |o|
    requires Distinct(Vals(o, vals)) && e !in Vals(o, vals)
    ensures var curr, next, prev := o[i], o[CyclicNext(i, |o|)], o[CyclicPrev(i, |o|)];
            && curr != next && next != prev && prev != curr
            && curr in vals && next in vals && prev in vals
            && vals[prev] !in (vals - {prev, next, curr}).Values
            && e !in vals.Values
  {
    var p := Vals(o, vals);
    assert o[i] in Elements(o) && o[CyclicNext(i, |o|)] in Elements(o) && o[CyclicPrev(i, |o|)] in Elements(o);
    forall h | h in vals ensures exists k :: 0 <= k < |o| && o[k] == h && p[k] == vals[h] {
      var k :| 0 <= k < |o| && o[k] == h;
      assert p[k] == vals[h];
    }
    assert p[CyclicPrev(i, |o|)] == vals[o[CyclicPrev(i, |o|)]];
  }

  /** Inserting the new handle and erasing the two old ones shortens the order. */
  lemma OrderShortened(o: seq<nat>, i: nat, h: nat)
    requires Distinct(o) && 3 <= |o| && i < |o| && h !in o
    ensures var n, o1 := |o|, Inserted(o, i, h);
            && |o1| == n + 1 && o1[i + 1] == o[i]
            && var o2, j := Without(o1, i + 1), CyclicNext(i, n);
               && |o2| == n && o2[j] == o[j]
               && Without(o2, j) == Shortened(o, i, h)
    ensures var s, n, k := Shortened(o, i, h), |o| - 1, if i + 1 < |o| then i else |o| - 2;
            && |s| == n && s[k] == h && s[CyclicPrev(k, n)] == o[CyclicPrev(i, |o|)]
  {
    var n, o1 := |o|, Inserted(o, i, h);
    var o2, j := Without(o1, i + 1), CyclicNext(i, n);
    if i + 1 < n {
      assert o2 == o[..i] + [h] + o[i + 1..];
    } else {
      assert o2 == o[..i] + [h];
    }
  }

  /** Both calls of `link()` find both ends free. */
  lemma TriangleEnds(c: Corners, l: Links, p: nat, a: HalfEdge, b: HalfEdge)
    requires Whole(c) && LinksOk(c, l) && p !in Polys(c) && a in c && b in c && Next(a) in c && Next(b) in c
    requires a !in l && b !in l && a != b
    ensures var c', l' := FilledCorners(c, p, a, b), Linked(l, a, HalfEdge(p, 2));
            var e1, e2 := HalfEdge(p, 1), HalfEdge(p, 2);
            && a in c' && b in c' && e1 in c' && e2 in c'
            && e2 !in l && b !in l' && e1 !in l'
  {
    WithPolyExtends(c, p, Start(c, a), End(c, b), End(c, a));
    LinkKeys(c, l, Edges(p));
    hide WithPoly, LinksOk, Polys, Whole;
  }

  lemma StoredVerts(domain: nat, c: Corners, l: Links, vp: VertPolys, a: HalfEdge, b: HalfEdge)
    requires Stored(domain, c, l, vp) && a in c && Next(a) in c && Next(b) in c
    ensures c[a] in vp && c[Next(a)] in vp && c[Next(b)] in vp
    ensures Whole(c)
  {
  }

  /** A position in the queue that is not taken; which one depends on the scores. */
  method FreshPosition(cands: map<nat, nat>) returns (it: nat)
    ensures it !in cands
  {
    FreshExists(cands.Keys);
    it :| it !in cands;
  }

  lemma FreshExists(s: set<nat>)
    ensures exists n: nat :: n !in s
  {
    var n := MaxOf(s);
    assert n + 1 !in s;
  }

  lemma MaxOf(s: set<nat>) returns (n: nat)
    ensures forall k :: k in s ==> k <= n
  {
    if s == {} {
      n := 0;
    } else {
      var x :| x in s;
      var y := MaxOf(s - {x});
      n := if x < y then y else x;
      assert forall k :: k in s ==> k == x || k in s - {x};
    }
  }

  /** `cap_hole`: closes the boundary that `edge` lies on with triangles. The one boundary it cannot handle is a single
    * half-edge: it is `stuck` when the second perimeter entry, which the last link reads, is missing. */
  method CapHole(m: Mesh, edge: HalfEdge) returns (created: nat, stuck: bool, ghost p: seq<HalfEdge>)
    requires m.Valid() && edge in Unlinked(m.corner, m.link)
    modifies m
    ensures m.Valid() && m.domain >= old(m.domain) && BoundaryOf(old(m.corner), old(m.link), edge, p)
    ensures (stuck <==> |p| == 1) && (stuck <==> Turns(old(m.corner), old(m.link), edge, edge))
    ensures if stuck then m.corner == old(m.corner) && m.link == old(m.link) && created == 0
            else created == |p| - 2 && Unlinked(m.corner, m.link) == Unlinked(old(m.corner), old(m.link)) - Elements(p)
    ensures Extends(old(m.corner), m.corner) && KeepsLinks(old(m.link), m.link)
    ensures |Polys(m.corner)| == |Polys(old(m.corner))| + created
  {
    hide Chained, Content, Stored, LinksOk, Whole, Polys, InStep, Fills, Vals, ClosedCycle, Unlinked, Turns, BoundaryOf,
      Extends, KeepsLinks, Linked, Distinct;
    ghost var c, l := m.corner, m.link;
    m.ValidParts();
    var k := new Capper(m);
    k.CollectBoundary(edge);
    p := k.Perimeter();
    CapStart(c, l, edge, p);
    k.AddAll();
    created := 0;
    while k.perimeter.count >= 3
      invariant m.domain >= old(m.domain)
      invariant k.m == m && k.Valid() && k.perimeter.count == |k.perimeter.order|
      invariant InStep(Content(k.perimeter.alloc.v), k.cands, k.whereCands)
      invariant if |p| == 1 then m.corner == c && m.link == l && created == 0 && |k.perimeter.order| == 1
                else Fills(c, l, p, m.corner, m.link, k.Perimeter(), created) && |k.perimeter.order| >= 2
      invariant fresh(k) && fresh(k.perimeter) && fresh(k.perimeter.alloc)
      decreases k.perimeter.count
    {
      k.FillOnce(c, l, p, created);
      k.perimeter.ContentKeys();
      created := created + 1;
    }
    var second := k.SecondEntry();
    stuck := second.None?;
    if !stuck {
      k.Finish(c, l, p, created, second.value);
    }
  }

  lemma CapStart(c: Corners, l: Links, a: HalfEdge, p: seq<HalfEdge>)
    requires Whole(c) && LinksOk(c, l) && BoundaryOf(c, l, a, p)
    ensures ClosedCycle(c, p) && Distinct(p) && |p| >= 1
    ensures |p| == 1 <==> Turns(c, l, a, a)
    ensures |p| != 1 ==> Fills(c, l, p, c, l, p, 0)
    ensures Extends(c, c) && KeepsLinks(l, l)
  {
    hide Turns, Walk, ClosedCycle, LinksOk, Whole, Fills;
    LoneBoundary(c, l, a, p);
    BoundaryIsClosed(c, l, a, p);
    if |p| != 1 { FillStart(c, l, a, p); }
  }

  // ---- a mesh with a boundary of one half-edge ---------------------------------------

  function LoneVerts(): VertPolys {
    WithPolyCorners(map[0 := multiset{}, 1 := multiset{}], 0, 0, 0, 1)
  }

  lemma LoneStored()
    requires LinksOk(LoneCorners(), LoneLinks())
    ensures Stored(1, LoneCorners(), LoneLinks(), LoneVerts())
  {
    hide *;
    LoneUnlinked();
    StoredRelinked(1, LoneCorners(), map[], LoneLinks(), LoneVerts());
  }

  lemma LoneUnlinked()
    ensures Stored(1, LoneCorners(), map[], LoneVerts())
  {
    hide Stored, WithPolyCorners, WithPoly, Polys, LoneCorners;
    var vp: VertPolys := map[0 := multiset{}, 1 := multiset{}];
    NothingStored(vp);
    LoneAdded();
    AddStored(0, map[], map[], vp, 0, 0, 0, 1);
  }

  lemma LoneAdded()
    ensures WithPoly(map[], 0, 0, 0, 1) == LoneCorners()
  {
  }

  /** The failing run: on one triangle with two corners at the same vertex there is no second entry to read. */
  method LoneHole() returns (m: Mesh, stuck: bool)
    ensures m.Valid() && m.corner == LoneCorners() && m.link == LoneLinks() && stuck
  {
    hide Turns, LinksOk, Unlinked, Stored, LoneVerts, BoundaryOf;
    LoneBoundaryExists([]);
    LoneStored();
    m := new Mesh(1, LoneCorners(), LoneLinks(), LoneVerts());
    var created;
    ghost var p;
    created, stuck, p := CapHole(m, HalfEdge(0, 0));
  }

  // ---- all holes -----------------------------------------------------------------------

  /** The half-edges that the loops of `cap_holes` have not passed yet. */
  ghost predicate Passed(u: set<HalfEdge>, i: nat, ith: nat) {
    forall h :: h in u ==> h.poly > i || (h.poly == i && h.ith >= ith)
  }

  /** `cap_holes`: afterwards every half-edge is linked, although polygons are added to the table while the loop runs
    * over it, unless the loop gets stuck at a boundary of one half-edge. That happens exactly when the mesh had one at
    * the start. The half-edges of the holes are conserved: a hole of n half-edges takes n - 2 triangles. */
  method CapAllHoles(m: Mesh) returns (holes: nat, created: nat, stuck: bool)
    requires m.Valid()
    modifies m
    ensures stuck <==> !NoLoneBoundary(old(m.corner), old(m.link))
    ensures stuck <==> Unlinked(m.corner, m.link) != {}
    ensures m.Valid() && Extends(old(m.corner), m.corner) && KeepsLinks(old(m.link), m.link)
    ensures |Polys(m.corner)| == |Polys(old(m.corner))| + created
    ensures |Unlinked(m.corner, m.link)| + created + 2 * holes == |Unlinked(old(m.corner), old(m.link))|
  {
    hide *;
    ghost var c0, l0 := m.corner, m.link;
    m.ValidParts();
    CappingStart(c0, l0);
    holes, created, stuck := 0, 0, false;
    var i := 0;
    while i < m.domain
      invariant m.Valid() && Passed(Unlinked(m.corner, m.link), i, 0) && !stuck
      invariant Capping(c0, l0, m.corner, m.link, holes, created)
      decreases Unlinked(m.corner, m.link), m.domain - i
    {
      m.ValidParts();
      PassedPoly(m.corner, m.link, i);
      if HalfEdge(i, 0) in m.corner {
        ghost var u, d := Unlinked(m.corner, m.link), m.domain;
        var ith := 0;
        while ith < 3
          invariant m.Valid() && Passed(Unlinked(m.corner, m.link), i, ith) && ith <= 3
          invariant Capping(c0, l0, m.corner, m.link, holes, created)
          invariant HalfEdge(i, 0) in m.corner && i < m.domain && !stuck
          invariant (Unlinked(m.corner, m.link) == u && m.domain == d) || Unlinked(m.corner, m.link) < u
        {
          ghost var c, l := m.corner, m.link;
          m.ValidParts();
          PassedEdge(c, l, i, ith);
          if HalfEdge(i, ith) !in m.link {
            InUnlinked(c, l, HalfEdge(i, ith));
            var n; ghost var p;
            n, stuck, p := CapHole(m, HalfEdge(i, ith));
            if stuck {
              CappingStuck(c0, l0, c, l, holes, created, HalfEdge(i, ith));
              return;
            }
            CappingStep(c0, l0, c, l, m.corner, m.link, holes, created, n, HalfEdge(i, ith), p);
            PassedLess(Unlinked(c, l), Unlinked(m.corner, m.link), i, ith);
            holes, created := holes + 1, created + n;
          }
          ith := ith + 1;
        }
        m.ValidParts();
        PassedLast(m.corner, m.link, i);
      }
      i := i + 1;
    }
    m.ValidParts();
    PassedAll(m.domain, m.corner, m.link, m.vertPolys, i);
    CappingEnd(c0, l0, m.corner, m.link, holes, created);
  }

  /** Invariant of `cap_holes`: half-edges that are still unlinked, plus what was spent on the holes closed so far, make
    * up what was unlinked at the start; and whether some boundary is a single half-edge is as it was then. */
  ghost predicate Capping(c0: Corners, l0: Links, c: Corners, l: Links, holes: nat, created: nat) {
    && Extends(c0, c) && KeepsLinks(l0, l) && (NoLoneBoundary(c, l) <==> NoLoneBoundary(c0, l0))
    && |Polys(c)| == |Polys(c0)| + created
    && |Unlinked(c, l)| + created + 2 * holes == |Unlinked(c0, l0)|
  }

  lemma CappingStart(c0: Corners, l0: Links)
    ensures Capping(c0, l0, c0, l0, 0, 0) && Passed(Unlinked(c0, l0), 0, 0)
  {
    hide NoLoneBoundary;
  }

  lemma InUnlinked(c: Corners, l: Links, h: HalfEdge)
    requires h in c && h !in l
    ensures h in Unlinked(c, l)
  {
  }

  lemma CappingStuck(c0: Corners, l0: Links, c: Corners, l: Links, holes: nat, created: nat, h: HalfEdge)
    requires Capping(c0, l0, c, l, holes, created) && h in Unlinked(c, l) && Turns(c, l, h, h)
    ensures !NoLoneBoundary(c0, l0) && Unlinked(c, l) != {}
    ensures Extends(c0, c) && KeepsLinks(l0, l) && |Polys(c)| == |Polys(c0)| + created
    ensures |Unlinked(c, l)| + created + 2 * holes == |Unlinked(c0, l0)|
  {
    hide Turns;
  }

  lemma CappingStep(c0: Corners, l0: Links, c: Corners, l: Links, c': Corners, l': Links, holes: nat, created: nat,
                    n: nat, edge: HalfEdge, p: seq<HalfEdge>)
    requires Whole(c) && LinksOk(c, l) && Capping(c0, l0, c, l, holes, created)
    requires BoundaryOf(c, l, edge, p) && n == |p| - 2
    requires Extends(c, c') && KeepsLinks(l, l') && Unlinked(c', l') == Unlinked(c, l) - Elements(p)
    requires |Polys(c')| == |Polys(c)| + n
    ensures Capping(c0, l0, c', l', holes + 1, created + n)
    ensures Unlinked(c', l') < Unlinked(c, l) && edge !in Unlinked(c', l') && forall h :: h in c ==> h in c'
  {
    hide Unlinked, NoLoneBoundary, LinksOk, Whole, Polys, Walk;
    ExtendsTrans(c0, l0, c, l, c', l');
    LoneBoundarySame(c, l, c', l', edge, p);
    DistinctSize(p);
    assert edge in Elements(p) && Elements(p) <= Unlinked(c, l);
    assert Unlinked(c, l) == Unlinked(c', l') + Elements(p);
  }

  lemma CappingEnd(c0: Corners, l0: Links, c: Corners, l: Links, holes: nat, created: nat)
    requires Capping(c0, l0, c, l, holes, created) && Unlinked(c, l) == {}
    ensures NoLoneBoundary(c0, l0)
    ensures Extends(c0, c) && KeepsLinks(l0, l) && |Polys(c)| == |Polys(c0)| + created
    ensures |Unlinked(c, l)| + created + 2 * holes == |Unlinked(c0, l0)|
  {
    hide Unlinked, Polys, Turns;
    assert NoLoneBoundary(c, l);
  }

  lemma PassedPoly(c: Corners, l: Links, i: nat)
    requires Whole(c) && Passed(Unlinked(c, l), i, 0)
    ensures HalfEdge(i, 0) !in c ==> Passed(Unlinked(c, l), i + 1, 0)
  {
  }

  lemma PassedEdge(c: Corners, l: Links, i: nat, ith: nat)
    requires Whole(c) && HalfEdge(i, 0) in c && ith < 3 && Passed(Unlinked(c, l), i, ith)
    ensures HalfEdge(i, ith) in c
    ensures HalfEdge(i, ith) in l ==> Passed(Unlinked(c, l), i, ith + 1)
  {
  }

  lemma PassedLess(u: set<HalfEdge>, u': set<HalfEdge>, i: nat, ith: nat)
    requires Passed(u, i, ith) && u' < u && HalfEdge(i, ith) !in u'
    ensures Passed(u', i, ith + 1)
  {
  }

  lemma PassedLast(c: Corners, l: Links, i: nat)
    requires Whole(c) && Passed(Unlinked(c, l), i, 3)
    ensures Passed(Unlinked(c, l), i + 1, 0)
  {
  }

  lemma PassedAll(domain: nat, c: Corners, l: Links, vp: VertPolys, i: nat)
    requires Stored(domain, c, l, vp) && domain <= i && Passed(Unlinked(c, l), i, 0)
    ensures Unlinked(c, l) == {}
  {
    hide Whole, VertPolysOk;
  }
}
