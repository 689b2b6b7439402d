/** Edge linking followed by hole capping: the sequence that turns loose triangles into a closed surface. */
module ClosedMesh {
  import opened HalfEdges
  import opened Boundary
  import opened Filling
  import EdgeLinks
  import CapHoles

  /** No edge of a triangle starts and ends at the same vertex. */
  ghost predicate ProperEdges(c: Corners) {
    forall h :: h in c && Next(h) in c ==> Start(c, h) != End(c, h)
  }

  lemma ProperMesh(c: Corners, l: Links)
    requires Whole(c) && LinksOk(c, l) && ProperEdges(c)
    ensures NoLoneBoundary(c, l)
  {
    forall h | h in Unlinked(c, l) ensures Next(h) in c && Start(c, h) != End(c, h) { WholeNext(c, h); }
    ProperEdgesSuffice(c, l);
  }

  /** Any mesh keeps valid links, and the half-edges that were open are accounted for: two for each match, n for a hole
    * of n edges, which took n - 2 triangles, and those still open. Every half-edge ends linked, as the second check
    * tells, unless capping gets stuck, which it does not on proper triangles. */
  method Close(m: Mesh) returns (matched: nat, holes: nat, created: nat, stuck: bool, valid: bool, all: bool)
    requires m.Valid()
    modifies m
    ensures m.Valid() && valid
    ensures (all <==> !stuck) && (all <==> Unlinked(m.corner, m.link) == {})
    ensures ProperEdges(old(m.corner)) ==> !stuck
    ensures Extends(old(m.corner), m.corner) && KeepsLinks(old(m.link), m.link)
    ensures 2 * matched + created + 2 * holes + |Unlinked(m.corner, m.link)|
            == |Unlinked(old(m.corner), old(m.link))|
    ensures |Polys(m.corner)| == |Polys(old(m.corner))| + created
  {
    hide *;
    ghost var c, l0 := m.corner, m.link;
    var unmatched: nat;
    matched, unmatched := EdgeLinks.FastComputeEdgeLinks(m);
    ghost var l1 := m.link;
    m.ValidParts();
    if ProperEdges(m.corner) { ProperMesh(m.corner, m.link); }
    holes, created, stuck := CapHoles.CapAllHoles(m);
    KeepsLinksTrans(l0, l1, m.link);
    m.ValidParts();
    valid := EdgeLinks.HasValidEdgeLinks(m);
    all := EdgeLinks.HasAllEdgeLinks(m);
    Mutual(m.corner, m.link);
  }

  lemma KeepsLinksTrans(a: Links, b: Links, c: Links)
    requires KeepsLinks(a, b) && KeepsLinks(b, c)
    ensures KeepsLinks(a, c)
  {
  }

  lemma Mutual(c: Corners, l: Links)
    requires LinksOk(c, l)
    ensures forall h :: h in l ==> l[h] in l && l[l[h]] == h
  {
    forall h | h in l ensures l[h] in l && l[l[h]] == h { assert LinkOk(c, l, h); }
  }
}
