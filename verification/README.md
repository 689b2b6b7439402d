# Models of salgo's algorithmic kernels

This project models, in Dafny, the algorithms of salgo that keep an invariant across several functions and loops, and
proves what they promise:

* **Half-edge meshes** (`HalfEdges`, `PolyErase`, `EdgeLinks`, `Boundary`, `Filling`, `CapHoles`, `Subdivision`,
  `ClosedMesh`): triangles with three corners and three optional edge links; erasing, linking, hole capping, edge
  splitting and triangle cutting. A mesh is a class whose tables the operations edit in place.
* **Number theory** (`NumberTheory`, `MultAndMod`, `Primes`, `Modulo`, `Binomial`): multiplication modulo a 64-bit
  number without overflow, Miller-Rabin, in-place modular arithmetic in 32-bit words, and the moving binomial cursor.
  Word sizes are written out; Fermat's theorem, Euclid's lemma and the binomial theorem are proved here.
* **Kd-tree** (`KdShape`, `KdClosest`, `KdQuery`, `Kd`): insertion, erasure, nearest centre and intersection queries,
  the pruned searches against plain scans.
* **Union-find** (`UnionFind`): path compression, merging, and data per class.
* **Containers** (`ArrayAllocator`, `LinkedList`, `ListLoops`, `UnorderedArray`, `HashTable`, `HashLoops`,
  `ChunkedArray`, `Inorder`): allocation by circular search, erasing while iterating, rehashing, blocks of doubling
  size, and in-order walking. `ErasingScan` is the plain scan that erasing loops and queries are proved against.

Value-level lemmas state what one step does to the tables; the class methods are thin and proved against them. A `Valid`
predicate is what the operations of a class keep. The exceptions are `ChunkedArray.Construct`, which keeps it under the
condition below, and the steps `Link`, `Unlink`, `ChangeVert` and `Add` of a mesh, which the mesh algorithms combine and
which state their exact effect on the tables instead. Outputs called `stuck` and `overran` tell that a run has come to a
step that the source's own checks forbid, or that reads what is not there.

## Findings

Where the code meets its intent only under a condition, the exact condition is proved:

* `+=` and `-=` of `Modulo` are right for all operands if and only if the modulus is at most 2^31 (`AddAlwaysRight`).
* `miller_rabin` accepts a prime if and only if it is not 2 and no base is 0 (`PrimeVerdict`); `is_prime(2)` is false.
* The nearest search compares an unsquared gap with a squared distance: it is right for all trees whose squared
  distances are 0 or at least `gap` if and only if `gap >= 1` (`GapSufficesFromOne`), which covers integer points;
  `MissedClosest` is a failing run for every smaller spacing.
* A forward loop over `Unordered_Array` is right if and only if it never erases through the array (`ForEach`). Otherwise
  it skips an element, as the documentation says (`SkippedElement`), or, when it erases the last element, it runs past
  the end, which the documentation does not say (`OverrunLoop`).
* A forward loop over `List` is right if and only if no body erases its own element through the list, or, after erasing
  it through the accessor, the one that followed (`ListLoops.ForEach`, with the runs `StuckAtErased` and `StuckAtNext`).
* A loop over the hash table is right if and only if no body erases an element that is ahead in the bucket of the walk
  (`HashLoops.ForEach`, with the runs `ShownAgain` and `WalkedOut`).
* `cap_hole` reads a second perimeter entry that is missing exactly when the boundary is a single half-edge, as on a
  triangle with two corners at one vertex (`CapHole`; `LoneHole` is such a run). `cap_holes` comes to that point if and
  only if the mesh had such a boundary at the start (`CapAllHoles`).
* `split_edge` links a half-edge that is linked already if and only if the edge is linked to the one after it in its own
  triangle (`SplitEdge`; `SplitStuck` is such a run). Its own checks at the start do not exclude that.
* `construct` on a sparse chunked array accepts free slots past the size, within the last block; the array stays
  well-formed if and only if the handle is below the size (`ChunkedArray.Construct`). There is such a slot exactly if
  size + 1 is not a power of two (`SlotPastSize`); `ConstructedPastSize` is a run after which the slot that the next
  `emplace_back` writes is live.

## Model

| member | source | states |
|---|---|---|
| `HalfEdges.Mesh.Link` | include/salgo/_/geom/g3d/mesh/mesh-accessors.inl:551-565 | Both ends, free before, point at each other; no other link changes. |
| `HalfEdges.Mesh.Unlink` | include/salgo/_/geom/g3d/mesh/mesh-accessors.inl:567-576 | A mutual link loses both of its ends; no other link changes. |
| `HalfEdges.Mesh.ChangeVert` | include/salgo/_/geom/g3d/mesh/mesh-accessors.inl:432-449 | One corner moves to another vertex and the vertex-to-corner links stay the exact inverse of the corner table. |
| `HalfEdges.Mesh.Add` | include/salgo/_/geom/g3d/mesh/mesh-accessors.inl:749-764 | The new triangle gets an unused handle and its three corners in order; nothing else changes and the vertex-to-corner links stay exact. |
| `HalfEdges.ChangeVertKeeps` | include/salgo/_/geom/g3d/mesh/mesh-accessors.inl:437-448 | Moving a corner out of one vertex's links and into another's keeps the two tables inverse to each other. |
| `HalfEdges.LinkReversed` | include/salgo/_/geom/g3d/mesh/mesh-accessors.inl:612-619 | In a mesh with valid links, the partner of a half-edge runs between the same two vertices the other way. |
| `PolyErase.Erase` | include/salgo/_/geom/g3d/mesh/mesh-accessors.inl:264-320 | Exactly the polygon's three half-edges go; exactly the links into them go from other polygons; exactly the vertices that lost their last corner go; all mesh invariants survive, also for polygons linked to themselves. |
| `PolyErase.VertsStep` | include/salgo/_/geom/g3d/mesh/mesh-accessors.inl:300-314 | Taking out one corner erases its vertex if and only if no other corner uses it. |
| `PolyErase.LinksErased` | include/salgo/_/geom/g3d/mesh/mesh-accessors.inl:288-296 | After the three resets and the removal of the polygon the remaining links are mutual and reversed. |
| `Boundary.FanStepInjective` | include/salgo/_/geom/g3d/cap-holes.hpp:99-101 | The inner rotation step (next, then across the link) is injective and its image misses the unlinked half-edges. |
| `Boundary.TurnsTotal` | include/salgo/_/geom/g3d/cap-holes.hpp:99-103 | From every unlinked half-edge the rotation ends at an unlinked half-edge. |
| `Boundary.TurnsUnique` | include/salgo/_/geom/g3d/cap-holes.hpp:99-103 | The next boundary half-edge is determined. |
| `Boundary.TurnsInjective` | include/salgo/_/geom/g3d/cap-holes.hpp:97-106 | The outer step is injective on unlinked half-edges, hence a permutation of them. |
| `Boundary.TurnsAdjacent` | include/salgo/_/geom/g3d/cap-holes.hpp:99-105 | Each boundary half-edge ends at the vertex where the following one starts. |
| `Boundary.CollectStep` | include/salgo/_/geom/g3d/cap-holes.hpp:98-106 | The outer loop meets no boundary half-edge twice before it is back at its start. |
| `Boundary.BoundaryIsClosed` | include/salgo/_/geom/g3d/cap-holes.hpp:97-106 | What the walk collects is a closed vertex cycle. |
| `Boundary.LoneBoundary` | include/salgo/_/geom/g3d/cap-holes.hpp:97-106 | The boundary is a single half-edge exactly when the start turns into itself, and then the half-edge starts and ends at one vertex. |
| `Boundary.ProperEdgesSuffice` | include/salgo/_/geom/g3d/cap-holes.hpp:97-106 | No boundary is a single half-edge when no unlinked half-edge is a loop. |
| `Boundary.BoundaryBackwards` | include/salgo/_/geom/g3d/cap-holes.hpp:97-106 | A half-edge that turns into a boundary is on it: boundaries partition the unlinked half-edges. |
| `Boundary.LoneBoundaryExists` | include/salgo/_/geom/g3d/cap-holes.hpp:97-106 | A mesh with valid links whose boundary walk collects exactly one entry: a triangle with two corners at one vertex, its other two edges linked together. |
| `Boundary.OtherBoundaryKept` | include/salgo/_/geom/g3d/cap-holes.hpp:194-202 | Capping one boundary leaves every other boundary as it was, half-edge by half-edge. |
| `Boundary.NoLoneBoundaryKept` | include/salgo/_/geom/g3d/cap-holes.hpp:194-202 | Capping one boundary makes no other one a single half-edge. |
| `Boundary.LoneBoundaryKept` | include/salgo/_/geom/g3d/cap-holes.hpp:194-202 | A half-edge that turns into itself is on no longer boundary and stays one when another boundary is capped. |
| `Boundary.LoneBoundarySame` | include/salgo/_/geom/g3d/cap-holes.hpp:194-202 | Whether some boundary is a single half-edge does not change while holes are capped. |
| `CapHoles.NextBoundary` | include/salgo/_/geom/g3d/cap-holes.hpp:99-103 | The inner loop terminates on any finite mesh with valid links and finds the next boundary half-edge. |
| `CapHoles.Capper.CollectBoundary` | include/salgo/_/geom/g3d/cap-holes.hpp:97-106 | The do-while loop terminates and the perimeter list then holds exactly the duplicate-free boundary cycle through the start. |
| `CapHoles.Capper.AddCand` | include/salgo/_/geom/g3d/cap-holes.hpp:68-82 | Adds a candidate at an arbitrary free queue position; perimeter entries, cands and where_cands stay in one-to-one step. |
| `CapHoles.Capper.DelCand` | include/salgo/_/geom/g3d/cap-holes.hpp:85-94 | Removes a candidate from both maps; the other perimeter entries stay in one-to-one step with both. |
| `CapHoles.DelInStep` | include/salgo/_/geom/g3d/cap-holes.hpp:85-94 | Dropping one perimeter entry with its candidate keeps the three structures in one-to-one step. |
| `CapHoles.AddInStep` | include/salgo/_/geom/g3d/cap-holes.hpp:78-79 | Adding an entry with its candidate keeps them in step. |
| `Filling.TriangleFills` | include/salgo/_/geom/g3d/cap-holes.hpp:131-139 | Adding the triangle over two consecutive boundary half-edges and its two links keeps links mutual and reversed; exactly the new perimeter half-edge stays open, from the start of the first to the end of the second. |
| `Filling.ShortenedCloses` | include/salgo/_/geom/g3d/cap-holes.hpp:145-158 | The perimeter with the two half-edges replaced by the new one is again a closed vertex cycle, also across the end of the list. |
| `Filling.FillStep` | include/salgo/_/geom/g3d/cap-holes.hpp:114-166 | One round keeps the loop invariant: triangles created plus perimeter length is constant, the open half-edges are those outside the boundary plus the perimeter. |
| `Filling.FillEnd` | include/salgo/_/geom/g3d/cap-holes.hpp:168-176 | Linking the last two half-edges closes the boundary: n half-edges took n - 2 triangles. |
| `CapHoles.Capper.FillOnce` | include/salgo/_/geom/g3d/cap-holes.hpp:114-166 | The in-place round (queue, list, maps, mesh) does what FillStep says for any choice of candidate. |
| `CapHoles.Capper.Finish` | include/salgo/_/geom/g3d/cap-holes.hpp:168-176 | The final link leaves exactly the half-edges outside this boundary open. |
| `CapHoles.Capper.SecondEntry` | include/salgo/_/geom/g3d/cap-holes.hpp:170-173 | The second perimeter entry, if there is one. |
| `CapHoles.LoneHole` | include/salgo/_/geom/g3d/cap-holes.hpp:168-175 | A run that gets stuck: one triangle with two corners at the same vertex. |
| `CapHoles.CapHole` | include/salgo/_/geom/g3d/cap-holes.hpp:97-178 | On any unlinked half-edge: the entry that the last link reads is missing if and only if the boundary is a single half-edge, that is, the start turns into itself, and then nothing has changed. Otherwise a boundary of n half-edges takes n - 2 triangles, links stay valid, exactly that boundary is closed, and no existing polygon or link changes. |
| `CapHoles.CapAllHoles` | include/salgo/_/geom/g3d/cap-holes.hpp:191-205 | On any mesh: gets stuck if and only if some boundary was a single half-edge at the start; otherwise ends, although it adds polygons to the table it iterates, with every half-edge linked. created + 2 * holes plus the half-edges still open equals the number open at the start. |
| `ClosedMesh.Close` | test/g3d/cap-holes.cpp:21-37 | Linking then capping any mesh leaves valid links, and 2 * matched + created + 2 * holes plus the half-edges still open equals those open at the start; the check for missing links is true exactly if capping did not get stuck, which it never does on proper triangles. |
| `EdgeLinks.FastComputeEdgeLinks` | include/salgo/_/geom/g3d/edge-links.inl:94-152 | Existing links are untouched, links stay mutual and reversed, 2 * matched + open = half-edges unlinked before, open = unlinked after, and no two unlinked half-edges are reverses of each other. |
| `EdgeLinks.MatchOne` | include/salgo/_/geom/g3d/edge-links.inl:112-139 | One round keeps the table of open edges exactly the unlinked half-edges passed so far, no two of them matching. |
| `EdgeLinks.MatchesAreMaximum` | include/salgo/_/geom/g3d/edge-links.inl:89-90 | Whichever table entry is found, vertices a and b get min(#ab, #ba) links. |
| `EdgeLinks.LoopsLeft` | include/salgo/_/geom/g3d/edge-links.inl:112-139 | Of the half-edges from a vertex to itself at most one stays unlinked. |
| `EdgeLinks.HasValidEdgeLinks` | include/salgo/_/geom/g3d/edge-links.inl:22-36 | True if and only if every link is answered by its other end. |
| `EdgeLinks.HasAllEdgeLinks` | include/salgo/_/geom/g3d/edge-links.inl:43-53 | True if and only if no half-edge is unlinked. |
| `Subdivision.CutPoly` | include/salgo/_/geom/g3d/cut-poly.hpp:24-86 | Three triangles over the old one; corners as drawn; the old outer links move to the new half-edges, the three inner links are made, all links are mutual and reversed and vertex-to-corner links exact. |
| `Subdivision.CutPolyOk` | include/salgo/_/geom/g3d/cut-poly.hpp:63-77 | After moving the two outer links and making the three inner ones, links are mutual and reversed, and every old link is found at its renamed half-edges. |
| `Subdivision.SplitEdge` | include/salgo/_/geom/g3d/split-edge.hpp:23-113 | For every edge: stuck at a half-edge that is linked already if and only if the edge is linked to the one after it in its own triangle. Otherwise, with one polygon, two, or the same one on both sides: the exact corner and link tables, in which outer links have moved to the right new half-edges and the new inner half-edges are linked in pairs; all links mutual and reversed, vertex-to-corner links exact. |
| `Subdivision.SplitStuck` | include/salgo/_/geom/g3d/split-edge.hpp:57-110 | A run that gets stuck, on a triangle (a, b, a). |
| `Subdivision.SplitFoldedOk` | include/salgo/_/geom/g3d/split-edge.hpp:57-110 | For an edge linked to the one before it in its own triangle: links after both halves are valid, the three inner pairs are linked, and every other link is found at its renamed half-edges. |
| `Subdivision.LowerStage` | include/salgo/_/geom/g3d/split-edge.hpp:81-110 | In all cases: which half-edge is across the edge after the upper half, that unlink() and link() find their ends as they demand, except the last link() in the case that gets stuck. |
| `Subdivision.SplitBoundaryOk` | include/salgo/_/geom/g3d/split-edge.hpp:60-78 | On a boundary edge: links after the upper half are valid and each old link is at its renamed half-edge. |
| `Subdivision.SplitInnerOk` | include/salgo/_/geom/g3d/split-edge.hpp:60-110 | With both polygons: links after both halves are valid, renamed as documented, also where the two triangles share further edges. |
| `Subdivision.LowerLinksPaired` | include/salgo/_/geom/g3d/split-edge.hpp:102-109 | After the lower half dp-pd and pb-bp are linked and pc-cp still are, also when c equals d. |
| `Subdivision.SplitUpper` | include/salgo/_/geom/g3d/split-edge.hpp:57-78 | The upper half of the in-place edit, on corners, links and vertex-to-corner links. |
| `Subdivision.SplitLower` | include/salgo/_/geom/g3d/split-edge.hpp:80-110 | The lower half restores full link validity. |
| `Subdivision.RenamedMove` | include/salgo/_/geom/g3d/cut-poly.hpp:63-67 | Moving a link to a fresh half-edge with the same ends renames exactly that half-edge in every link. |
| `Subdivision.LinksOkReversing` | include/salgo/_/geom/g3d/mesh/mesh-accessors.inl:612-619 | Links are mutual and reversed exactly when they reverse the end vertices of their half-edges. |
| `NumberTheory.Euclid` | include/salgo/_/discr/primes.hpp:32-50 | A prime that divides a product divides a factor. |
| `NumberTheory.BinomialTheorem` | include/salgo/_/discr/primes.hpp:12-27 | (a + 1)^n is the sum of its binomial terms, the step to Fermat's theorem. |
| `NumberTheory.Fermat` | include/salgo/_/discr/primes.hpp:53-80 | a^p = a modulo a prime p. |
| `NumberTheory.FermatUnit` | include/salgo/_/discr/modulo.inl:223-224 | b^(p-1) = 1, and b times b^(p-2) = 1, modulo a prime p that does not divide b. |
| `NumberTheory.SquareRootsOfOne` | include/salgo/_/discr/primes.hpp:34-43 | Modulo a prime only 1 and p - 1 square to 1. |
| `NumberTheory.CRow` | include/salgo/_/discr/binomial.hpp:36-46 | C(n,k) (n - k) = C(n,k+1) (k + 1). |
| `NumberTheory.CColumn` | include/salgo/_/discr/binomial.hpp:48-58 | C(n,k) (n - k) = C(n-1,k) n. |
| `Primes.MrPow` | include/salgo/_/discr/primes.hpp:11-27 | Equals base^d mod p. |
| `Primes.MrCheck` | include/salgo/_/discr/primes.hpp:31-50 | True if and only if one of the first r - 1 squares is p - 1; the early exit at 1 is sound for every p. |
| `Primes.ChainMeetsMinusOne` | include/salgo/_/discr/primes.hpp:31-50 | For prime p a squaring chain that ends in 1 starts at 1 or p - 1 or meets p - 1. |
| `Primes.OddPart` | include/salgo/_/discr/primes.hpp:59-61 | p - 1 = d * 2^r with d odd. |
| `Primes.PrimePasses` | include/salgo/_/discr/primes.hpp:63-77 | A prime above 2 passes exactly the bases it does not divide. |
| `Primes.MillerRabin` | include/salgo/_/discr/primes.hpp:54-80 | With p - 1 = d * 2^r and d odd: accepts p if and only if p is odd, above 2, and every base b below p has b^d = 1 or one of b^d, b^2d, .., b^(d 2^(r-1)) at p - 1 modulo p; then b^(p-1) = 1 for each of them. |
| `Primes.PassesFermat` | include/salgo/_/discr/primes.hpp:54-80 | A base that passes also passes the test of Fermat, for every odd p. |
| `Primes.PrimeVerdict` | include/salgo/_/discr/primes.hpp:54-80 | A prime is accepted if and only if it is not 2 and 0 is not among the bases, for any list of bases. |
| `Primes.IsPrime32` | include/salgo/_/discr/primes.hpp:85-87 | Accepts exactly the odd numbers above 2 that pass the test to the bases 2, 7 and 61; in particular every 32-bit prime but 2. |
| `Primes.IsPrime64` | include/salgo/_/discr/primes.hpp:92-94 | The same to the first twelve primes, for 64-bit words where the low word of p - 1 is not zero. |
| `MultAndMod.MultAndModNarrow` | include/salgo/_/discr/modulo-utils.hpp:45-65 | Exactly (a * b) mod n for all 64-bit a, b and n >= 1. |
| `MultAndMod.AddLargeIs` | include/salgo/_/discr/modulo-utils.hpp:59-61 | For n > 2^63 the conditional sum is the sum mod n although r + a may wrap around 2^64. |
| `MultAndMod.AddSmallIs` | include/salgo/_/discr/modulo-utils.hpp:53-55 | For n <= 2^63 the sum does not wrap and one subtraction reduces it. |
| `MultAndMod.OrBelow` | include/salgo/_/discr/modulo-utils.hpp:49 | The bitwise or of two numbers is below 2^k exactly when both are, so the test on it keeps the product below 2^64. |
| `MultAndMod.Round` | include/salgo/_/discr/modulo-utils.hpp:52-62 | r + a * b is kept modulo n by every round of both loops. |
| `Modulo.FixRangeIs` | include/salgo/_/discr/modulo.inl:123-141 | The shortcut reduction equals the mathematical remainder for every machine integer, negative ones included. |
| `Modulo.IntPow` | include/salgo/_/int-pow.hpp:13-28 | Square and multiply equals the repeated product mod m. |
| `Modulo.Modulo.AddAssign` | include/salgo/_/discr/modulo.inl:172-178 | The sum mod m is right if and only if h + o.h fits 32 bits; the result stays below m. |
| `Modulo.Modulo.SubAssign` | include/salgo/_/discr/modulo.inl:180-186 | The difference mod m is right if and only if m + h - o.h fits 32 bits. |
| `Modulo.Modulo.MulAssign` | include/salgo/_/discr/modulo.inl:188-210 | The product mod m, for every m. |
| `Modulo.Modulo.DivAssign` | include/salgo/_/discr/modulo.inl:212-227 | Multiplies by o^(totient - 1); for prime m and nonzero o the quotient times o is the dividend. |
| `Modulo.AddAlwaysRight` | include/salgo/_/discr/modulo.inl:172-186 | All sums, and all differences, are right if and only if m <= 2^31. |
| `Modulo.DivUndoes` | include/salgo/_/discr/modulo.inl:223-224 | (a / b) * b = a for prime m and nonzero b. |
| `Binomial.Binomial.Get` | include/salgo/_/discr/binomial.hpp:19-28 | C(nn,kk), or 0 outside the triangle, after any earlier queries; the cursor stays inside the triangle with its value. |
| `Binomial.Binomial.MoveL` | include/salgo/_/discr/binomial.hpp:36-40 | Steps to C(n,k-1); the division is exact. |
| `Binomial.Binomial.MoveR` | include/salgo/_/discr/binomial.hpp:42-46 | Steps to C(n,k+1); the division is exact. |
| `Binomial.Binomial.MoveD` | include/salgo/_/discr/binomial.hpp:48-52 | Steps to C(n+1,k); the division is exact. |
| `Binomial.Binomial.MoveU` | include/salgo/_/discr/binomial.hpp:54-58 | Steps to C(n-1,k); the division is exact. |
| `KdShape.RelaxedTreeOk` | include/salgo/_/linalg/kd.hpp:267-275 | Relaxing a bound of one node keeps the tree invariant. |
| `KdShape.Descend` | include/salgo/_/linalg/kd.hpp:264-286 | Going to a child after relaxing, the new box respects the bounds of every node above it. |
| `KdShape.GraftedTreeOk` | include/salgo/_/linalg/kd.hpp:268-283 | Linking the leaf where the descent stopped keeps the invariant and adds exactly that handle. |
| `KdShape.GoLeft` | include/salgo/_/linalg/kd.hpp:267-273 | The left branch of the loop: invariant kept, either a leaf linked or a strictly smaller subtree entered. |
| `KdShape.GoRight` | include/salgo/_/linalg/kd.hpp:276-283 | The right branch, likewise. |
| `KdShape.RoutedLinked` | include/salgo/_/linalg/kd.hpp:264-284 | At every node above the linked leaf the descent took the side of smaller cost and relaxed just that bound; all other nodes are as they were. |
| `KdShape.InsertedMeans` | include/salgo/_/linalg/kd.hpp:264-284 | In arithmetic: left if and only if max - l_to < r_fr - min, right at equal costs; the bound of that side becomes the coordinate of the box if that is further out, the other one stays; the gap r_fr - l_to comes out at least as wide as on the other side. |
| `KdShape.DepthIs` | include/salgo/_/linalg/kd.hpp:264-286 | The depth that picks the axis is the number of nodes above. |
| `KdShape.PreorderLists` | include/salgo/_/linalg/kd.hpp:331-350 | Preorder lists every node of a subtree exactly once. |
| `KdShape.PreorderOrder` | include/salgo/_/linalg/kd.hpp:331-350 | Every node comes before those below it, and its left subtree before its right one. |
| `Kd.Kd.Emplace` | include/salgo/_/linalg/kd.hpp:244-293 | After any insertion every left subtree has max[axis] <= l_to and every right one min[axis] >= r_fr, whatever the bounds of a non-root node started as; at every node above the new one the side of smaller cost was taken, the right one at equal costs, said in the old bounds and the coordinates of the box, and just its bound moved, to the larger (smaller) of the old bound and the coordinate; the gap is at least what the other side would have left; nothing else changes; termination. |
| `Kd.Kd.Erase` | include/salgo/_/linalg/kd.hpp:94-107 | Marks the node; the count stays that of the live nodes exactly when the node was live. |
| `KdClosest.FindIsScan` | include/salgo/_/linalg/kd.hpp:331-350 | If all squared distances are 0 or at least 1, the pruned recursion returns exactly what a scan of the subtree in preorder returns. |
| `KdClosest.PruneSound` | include/salgo/_/linalg/kd.hpp:341-345 | The comparison of an unsquared gap with a squared distance is sound when the distance is 0 or at least 1. |
| `KdClosest.ScanFindsFirstClosest` | include/salgo/_/linalg/kd.hpp:333-339 | The scan finds the first, in order, of the nearest un-erased centres below the limit, or none. |
| `KdClosest.NormSame` | include/salgo/_/linalg/kd.hpp:334 | The squared distance of a point to itself is 0. |
| `KdClosest.NormAxis` | include/salgo/_/linalg/kd.hpp:334 | Every axis counts once, with the square of the difference. |
| `KdClosest.CenterMiddle` | include/salgo/_/linalg/kd.hpp:334 | The centre is as far from the lower corner as from the upper one on every axis. |
| `KdClosest.IntegersSpaced` | include/salgo/_/linalg/kd.hpp:334-335 | Integer point keys and an integer query have that spacing, whatever is erased. |
| `KdClosest.CloserThanOneMisses` | include/salgo/_/linalg/kd.hpp:341-347 | For every spacing below 1 and every starting limit, a valid two-point tree and a query whose nearest point is pruned away. |
| `KdClosest.GapSufficesFromOne` | include/salgo/_/linalg/kd.hpp:331-350 | From any starting limit, pruning agrees with the scan for all trees and queries of spacing `gap` if and only if gap >= 1. |
| `Kd.MissedClosest` | include/salgo/_/linalg/kd.hpp:320-350 | The failing run, for every spacing below 1 and every limit: two insertions into an empty tree and a search that returns the root although the other point is nearer. |
| `Kd.Kd.FindClosestCenter` | include/salgo/_/linalg/kd.hpp:320-328 | On integer point keys with an integer query, and whenever squared distances are 0 or at least 1: an un-erased node that no un-erased node is nearer than, and all un-erased nodes before it in preorder are farther; or none if all are erased. |
| `KdQuery.IntersectsMeans` | include/salgo/_/linalg/aabb.hpp:28-34 | Boxes with corners in order intersect exactly if they have a point in common, borders included. |
| `KdQuery.QueriedPrunedLeft` | include/salgo/_/linalg/kd.hpp:399-403 | A left subtree skipped by l_to holds no intersecting box. |
| `KdQuery.QueriedPrunedRight` | include/salgo/_/linalg/kd.hpp:405-409 | A right subtree skipped by r_fr holds no intersecting box. |
| `KdQuery.QueriedJoins` | include/salgo/_/linalg/kd.hpp:390-411 | Querying two lists in a row is querying both, whatever the callback erases in between. |
| `ErasingScan.CallsPrefix` | include/salgo/_/linalg/kd.hpp:393-397 | The calls are the list cut right after the first BREAK. |
| `KdQuery.QueryMeaning` | include/salgo/_/linalg/kd.hpp:386-412 | The calls are nodes in order, none twice; a node that had its turn was called exactly if its box has a point in common with the query box, borders included, and neither was it erased at the start nor by a reply to a call of an earlier node, whatever nodes the callback erases; what is erased is what the replies erased; the query stops at the first BREAK. |
| `ErasingScan.ScanMeaning` | include/salgo/_/linalg/kd.hpp:386-412 | The calls of the plain scan are elements in order, none twice; which are called is determined by what qualifies and by the replies before. |
| `ErasingScan.ScanCalls` | include/salgo/_/linalg/kd.hpp:386-412 | An element that had its turn is called exactly if it qualifies, was not erased at the start, and no reply to a call of an earlier element erased it; what is erased at the end was erased at the start or by a reply. |
| `ErasingScan.GivenIsPlain` | include/salgo/_/linalg/kd.hpp:386-412 | If the callback erases only what it has been given, the calls are the elements that qualify at the start, cut after the first stop. |
| `ErasingScan.OwnErasedOnce` | include/salgo/_/linalg/kd.hpp:94-107 | If it erases only the element it is given, none is erased twice. |
| `Kd.Kd.EachIntersecting` | include/salgo/_/linalg/kd.hpp:354-367 | Calls back, in preorder up to the first BREAK, exactly the nodes whose boxes have a point in common with the query box, borders included, and that are un-erased when their turn comes, for a callback that may erase any nodes, also ones not reached yet; erases exactly what the replies erased; the count stays right if and only if each erasure took out a different live node, in particular when each reply erases just its own node. |
| `Kd.Kd.Visit` | include/salgo/_/linalg/kd.hpp:386-412 | The recursion does this for each subtree. |
| `UnionFind.UnionFind.Find` | include/salgo/_/union-find.inl:268-279 | Both loops terminate; no element changes its root, and exactly the nodes on the way up end up right below the root. |
| `UnionFind.Compressed` | include/salgo/_/union-find.inl:274-276 | Pointing a node at its root keeps the forest acyclic and every element's root. |
| `UnionFind.LinkJoins` | include/salgo/_/union-find.inl:113 | Linking one root below another joins exactly their two classes and removes one root. |
| `UnionFind.JoinedMeans` | include/salgo/_/union-find.inl:97-132 | Said of roots: two elements have one root afterwards if and only if they had or theirs were the two merged ones. |
| `UnionFind.DataJoined` | include/salgo/_/union-find.inl:72-86 | Adding the data of the linked root to the other keeps each root's datum the sum of its members' values. |
| `UnionFind.UnionFind.MergeWith` | include/salgo/_/union-find.inl:97-132 | Two elements are together afterwards exactly if they were or were with a and b; b's root represents them; the old root of a points at it; count drops by one exactly if the classes differed; data are conserved. |
| `UnionFind.UnionFind.Merge` | include/salgo/_/union-find.inl:246-256 | The same for the structure's own merge. |
| `UnionFind.UnionFind.Add` | include/salgo/_/union-find.inl:240-244 | A new class of one element; every other root stays. |
| `UnionFind.UnionFind.Get` | include/salgo/_/union-find.inl:222-225 | The datum read is the sum of the values of the class. |
| `UnorderedArray.SwapErasedIs` | include/salgo/_/unordered-array.inl:90-97 | Overwriting with the last element removes exactly one element and leaves everything before it in place. |
| `UnorderedArray.UnorderedArray.Erase` | include/salgo/_/unordered-array.inl:90-97 | The array becomes the old one with the last element in the hole. |
| `UnorderedArray.UnorderedArray.ForEach` | include/salgo/_/unordered-array.inl:115-125 | The outcome is that of ForwardRun; the loop shows each element exactly once and ends in bounds if and only if the callback never erases through the array, a condition on callback and array; what is kept or skipped stays. |
| `UnorderedArray.SkippedElement` | doc/UNORDERED-ARRAY.md:11-21 | The documented loop: erasing 3 through the array moves 5 into the hole and 5 is never shown. |
| `UnorderedArray.OverrunLoop` | include/salgo/_/unordered-array.inl:115-125 | Erasing the last element through the array leaves the handle past the end, so the loop does not stop. |
| `UnorderedArray.UnorderedArray.ForEachBackward` | doc/UNORDERED-ARRAY.md:7-9 | Backward, every element is shown once from last to first and exactly the unerased stay, however the shown element is erased. |
| `UnorderedArray.Erased1` | include/salgo/_/unordered-array.inl:115-118 | Erasing the element shown without advancing keeps the account of shown and remaining elements. |
| `HashTable.HashTable.Find` | include/salgo/_/hash-table.inl:357-370 | Finds an element with the key if and only if the table holds one. |
| `HashTable.HashTable.Rehash` | include/salgo/_/hash-table.inl:467-477 | The multiset of elements is preserved and each is in the bucket of its hash, in the order of old buckets and slots, for any number of buckets >= 1. |
| `HashTable.HashTable.Reserve` | include/salgo/_/hash-table.inl:411-419 | Rehashes to one bucket more than asked for. |
| `HashTable.HashTable.Emplace` | include/salgo/_/hash-table.inl:430-453 | Adds exactly one element, last in the bucket of its hash; afterwards count <= floor(3B / 2). |
| `HashTable.HashTable.EmplaceIfNotFound` | include/salgo/_/hash-table.inl:422-427 | Leaves the table alone if the key is present, adds the element otherwise. |
| `HashTable.HashTable.Erase` | include/salgo/_/hash-table.inl:296-304 | Removes exactly that element; the table stays bucketed. |
| `HashTable.HashTable.Next` | include/salgo/_/hash-table.inl:157-167 | The step terminates at the previous element over any run of empty buckets, missing none. |
| `HashTable.HashTable.Begin` | include/salgo/_/hash-table.inl:503-506 | Starts with the whole table ahead. |
| `HashTable.HashTable.ForEach` | include/salgo/_/hash-table.inl:153-167 | A loop that erases any of the elements it is shown, by either route, shows each starting element exactly once and leaves exactly the unerased ones. |
| `HashTable.ErasedAt` | include/salgo/_/hash-table.inl:303 | Erasing at a position leaves what the walk has ahead as it was. |
| `HashTable.ContentsUpdate` | include/salgo/_/hash-table.inl:440-452 | Replacing a bucket changes the contents by the difference. |
| `HashLoops.ForEach` | include/salgo/_/hash-table.inl:153-167 | A loop whose bodies erase any elements of the table: it stays in bounds and shows each element exactly once, except those erased before the walk came to them, if and only if no body erases an element ahead in the bucket of the walk; elements shown before and those of other buckets may go. |
| `HashLoops.RunExact` | include/salgo/_/hash-table.inl:153-167 | The same for a run from any position; otherwise the run leaves its bucket or shows more elements than there were. |
| `HashLoops.TurnFacts` | include/salgo/_/hash-table.inl:296-304 | A body that spares the bucket changes what is ahead by just what it takes out of it; any other leaves more positions ahead than elements not shown. |
| `HashLoops.ShownAgain` | include/salgo/_/hash-table.inl:153-167 | A run in which an element is shown twice. |
| `HashLoops.WalkedOut` | include/salgo/_/hash-table.inl:153-167 | A run that reads past the end of its bucket. |
| `ChunkedArray.BitScanReverse` | include/salgo/_/chunked-array.hpp:39 | 2^k <= n < 2^(k+1). |
| `ChunkedArray.IndexRoundTrip` | include/salgo/_/chunked-array.hpp:64-80 | Indices and proper (chunk, offset) handles correspond one to one. |
| `ChunkedArray.StepsByOne` | include/salgo/_/chunked-array.hpp:83-97 | ++ and -- step the index by one, across chunk ends. |
| `ChunkedArray.FlatAt` | include/salgo/_/chunked-array.hpp:312-315 | The slot of a handle is the slot at its index in the blocks laid end to end. |
| `ChunkedArray.Appended` | include/salgo/_/chunked-array.hpp:370-385 | Appending goes to the handle of the old size, in a new block exactly at powers of two. |
| `ChunkedArray.Dropped` | include/salgo/_/chunked-array.hpp:404-416 | Dropping an empty last slot moves to the right offset of the previous block when the block ends. |
| `ChunkedArray.ChunkedArray.EmplaceBack` | include/salgo/_/chunked-array.hpp:370-385 | Appends one constructed element to the sequence of optional values; block k has 2^k slots and there are floor(log2(size)) + 1 blocks. |
| `ChunkedArray.ChunkedArray.PopBack` | include/salgo/_/chunked-array.hpp:398-438 | Drops trailing holes and returns the last constructed element. |
| `ChunkedArray.ChunkedArray.Construct` | include/salgo/_/chunked-array.hpp:192-198 | Fills one free slot within the bounds of its block; the array stays well-formed if and only if the handle is below its size. |
| `ChunkedArray.SlotPastSize` | include/salgo/_/chunked-array.hpp:370-385 | There is a slot past the size, that of the next emplace_back, exactly if size + 1 is not a power of two. |
| `ChunkedArray.ConstructedPastSize` | include/salgo/_/chunked-array.hpp:192-198 | A run: after two elements the third slot is constructed, so that the slot the next emplace_back writes is live. |
| `ChunkedArray.ChunkedArray.Destruct` | include/salgo/_/chunked-array.hpp:200-206 | Leaves one hole. |
| `ChunkedArray.HighBitOff` | include/salgo/_/chunked-array.hpp:74 | On 32-bit words, turning the highest bit off subtracts it. |
| `ChunkedArray.ShiftedOne` | include/salgo/_/chunked-array.hpp:110 | 1 << a is a power of two on 32-bit words. |
| `ChunkedArray.HighBitOn` | include/salgo/_/chunked-array.hpp:110 | Setting the chunk bit above the offset adds it, without overflow. |
| `ChunkedArray.PowerTest` | include/salgo/_/chunked-array.hpp:41-44 | n & (n - 1) is zero exactly for powers of two. |
| `ChunkedArray.ChunkedArray.Resize` | include/salgo/_/chunked-array.hpp:459-501 | Cuts the sequence, or fills it up with copies; the blocks, the count and the emptiness of unused slots follow. |
| `LinkedList.InsertChained` | include/salgo/_/list.hpp:140-176 | Splicing a node in refines insertion into a sequence and keeps prev and next inverse. |
| `LinkedList.EraseChained` | include/salgo/_/list.hpp:123-138 | Unlinking a node refines removal from a sequence and keeps prev and next inverse. |
| `LinkedList.List.EmplaceBefore` | include/salgo/_/list.hpp:140-157 | Inserts before the node, with front, back and count right. |
| `LinkedList.List.EmplaceAfter` | include/salgo/_/list.hpp:159-176 | Inserts after the node, with front, back and count right. |
| `LinkedList.List.EmplaceIntoEmpty` | include/salgo/_/list.hpp:403-414 | The first element becomes front and back. |
| `LinkedList.List.EmplaceFront` | include/salgo/_/list.hpp:389-392 | Prepends, also to an empty list. |
| `LinkedList.List.Clear` | include/salgo/_/list.hpp:342-347 | Erases every element while iterating and leaves an empty list. |
| `LinkedList.List.Erase` | include/salgo/_/list.hpp:123-138 | Removes the node, with front, back and count right. |
| `LinkedList.List.EraseAndStep` | include/salgo/_/list.hpp:88-106 | The links cached by an erase lead to the old neighbour. |
| `LinkedList.List.NextInCycle` | include/salgo/_/list.hpp:186-194 | The following node, or the first after the last. |
| `LinkedList.List.PrevInCycle` | include/salgo/_/list.hpp:196-204 | The preceding node, or the last before the first. |
| `LinkedList.List.ForEachErase` | include/salgo/_/list.hpp:232-236 | A loop that erases any of the elements it is at, through its own accessor, visits each one once and keeps exactly the others, in order and with their values. |
| `LinkedList.KeptMembers` | include/salgo/_/list.hpp:232-236 | What stays is exactly what was not erased. |
| `ListLoops.ForEach` | include/salgo/_/list.hpp:232-243 | A loop whose bodies erase any elements, through the accessor or through the list: stuck stepping on if and only if some body erases its own element through the list, or the one that followed it after erasing it through the accessor; otherwise it shows what the plain scan shows and leaves what the scan leaves, in order and with their values. |
| `ListLoops.SafeIff` | include/salgo/_/list.hpp:88-103 | One turn: the link stepped over is of, or leads to, an erased node exactly after such a body. |
| `ListLoops.StepIsNext` | include/salgo/_/list.hpp:100-103 | After a safe body the cached or current link leads to the next element that is alive. |
| `ListLoops.StuckIff` | include/salgo/_/list.hpp:232-243 | The run gets stuck exactly if some body is not safe. |
| `ListLoops.RunIsScan` | include/salgo/_/list.hpp:232-243 | A run that does not get stuck is the plain scan of the list. |
| `ListLoops.StuckAtErased` | include/salgo/_/list.hpp:376 | A run: erasing the element at hand through the list. |
| `ListLoops.StuckAtNext` | include/salgo/_/list.hpp:88-103 | A run: erasing the element at hand through the accessor and then the next one. |
| `ArrayAllocator.FirstFree` | include/salgo/_/alloc/array-allocator.inl:188-193 | The circular search ends at the first free slot from its start, whenever one is free. |
| `ArrayAllocator.FreeSlotExists` | include/salgo/_/alloc/array-allocator.inl:179-193 | A block that is not full has a free slot. |
| `ArrayAllocator.GrownHasRoom` | include/salgo/_/alloc/array-allocator.inl:178-186 | After growing at half load there is room, and nothing live is lost. |
| `ArrayAllocator.Allocator.Construct` | include/salgo/_/alloc/array-allocator.inl:175-203 | Never hands out a live slot, changes no other one, grows to 2 * domain + 1 exactly at half load, takes the first free slot from where the last search stopped, stops just behind it, and leaves 2 * count <= domain + 1. |
| `ArrayAllocator.ConstructAgain` | include/salgo/_/alloc/array-allocator.inl:175-203 | A slot just freed is handed out again by the next construct exactly when no other slot is free. |
| `ArrayAllocator.Allocator.Destruct` | include/salgo/_/alloc/array-allocator.inl:67-70 | Frees exactly that slot. |
| `ArrayAllocator.Allocator.Reserve` | include/salgo/_/alloc/array-allocator.inl:225-229 | Only adds free slots. |
| `Inorder.AllPlaced` | include/salgo/_/graph/bst.hpp:11-30 | In a tree spelled out by links, each node's links tell where it and its neighbours lie in the in-order sequence. |
| `Inorder.Leftmost` | include/salgo/_/graph/inorder.hpp:141-148 | The descent terminates at the first node of the subtree in order. |
| `Inorder.BstNext` | include/salgo/_/graph/bst.hpp:11-30 | The node that follows in order, or an invalid handle after the last; descent and climb terminate. |
| `Inorder.Walk` | include/salgo/_/graph/inorder.hpp:100-148 | The loop shows exactly the in-order sequence and stops; for a search tree that is the one of increasing keys. |
| `Inorder.InOrderSorted` | include/salgo/_/graph/inorder.hpp:100-148 | In order the keys of a search tree increase. |

## Left out

- SplitEdge: promises nothing about the tables of a run that gets stuck, because the source stops there at a failed check.
- ListLoops.ForEach: leaves out an erasure of what is not there any more; the source's callers must not do it. Insertion in the body is not modelled.
- HashLoops.ForEach: leaves out an erasure where there is no element, likewise; insertion in the body may rehash and is not modelled.
- MillerRabin: requires the low 32-bit word of p - 1 to be nonzero, because the source takes a 32-bit count of trailing zeros there, which is undefined for 0.
- IsPrime32: does not state that no composite passes the test to its bases; that rests on published computation.
- IsPrime64: does not state it for its bases, for the same reason.
- FindClosestCenter: promises nothing about real coordinates closer than 1, where CloserThanOneMisses shows the search can fail; rounding of floating point is not modelled.
- Merge: the switch that orders classes by size (COUNTABLE_SETS) is not modelled, since its member names do not match; nor is a user-defined merge of data in place of `+=`.
- Rehash: requires at least one bucket; with none the source divides by zero.
- Scores, normals and angles: the candidate order of hole capping is an arbitrary choice, so the results hold for any scores.
- The table of open edges is a map with an arbitrary choice among entries of one key; the hash table itself is modelled on its own, with an arbitrary hash into the naturals.
- Storage: constructors, destructors, moves and raw memory are optional values; moving the last element of an unordered array onto itself is a plain removal.
- Node handles of the kd-tree and new polygon handles are arbitrary unused numbers.
- Templates, accessors, named arguments, adapters, file formats, logging, samples and benchmarks.
- Iterating a chunked array, `bst_prev`, `bst_cut_out`, `bst_erase`, splay and link-cut trees, ratios, random allocation.
- Merging vertices, collapsing edges and cleaning flat surfaces, which edit the tables they iterate in many degenerate cases.
- Compaction of containers, and the sized constructor of the array allocator, which leaves its lookup index past the end.
