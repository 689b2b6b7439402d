/** Nearest-centre search in the kd-tree of linalg/kd.hpp: the pruned recursion against a plain scan of the tree in
  * preorder. */
module KdClosest {
  import opened Prelude
  import opened KdShape

  // ---------------------------------------------------------------------------------------------------------------
  // Distances
  // ---------------------------------------------------------------------------------------------------------------

  function Center(box: Box): (c: seq<real>)
    requires |box.min| == |box.max|
    ensures |c| == |box.min|
  {
    seq(|box.min|, i requires 0 <= i < |box.min| => (box.min[i] + box.max[i]) / 2.0)
  }

  function Product(x: real, y: real): real {
    x * y
  }

  function Square(x: real): real {
    Product(x, x)
  }

  lemma SquareSign(x: real)
    ensures Square(x) == Square(-x) >= 0.0
  {
  }

  /** The squared length of `a - b` over the first `k` axes. */
  function SquaredNorm(a: seq<real>, b: seq<real>, k: nat): real
    requires k <= |a| && k <= |b|
  {
    if k == 0 then 0.0 else SquaredNorm(a, b, k - 1) + Square(a[k - 1] - b[k - 1])
  }

  /** Three laws that fix the squared length: it is zero where the points agree, every axis counts once, and an axis
    * counts with the square of the difference. */
  lemma {:induction false} NormSame(a: seq<real>, k: nat)
    requires k <= |a|
    ensures SquaredNorm(a, a, k) == 0.0
  {
    if k > 0 { NormSame(a, k - 1); }
  }

  lemma {:induction false} NormAxis(a: seq<real>, b: seq<real>, k: nat, i: nat, x: real)
    requires i < k <= |a| && k <= |b|
    ensures SquaredNorm(a[i := x], b, k) - (x - b[i]) * (x - b[i])
            == SquaredNorm(a, b, k) - (a[i] - b[i]) * (a[i] - b[i])
  {
    if i < k - 1 {
      NormAxis(a, b, k - 1, i, x);
    } else {
      NormPrefix(a, b, k - 1, i, x);
    }
  }

  lemma {:induction false} NormPrefix(a: seq<real>, b: seq<real>, k: nat, i: nat, x: real)
    requires k <= i < |a| && k <= |b|
    ensures SquaredNorm(a[i := x], b, k) == SquaredNorm(a, b, k)
  {
    if k > 0 { NormPrefix(a, b, k - 1, i, x); }
  }

  /** The centre is as far from the lower corner as from the upper one, on every axis. */
  lemma CenterMiddle(box: Box, i: nat)
    requires |box.min| == |box.max| && i < |box.min|
    ensures Center(box)[i] - box.min[i] == box.max[i] - Center(box)[i]
  {
  }

  lemma {:induction false} AxisBelowNorm(a: seq<real>, b: seq<real>, k: nat, i: nat)
    requires i < k <= |a| && k <= |b|
    ensures SquaredNorm(a, b, k) >= Square(a[i] - b[i])
  {
    hide Square;
    SquareSign(a[k - 1] - b[k - 1]);
    if i < k - 1 { AxisBelowNorm(a, b, k - 1, i); } else { NormNonNegative(a, b, k - 1); }
  }

  lemma {:induction false} NormNonNegative(a: seq<real>, b: seq<real>, k: nat)
    requires k <= |a| && k <= |b|
    ensures SquaredNorm(a, b, k) >= 0.0
  {
    if k > 0 {
      NormNonNegative(a, b, k - 1);
      SquareSign(a[k - 1] - b[k - 1]);
    }
  }

  function Distance(nodes: map<nat, Node>, h: nat, vec: seq<real>): real
    requires h in nodes && Sized(nodes[h].box, |vec|)
  {
    SquaredNorm(Center(nodes[h].box), vec, |vec|)
  }

  // ---------------------------------------------------------------------------------------------------------------
  // The closest centre
  // ---------------------------------------------------------------------------------------------------------------

  datatype Best = Best(node: Option<nat>, dist: real)

  function Consider(nodes: map<nat, Node>, erased: set<nat>, vec: seq<real>, best: Best, h: nat): Best
    requires h in nodes && Sized(nodes[h].box, |vec|)
  {
    if h !in erased && Distance(nodes, h, vec) < best.dist then Best(Some(h), Distance(nodes, h, vec)) else best
  }

  /** The plain search: every handle of `s` in order, keeping the first strictly better one. */
  ghost function Scan(nodes: map<nat, Node>, erased: set<nat>, vec: seq<real>, best: Best, s: seq<nat>): Best
    requires BoxesSized(nodes, |vec|) && Elements(s) <= nodes.Keys
    decreases |s|
  {
    if s == [] then best
    else
      assert s[0] in Elements(s) && Elements(s[1..]) <= Elements(s);
      Scan(nodes, erased, vec, Consider(nodes, erased, vec, best, s[0]), s[1..])
  }

  /** The pruned search of _find_closest_center_impl. */
  function FindClosest(nodes: map<nat, Node>, erased: set<nat>, ghost sub: map<nat, set<nat>>, vec: seq<real>,
                       best: Best, h: nat, axis: nat): Best
    requires Shaped(nodes, sub) && BoxesSized(nodes, |vec|) && h in sub && axis < |vec|
    decreases sub[h]
  {
    ChildrenSmaller(nodes, sub, h);
    var node := nodes[h];
    var next := (axis + 1) % |vec|;
    var best0 := Consider(nodes, erased, vec, best, h);
    var best1 :=
      if node.left.Some? && vec[axis] - node.lTo <= best0.dist
      then FindClosest(nodes, erased, sub, vec, best0, node.left.value, next) else best0;
    if node.right.Some? && node.rFr - vec[axis] <= best1.dist
    then FindClosest(nodes, erased, sub, vec, best1, node.right.value, next) else best1
  }

  ghost predicate BoxesOrdered(nodes: map<nat, Node>, dim: nat)
    requires BoxesSized(nodes, dim)
  {
    forall h, i :: h in nodes && 0 <= i < dim ==> nodes[h].box.min[i] <= nodes[h].box.max[i]
  }

  ghost predicate ZeroOrAtLeast(d: real, gap: real) {
    d == 0.0 || d >= gap
  }

  /** Every un-erased centre is at the query itself or at squared distance at least `gap`. */
  ghost predicate Spaced(nodes: map<nat, Node>, erased: set<nat>, vec: seq<real>, gap: real)
    requires BoxesSized(nodes, |vec|)
  {
    forall h :: h in nodes && h !in erased ==> ZeroOrAtLeast(Distance(nodes, h, vec), gap)
  }

  lemma {:induction false} ScanConcat(nodes: map<nat, Node>, erased: set<nat>, vec: seq<real>, best: Best,
                                      s: seq<nat>, r: seq<nat>)
    requires BoxesSized(nodes, |vec|) && Elements(s) <= nodes.Keys && Elements(r) <= nodes.Keys
    ensures Elements(s + r) <= nodes.Keys
    ensures Scan(nodes, erased, vec, best, s + r)
            == Scan(nodes, erased, vec, Scan(nodes, erased, vec, best, s), r)
    decreases |s|
  {
    forall x | x in s + r ensures x in nodes { assert x in Elements(s) || x in Elements(r); }
    if s == [] {
      assert s + r == r;
    } else {
      assert s[0] in Elements(s) && Elements(s[1..]) <= Elements(s);
      assert (s + r)[1..] == s[1..] + r;
      ScanConcat(nodes, erased, vec, Consider(nodes, erased, vec, best, s[0]), s[1..], r);
    }
  }

  lemma {:induction false} ScanSkips(nodes: map<nat, Node>, erased: set<nat>, vec: seq<real>, best: Best, s: seq<nat>)
    requires BoxesSized(nodes, |vec|) && Elements(s) <= nodes.Keys
    requires forall x :: x in Elements(s) && x !in erased ==> Distance(nodes, x, vec) >= best.dist
    ensures Scan(nodes, erased, vec, best, s) == best
    decreases |s|
  {
    if s != [] {
      assert s[0] in Elements(s) && Elements(s[1..]) <= Elements(s);
      ScanSkips(nodes, erased, vec, best, s[1..]);
    }
  }

  /** Why an unsquared gap may be compared with a squared distance: neither lies strictly between 0 and 1. */
  lemma PruneSound(best: real, g: real, d: real)
    requires g > best && ZeroOrAtLeast(best, 1.0) && d >= Square(g)
    ensures d >= best
  {
    if best >= 1.0 { assert g * g >= g; }
  }

  // A centre is inside its box.
  lemma CenterInside(box: Box, i: nat)
    requires |box.min| == |box.max| && i < |box.min| && box.min[i] <= box.max[i]
    ensures box.min[i] <= Center(box)[i] <= box.max[i]
  {
  }

  lemma LeftPruned(nodes: map<nat, Node>, t: Shape, vec: seq<real>, h: nat, x: nat, best: real)
    requires |vec| > 0 && BoxesSized(nodes, |vec|) && BoxesOrdered(nodes, |vec|) && h in nodes && h in t.depth
    requires x in nodes && Within(nodes, t, |vec|, h, x, nodes[x].box) && x in Under(t.sub, nodes[h].left)
    requires vec[t.depth[h] % |vec|] - nodes[h].lTo > best && ZeroOrAtLeast(best, 1.0)
    ensures Distance(nodes, x, vec) >= best
  {
    var axis := t.depth[h] % |vec|;
    CenterInside(nodes[x].box, axis);
    AxisBelowNorm(Center(nodes[x].box), vec, |vec|, axis);
    var g := vec[axis] - Center(nodes[x].box)[axis];
    SquareSign(g);
    PruneSound(best, g, Distance(nodes, x, vec));
  }

  lemma RightPruned(nodes: map<nat, Node>, t: Shape, vec: seq<real>, h: nat, x: nat, best: real)
    requires |vec| > 0 && BoxesSized(nodes, |vec|) && BoxesOrdered(nodes, |vec|) && h in nodes && h in t.depth
    requires x in nodes && Within(nodes, t, |vec|, h, x, nodes[x].box) && x in Under(t.sub, nodes[h].right)
    requires nodes[h].rFr - vec[t.depth[h] % |vec|] > best && ZeroOrAtLeast(best, 1.0)
    ensures Distance(nodes, x, vec) >= best
  {
    var axis := t.depth[h] % |vec|;
    CenterInside(nodes[x].box, axis);
    AxisBelowNorm(Center(nodes[x].box), vec, |vec|, axis);
    var g := Center(nodes[x].box)[axis] - vec[axis];
    PruneSound(best, g, Distance(nodes, x, vec));
  }

  lemma ConsideredSpaced(nodes: map<nat, Node>, erased: set<nat>, vec: seq<real>, best: Best, h: nat)
    requires BoxesSized(nodes, |vec|) && Spaced(nodes, erased, vec, 1.0) && h in nodes
    requires ZeroOrAtLeast(best.dist, 1.0)
    ensures ZeroOrAtLeast(Consider(nodes, erased, vec, best, h).dist, 1.0)
  {
  }

  lemma {:induction false} ScannedSpaced(nodes: map<nat, Node>, erased: set<nat>, vec: seq<real>, best: Best,
                                         s: seq<nat>)
    requires BoxesSized(nodes, |vec|) && Spaced(nodes, erased, vec, 1.0) && Elements(s) <= nodes.Keys
    requires ZeroOrAtLeast(best.dist, 1.0)
    ensures ZeroOrAtLeast(Scan(nodes, erased, vec, best, s).dist, 1.0)
    decreases |s|
  {
    if s != [] {
      assert s[0] in Elements(s) && Elements(s[1..]) <= Elements(s);
      ScannedSpaced(nodes, erased, vec, Consider(nodes, erased, vec, best, s[0]), s[1..]);
    }
  }

  // The left part of one level: searched or pruned, the outcome is that of the scan.
  lemma SkippedLeft(nodes: map<nat, Node>, erased: set<nat>, t: Shape, vec: seq<real>, best: Best, h: nat)
    requires |vec| > 0 && BoxesSized(nodes, |vec|) && BoxesOrdered(nodes, |vec|)
    requires Shaped(nodes, t.sub) && t.depth.Keys == t.sub.Keys && Bounded(nodes, t, |vec|)
    requires ZeroOrAtLeast(best.dist, 1.0) && h in t.sub && nodes[h].left.Some? && nodes[h].left.value in t.sub
    requires vec[t.depth[h] % |vec|] - nodes[h].lTo > best.dist
    requires Elements(Preorder(nodes, t.sub, nodes[h].left.value)) <= nodes.Keys
    ensures Scan(nodes, erased, vec, best, Preorder(nodes, t.sub, nodes[h].left.value)) == best
  {
    var s := Preorder(nodes, t.sub, nodes[h].left.value);
    PreorderLists(nodes, t.sub, nodes[h].left.value);
    forall x | x in Elements(s) ensures Distance(nodes, x, vec) >= best.dist {
      LeftPruned(nodes, t, vec, h, x, best.dist);
    }
    ScanSkips(nodes, erased, vec, best, s);
  }

  lemma SkippedRight(nodes: map<nat, Node>, erased: set<nat>, t: Shape, vec: seq<real>, best: Best, h: nat)
    requires |vec| > 0 && BoxesSized(nodes, |vec|) && BoxesOrdered(nodes, |vec|)
    requires Shaped(nodes, t.sub) && t.depth.Keys == t.sub.Keys && Bounded(nodes, t, |vec|)
    requires ZeroOrAtLeast(best.dist, 1.0) && h in t.sub && nodes[h].right.Some? && nodes[h].right.value in t.sub
    requires nodes[h].rFr - vec[t.depth[h] % |vec|] > best.dist
    requires Elements(Preorder(nodes, t.sub, nodes[h].right.value)) <= nodes.Keys
    ensures Scan(nodes, erased, vec, best, Preorder(nodes, t.sub, nodes[h].right.value)) == best
  {
    var s := Preorder(nodes, t.sub, nodes[h].right.value);
    PreorderLists(nodes, t.sub, nodes[h].right.value);
    forall x | x in Elements(s) ensures Distance(nodes, x, vec) >= best.dist {
      RightPruned(nodes, t, vec, h, x, best.dist);
    }
    ScanSkips(nodes, erased, vec, best, s);
  }

  ghost predicate Searchable(nodes: map<nat, Node>, t: Shape, dim: nat) {
    && dim > 0 && BoxesSized(nodes, dim) && BoxesOrdered(nodes, dim)
    && Shaped(nodes, t.sub) && Depths(nodes, t) && Bounded(nodes, t, dim)
  }

  // The scan of a subtree is the node, then the scan of each side.
  lemma ScanBySides(nodes: map<nat, Node>, erased: set<nat>, sub: map<nat, set<nat>>, vec: seq<real>, best: Best,
                    h: nat)
    requires BoxesSized(nodes, |vec|) && Shaped(nodes, sub) && h in sub
    requires nodes[h].left.Some? ==> nodes[h].left.value in sub
    requires nodes[h].right.Some? ==> nodes[h].right.value in sub
    requires Elements(Preorder(nodes, sub, h)) <= nodes.Keys
    ensures nodes[h].left.Some? ==> Elements(Preorder(nodes, sub, nodes[h].left.value)) <= nodes.Keys
    ensures nodes[h].right.Some? ==> Elements(Preorder(nodes, sub, nodes[h].right.value)) <= nodes.Keys
    ensures var best0 := Consider(nodes, erased, vec, best, h);
            var best1 := if nodes[h].left.Some?
                         then Scan(nodes, erased, vec, best0, Preorder(nodes, sub, nodes[h].left.value)) else best0;
            Scan(nodes, erased, vec, best, Preorder(nodes, sub, h))
            == if nodes[h].right.Some?
               then Scan(nodes, erased, vec, best1, Preorder(nodes, sub, nodes[h].right.value)) else best1
  {
    var l := if nodes[h].left.Some? then Preorder(nodes, sub, nodes[h].left.value) else [];
    var r := if nodes[h].right.Some? then Preorder(nodes, sub, nodes[h].right.value) else [];
    if nodes[h].left.Some? { PreorderInTree(nodes, sub, nodes[h].left.value); }
    if nodes[h].right.Some? { PreorderInTree(nodes, sub, nodes[h].right.value); }
    assert Preorder(nodes, sub, h) == [h] + l + r;
    ScanConcat(nodes, erased, vec, best, [h], l);
    ScanConcat(nodes, erased, vec, best, [h] + l, r);
    assert [h][1..] == [];
  }

  /** Pruning by the bounds changes nothing when squared distances are 0 or at least 1: the pruned search returns what
    * the scan of the whole subtree in preorder returns. */
  lemma {:induction false} FindIsScan(nodes: map<nat, Node>, erased: set<nat>, t: Shape, vec: seq<real>, best: Best,
                                      h: nat)
    requires Searchable(nodes, t, |vec|) && Spaced(nodes, erased, vec, 1.0)
    requires ZeroOrAtLeast(best.dist, 1.0) && h in t.sub
    ensures Elements(Preorder(nodes, t.sub, h)) <= nodes.Keys
    ensures FindClosest(nodes, erased, t.sub, vec, best, h, t.depth[h] % |vec|)
            == Scan(nodes, erased, vec, best, Preorder(nodes, t.sub, h))
    decreases t.sub[h]
  {
    hide Bounded, BoxesOrdered, Distance, Spaced, Scan, Joined, Preorder;
    ChildrenSmaller(nodes, t.sub, h);
    assert Deeper(nodes, t, h);
    NextAxis(t.depth[h], |vec|);
    PreorderInTree(nodes, t.sub, h);
    ScanBySides(nodes, erased, t.sub, vec, best, h);
    var best0 := Consider(nodes, erased, vec, best, h);
    ConsideredSpaced(nodes, erased, vec, best, h);
    var best1 := best0;
    if nodes[h].left.Some? {
      var l := nodes[h].left.value;
      best1 := Scan(nodes, erased, vec, best0, Preorder(nodes, t.sub, l));
      ScannedSpaced(nodes, erased, vec, best0, Preorder(nodes, t.sub, l));
      if vec[t.depth[h] % |vec|] - nodes[h].lTo <= best0.dist {
        FindIsScan(nodes, erased, t, vec, best0, l);
      } else {
        SkippedLeft(nodes, erased, t, vec, best0, h);
      }
    }
    if nodes[h].right.Some? {
      if nodes[h].rFr - vec[t.depth[h] % |vec|] <= best1.dist {
        FindIsScan(nodes, erased, t, vec, best1, nodes[h].right.value);
      } else {
        SkippedRight(nodes, erased, t, vec, best1, h);
      }
    }
  }

  // `s[i]` is un-erased, nearer than `limit`, nearest of `s`, and the first such.
  ghost predicate Picks(nodes: map<nat, Node>, erased: set<nat>, vec: seq<real>, s: seq<nat>, limit: real, i: nat)
    requires BoxesSized(nodes, |vec|) && Elements(s) <= nodes.Keys && i < |s|
  {
    assert forall j :: 0 <= j < |s| ==> s[j] in Elements(s);
    && s[i] !in erased && Distance(nodes, s[i], vec) < limit
    && (forall j :: 0 <= j < |s| && s[j] !in erased ==> Distance(nodes, s[i], vec) <= Distance(nodes, s[j], vec))
    && (forall j :: 0 <= j < i && s[j] !in erased ==> Distance(nodes, s[i], vec) < Distance(nodes, s[j], vec))
  }

  /** What a nearest search promises: the first nearest of the un-erased centres nearer than `limit`, if any. */
  ghost predicate FirstClosest(nodes: map<nat, Node>, erased: set<nat>, vec: seq<real>, s: seq<nat>, limit: real,
                               r: Option<nat>)
    requires BoxesSized(nodes, |vec|) && Elements(s) <= nodes.Keys
  {
    match r
    case None => forall x :: x in Elements(s) && x !in erased ==> Distance(nodes, x, vec) >= limit
    case Some(h) => exists i :: 0 <= i < |s| && s[i] == h && Picks(nodes, erased, vec, s, limit, i)
  }

  lemma {:induction false} ScanPicks(nodes: map<nat, Node>, erased: set<nat>, vec: seq<real>, best: Best, s: seq<nat>)
      returns (i: int)
    requires BoxesSized(nodes, |vec|) && Elements(s) <= nodes.Keys
    ensures i < |s|
    ensures i < 0 ==> Scan(nodes, erased, vec, best, s) == best
                      && forall x :: x in Elements(s) && x !in erased ==> Distance(nodes, x, vec) >= best.dist
    ensures i >= 0 ==> s[i] in Elements(s)
                       && Scan(nodes, erased, vec, best, s) == Best(Some(s[i]), Distance(nodes, s[i], vec))
                       && Picks(nodes, erased, vec, s, best.dist, i)
    decreases |s|
  {
    hide Distance, Picks;
    if s == [] {
      i := -1;
    } else {
      assert s[0] in Elements(s) && Elements(s[1..]) <= Elements(s);
      assert forall x :: x in Elements(s) ==> x == s[0] || x in Elements(s[1..]);
      var best0 := Consider(nodes, erased, vec, best, s[0]);
      i := ScanPicks(nodes, erased, vec, best0, s[1..]);
      if i >= 0 {
        PicksLater(nodes, erased, vec, s, best, i);
        i := i + 1;
      } else if best0 != best {
        PicksFirst(nodes, erased, vec, s, best.dist);
        i := 0;
      }
    }
  }

  lemma PicksLater(nodes: map<nat, Node>, erased: set<nat>, vec: seq<real>, s: seq<nat>, best: Best, i: nat)
    requires BoxesSized(nodes, |vec|) && Elements(s) <= nodes.Keys && s != [] && s[0] in nodes
    requires Elements(s[1..]) <= nodes.Keys && i < |s| - 1
    requires Picks(nodes, erased, vec, s[1..], Consider(nodes, erased, vec, best, s[0]).dist, i)
    ensures Picks(nodes, erased, vec, s, best.dist, i + 1)
  {
    hide Distance;
    assert s[1..][i] == s[i + 1];
    assert forall j :: 0 <= j < |s| ==> s[j] in Elements(s);
    assert forall j :: 0 < j < |s| ==> s[j] == s[1..][j - 1];
  }

  lemma PicksFirst(nodes: map<nat, Node>, erased: set<nat>, vec: seq<real>, s: seq<nat>, limit: real)
    requires BoxesSized(nodes, |vec|) && Elements(s) <= nodes.Keys && s != [] && s[0] in nodes
    requires s[0] !in erased && Distance(nodes, s[0], vec) < limit && Elements(s[1..]) <= nodes.Keys
    requires forall x :: x in Elements(s[1..]) && x !in erased ==> Distance(nodes, x, vec) >= Distance(nodes, s[0], vec)
    ensures Picks(nodes, erased, vec, s, limit, 0)
  {
    hide Distance;
    assert forall j :: 0 < j < |s| ==> s[j] == s[1..][j - 1] && s[1..][j - 1] in Elements(s[1..]);
  }

  /** The scan from nothing finds the first closest. */
  lemma ScanFindsFirstClosest(nodes: map<nat, Node>, erased: set<nat>, vec: seq<real>, s: seq<nat>, limit: real)
    requires BoxesSized(nodes, |vec|) && Elements(s) <= nodes.Keys
    ensures FirstClosest(nodes, erased, vec, s, limit, Scan(nodes, erased, vec, Best(None, limit), s).node)
  {
    var i := ScanPicks(nodes, erased, vec, Best(None, limit), s);
  }

  // ---------------------------------------------------------------------------------------------------------------
  // Integer coordinates
  // ---------------------------------------------------------------------------------------------------------------

  ghost predicate Whole(x: real) {
    x == x.Floor as real
  }

  ghost predicate WholePoint(p: seq<real>) {
    forall i :: 0 <= i < |p| ==> Whole(p[i])
  }

  /** Every key is a point with integer coordinates. */
  ghost predicate IntegerPoints(nodes: map<nat, Node>) {
    forall h :: h in nodes ==> nodes[h].box.min == nodes[h].box.max && WholePoint(nodes[h].box.min)
  }

  lemma WholeSum(x: real, y: real)
    requires Whole(x) && Whole(y)
    ensures Whole(x + y)
  {
    var m, n := x.Floor, y.Floor;
    assert x + y == (m + n) as real;
    assert (x + y).Floor == m + n;
  }

  lemma IntegerSquare(d: int)
    ensures (d as real) * (d as real) == (d * d) as real
  {
  }

  lemma WholeDifferenceSquared(x: real, y: real)
    requires Whole(x) && Whole(y)
    ensures Whole(Square(x - y))
  {
    var d := x.Floor - y.Floor;
    assert x - y == d as real;
    IntegerSquare(d);
    assert Square(d as real).Floor == d * d;
  }

  lemma {:induction false} WholeNorm(a: seq<real>, b: seq<real>, k: nat)
    requires k <= |a| && k <= |b| && WholePoint(a) && WholePoint(b)
    ensures Whole(SquaredNorm(a, b, k))
  {
    if k > 0 {
      WholeNorm(a, b, k - 1);
      WholeDifferenceSquared(a[k - 1], b[k - 1]);
      WholeSum(SquaredNorm(a, b, k - 1), Square(a[k - 1] - b[k - 1]));
    }
  }

  /** Integer point keys and an integer query meet the spacing that pruning needs. */
  lemma IntegersSpaced(nodes: map<nat, Node>, erased: set<nat>, vec: seq<real>)
    requires BoxesSized(nodes, |vec|) && IntegerPoints(nodes) && WholePoint(vec)
    ensures Spaced(nodes, erased, vec, 1.0) && BoxesOrdered(nodes, |vec|)
  {
    forall h | h in nodes && h !in erased ensures ZeroOrAtLeast(Distance(nodes, h, vec), 1.0) {
      var c := Center(nodes[h].box);
      assert c == nodes[h].box.min;
      WholeNorm(c, vec, |vec|);
      NormNonNegative(c, vec, |vec|);
    }
  }

  // ---------------------------------------------------------------------------------------------------------------
  // Real coordinates: the comparison of a gap with a squared distance fails below 1
  // ---------------------------------------------------------------------------------------------------------------

  function PointBox(x: real, y: real): Box {
    Box([x, y], [x, y])
  }

  /** Two points: the root at the origin, and one slightly to its left at height `y`, whose own bounds are arbitrary. */
  function TwoPoints(t: real, y: real, lTo: real, rFr: real): map<nat, Node> {
    map[0 := Node(PointBox(0.0, 0.0), 0.0, 0.0, Some(1), None), 1 := Node(PointBox(-t, y), lTo, rFr, None, None)]
  }

  ghost function TwoShape(): Shape {
    Shape(map[0 := {0, 1}, 1 := {1}], map[0 := 0, 1 := 1])
  }

  lemma TwoShapeIs()
    ensures TwoShape().sub.Keys == {0, 1} == TwoShape().depth.Keys
    ensures TwoShape().sub[0] == {0, 1} && TwoShape().sub[1] == {1}
    ensures Under(TwoShape().sub, Some(1)) == {1} && Under(TwoShape().sub, None) == {}
    ensures TwoShape().depth[0] == 0 && TwoShape().depth[1] == 1
  {
  }

  lemma TwoPointsLinks(t: real, y: real, lTo: real, rFr: real)
    ensures TwoPoints(t, y, lTo, rFr).Keys == {0, 1}
    ensures TwoPoints(t, y, lTo, rFr)[0].left == Some(1) && TwoPoints(t, y, lTo, rFr)[0].right == None
    ensures TwoPoints(t, y, lTo, rFr)[1].left == None && TwoPoints(t, y, lTo, rFr)[1].right == None
  {
  }

  lemma TwoPointsShaped(t: real, y: real, lTo: real, rFr: real)
    ensures Shaped(TwoPoints(t, y, lTo, rFr), TwoShape().sub) && Closed(TwoPoints(t, y, lTo, rFr), TwoShape().sub)
    ensures Nested(TwoShape().sub) && Depths(TwoPoints(t, y, lTo, rFr), TwoShape()) && Rooted(Some(0), TwoShape().sub)
  {
    hide TwoPoints, TwoShape, Under;
    TwoShapeIs();
    TwoPointsLinks(t, y, lTo, rFr);
  }

  lemma TwoPointsBounded(t: real, y: real, lTo: real, rFr: real)
    requires t >= 0.0
    ensures BoxesSized(TwoPoints(t, y, lTo, rFr), 2) && BoxesOrdered(TwoPoints(t, y, lTo, rFr), 2)
    ensures Bounded(TwoPoints(t, y, lTo, rFr), TwoShape(), 2)
  {
    var nodes, s := TwoPoints(t, y, lTo, rFr), TwoShape();
    assert Under(s.sub, nodes[0].left) == {1};
    forall h, x | h in s.depth && x in nodes ensures Within(nodes, s, 2, h, x, nodes[x].box) {
      assert h == 0 || h == 1;
    }
  }

  lemma TwoPointsTree(t: real, y: real, lTo: real, rFr: real)
    requires t >= 0.0
    ensures TreeOk(TwoPoints(t, y, lTo, rFr), Some(0), TwoShape(), 2) && BoxesOrdered(TwoPoints(t, y, lTo, rFr), 2)
  {
    hide Shaped, Closed, Nested, Depths, Bounded, BoxesSized, BoxesOrdered, Rooted, TwoPoints;
    TwoPointsShaped(t, y, lTo, rFr);
    TwoPointsBounded(t, y, lTo, rFr);
  }

  lemma TwoDistances(t: real, y: real, lTo: real, rFr: real, g: real)
    ensures BoxesSized(TwoPoints(t, y, lTo, rFr), 2)
    ensures Distance(TwoPoints(t, y, lTo, rFr), 0, [g, y]) == Square(g) + Square(y)
    ensures Distance(TwoPoints(t, y, lTo, rFr), 1, [g, y]) == Square(g + t)
  {
    var vec := [g, y];
    var c0, c1 := Center(TwoPoints(t, y, lTo, rFr)[0].box), Center(TwoPoints(t, y, lTo, rFr)[1].box);
    assert c0 == [0.0, 0.0] && c1 == [-t, y];
    assert SquaredNorm(c0, vec, 2) == SquaredNorm(c0, vec, 1) + Square(0.0 - y);
    assert SquaredNorm(c0, vec, 1) == SquaredNorm(c0, vec, 0) + Square(0.0 - g);
    assert SquaredNorm(c1, vec, 2) == SquaredNorm(c1, vec, 1) + Square(y - y);
    assert SquaredNorm(c1, vec, 1) == SquaredNorm(c1, vec, 0) + Square(-t - g);
    SquareSign(g + t);
    assert -(g + t) == -t - g;
  }

  lemma ProductPositive(a: real, b: real)
    requires 0.0 < a && 0.0 < b
    ensures 0.0 < Product(a, b)
  {
  }

  lemma ProductBelow(a: real, b: real)
    requires 0.0 < a < 1.0 && 0.0 < b
    ensures Product(a, b) < b
  {
  }

  lemma Shrinks(a: real, b: real)
    requires 0.0 < a < 1.0 && 0.0 < b
    ensures 0.0 < Product(a, b) < b
  {
    hide Product;
    ProductPositive(a, b);
    ProductBelow(a, b);
  }

  lemma SquareOfSum(a: real, b: real)
    ensures Square(a + b) == Square(a) + 2.0 * Product(a, b) + Square(b)
  {
  }

  lemma SplitByProduct(g: real)
    ensures Square(g) + Product(g, 1.0 - g) == g
  {
  }

  lemma SquareAboveTangent(g: real)
    ensures Square(g) >= 2.0 * g - 1.0
  {
    assert Square(g) - (2.0 * g - 1.0) == (1.0 - g) * (1.0 - g);
  }

  // With the query `g` to the right of the root and at height `y`: the point at `-t` is nearer than the root, yet the
  // gap `g` exceeds the root's squared distance.
  lemma MissArithmetic(gap: real, g: real, y: real, t: real)
    requires 0.0 < gap < 1.0 && g == (1.0 + gap) * 0.5 && y == Product(g, 1.0 - g) && t == Square(y) * 0.25
    ensures 0.0 < t && gap < g < 1.0
    ensures gap <= Square(g) <= Square(g + t) < Square(g) + Square(y) < g
  {
    hide Product;
    Shrinks(g, 1.0 - g);
    Shrinks(y, y);
    Shrinks(g, t);
    Shrinks(t, t);
    SquareOfSum(g, t);
    SplitByProduct(g);
    SquareAboveTangent(g);
  }

  /** The two points for a spacing `gap`: how far right of the root the query is, the height, and the step to the
    * left. */
  function MissOffsets(gap: real): (real, real, real) {
    var g := (1.0 + gap) * 0.5;
    var y := Product(g, 1.0 - g);
    (g, y, Square(y) * 0.25)
  }

  /** For every spacing below 1, and wherever the search starts from, the pruned search on a valid tree of two points
    * misses the closest. */
  lemma CloserThanOneMisses(gap: real, limit: real, lTo: real, rFr: real)
      returns (nodes: map<nat, Node>, vec: seq<real>)
    requires 0.0 < gap < 1.0 && limit >= 1.0
    ensures var (g, y, t) := MissOffsets(gap);
            t > 0.0 && nodes == TwoPoints(t, y, lTo, rFr) && vec == [g, y]
    ensures |vec| == 2 && TreeOk(nodes, Some(0), TwoShape(), 2) && BoxesOrdered(nodes, 2)
    ensures Spaced(nodes, {}, vec, gap) && Elements(Preorder(nodes, TwoShape().sub, 0)) <= nodes.Keys
    ensures Distance(nodes, 1, vec) < Distance(nodes, 0, vec)
    ensures FindClosest(nodes, {}, TwoShape().sub, vec, Best(None, limit), 0, 0).node == Some(0)
    ensures Scan(nodes, {}, vec, Best(None, limit), Preorder(nodes, TwoShape().sub, 0)).node == Some(1)
  {
    hide Product, Square, Distance, TreeOk, Joined, FindClosest, Scan, Preorder, BoxesOrdered;
    var (g, y, t) := MissOffsets(gap);
    MissArithmetic(gap, g, y, t);
    nodes, vec := TwoPoints(t, y, lTo, rFr), [g, y];
    TwoPointsTree(t, y, lTo, rFr);
    TwoDistances(t, y, lTo, rFr, g);
    assert ZeroOrAtLeast(Distance(nodes, 0, vec), gap) && ZeroOrAtLeast(Distance(nodes, 1, vec), gap);
    assert forall h :: h in nodes ==> h == 0 || h == 1;
    TwoSearched(nodes, vec, t, y, lTo, rFr, g, limit);
  }

  lemma TwoSearched(nodes: map<nat, Node>, vec: seq<real>, t: real, y: real, lTo: real, rFr: real, g: real, limit: real)
    requires nodes == TwoPoints(t, y, lTo, rFr) && vec == [g, y] && TreeOk(nodes, Some(0), TwoShape(), 2)
    requires Distance(nodes, 1, vec) < Distance(nodes, 0, vec) < g < 1.0 <= limit
    ensures Elements(Preorder(nodes, TwoShape().sub, 0)) <= nodes.Keys
    ensures FindClosest(nodes, {}, TwoShape().sub, vec, Best(None, limit), 0, 0).node == Some(0)
    ensures Scan(nodes, {}, vec, Best(None, limit), Preorder(nodes, TwoShape().sub, 0)).node == Some(1)
  {
    hide Distance, TreeOk, Joined;
    TwoPointsShaped(t, y, lTo, rFr);
    var sub := TwoShape().sub;
    assert Preorder(nodes, sub, 1) == [1];
    assert Preorder(nodes, sub, 0) == [0] + Preorder(nodes, sub, 1) + [] == [0, 1];
    assert [0, 1][1..] == [1] && [1][1..] == [];
  }

  /** A spacing at which pruning never changes the answer of a search that starts from `limit`. */
  ghost predicate GapSuffices(gap: real, limit: real) {
    forall nodes, erased, t: Shape, vec: seq<real>, h: nat
      | Searchable(nodes, t, |vec|) && Spaced(nodes, erased, vec, gap) && h in t.sub
        && Elements(Preorder(nodes, t.sub, h)) <= nodes.Keys
      :: FindClosest(nodes, erased, t.sub, vec, Best(None, limit), h, t.depth[h] % |vec|)
         == Scan(nodes, erased, vec, Best(None, limit), Preorder(nodes, t.sub, h))
  }

  lemma GapFromOne(gap: real, limit: real)
    requires gap >= 1.0 && limit >= 1.0
    ensures GapSuffices(gap, limit)
  {
    hide Bounded, BoxesOrdered, Joined, Deeper, FindClosest, Scan, Preorder, Distance;
    forall nodes, erased, t: Shape, vec: seq<real>, h: nat
      | Searchable(nodes, t, |vec|) && Spaced(nodes, erased, vec, gap) && h in t.sub
        && Elements(Preorder(nodes, t.sub, h)) <= nodes.Keys
      ensures FindClosest(nodes, erased, t.sub, vec, Best(None, limit), h, t.depth[h] % |vec|)
              == Scan(nodes, erased, vec, Best(None, limit), Preorder(nodes, t.sub, h))
    {
      FindIsScan(nodes, erased, t, vec, Best(None, limit), h);
    }
  }

  lemma GapBelowOne(gap: real, limit: real)
    requires 0.0 < gap < 1.0 && limit >= 1.0
    ensures !GapSuffices(gap, limit)
  {
    hide FindClosest, Scan, Preorder, Distance, Spaced, Shaped, Depths, Bounded, BoxesSized, BoxesOrdered, TwoPoints,
      MissOffsets;
    var nodes, vec := CloserThanOneMisses(gap, limit, 0.0, 0.0);
    var t := TwoShape();
    assert Searchable(nodes, t, |vec|) && t.depth[0] % |vec| == 0;
  }

  /** The exact condition: from any starting limit of at least 1, pruning is right at spacing `gap` for all trees and
    * queries if and only if `gap >= 1`. */
  lemma GapSufficesFromOne(gap: real, limit: real)
    requires gap > 0.0 && limit >= 1.0
    ensures GapSuffices(gap, limit) <==> gap >= 1.0
  {
    hide GapSuffices;
    if gap >= 1.0 { GapFromOne(gap, limit); } else { GapBelowOne(gap, limit); }
  }

  // ---------------------------------------------------------------------------------------------------------------
  // The promise in plain terms
  // ---------------------------------------------------------------------------------------------------------------

  /** Integer point keys with an integer query, or boxes with corners in order and centres at the query or not nearer
    * than 1. */
  ghost predicate PlainlySpaced(nodes: map<nat, Node>, erased: set<nat>, vec: seq<real>)
    requires BoxesSized(nodes, |vec|)
  {
    || ((forall h :: h in nodes ==>
           nodes[h].box.min == nodes[h].box.max
           && forall i :: 0 <= i < |vec| ==> nodes[h].box.min[i] == nodes[h].box.min[i].Floor as real)
        && (forall i :: 0 <= i < |vec| ==> vec[i] == vec[i].Floor as real))
    || (forall h :: h in nodes ==>
          && (forall i :: 0 <= i < |vec| ==> nodes[h].box.min[i] <= nodes[h].box.max[i])
          && (h !in erased ==> Distance(nodes, h, vec) == 0.0 || Distance(nodes, h, vec) >= 1.0))
  }

  lemma PlainlyMeans(nodes: map<nat, Node>, erased: set<nat>, vec: seq<real>)
    requires BoxesSized(nodes, |vec|) && PlainlySpaced(nodes, erased, vec)
    ensures BoxesOrdered(nodes, |vec|) && Spaced(nodes, erased, vec, 1.0)
  {
    hide Distance;
    if !(BoxesOrdered(nodes, |vec|) && Spaced(nodes, erased, vec, 1.0)) {
      IntegersSpaced(nodes, erased, vec);
    }
  }

  lemma FirstClosestMeans(nodes: map<nat, Node>, erased: set<nat>, vec: seq<real>, s: seq<nat>, limit: real,
                          best: Option<nat>)
    requires BoxesSized(nodes, |vec|) && Elements(s) == nodes.Keys && FirstClosest(nodes, erased, vec, s, limit, best)
    ensures best.None? ==> forall h :: h in nodes && h !in erased ==> Distance(nodes, h, vec) >= limit
    ensures best.Some? ==>
              && best.value in nodes && best.value !in erased && Distance(nodes, best.value, vec) < limit
              && (forall h :: h in nodes && h !in erased ==>
                    Distance(nodes, best.value, vec) <= Distance(nodes, h, vec))
              && exists i :: 0 <= i < |s| && s[i] == best.value
                   && forall h :: h in s[..i] && h in nodes && h !in erased ==>
                        Distance(nodes, best.value, vec) < Distance(nodes, h, vec)
  {
    hide Distance;
    if best.Some? {
      var i :| 0 <= i < |s| && s[i] == best.value && Picks(nodes, erased, vec, s, limit, i);
      assert forall j :: 0 <= j < |s| ==> s[j] in Elements(s);
      forall h | h in nodes && h !in erased ensures Distance(nodes, best.value, vec) <= Distance(nodes, h, vec) {
        assert h in Elements(s);
        var j :| 0 <= j < |s| && s[j] == h;
      }
      assert forall h :: h in s[..i] ==> exists j :: 0 <= j < i && s[j] == h;
    }
  }

  /** All of it together, as the search promises it. */
  lemma ClosestPlain(nodes: map<nat, Node>, erased: set<nat>, vec: seq<real>, s: seq<nat>, limit: real,
                     best: Option<nat>)
    requires BoxesSized(nodes, |vec|) && Elements(s) == nodes.Keys
    requires BoxesOrdered(nodes, |vec|) && Spaced(nodes, erased, vec, 1.0) && limit >= 1.0
             ==> FirstClosest(nodes, erased, vec, s, limit, best)
    ensures limit >= 1.0
            && (((forall h :: h in nodes ==>
                    nodes[h].box.min == nodes[h].box.max
                    && forall i :: 0 <= i < |vec| ==> nodes[h].box.min[i] == nodes[h].box.min[i].Floor as real)
                 && (forall i :: 0 <= i < |vec| ==> vec[i] == vec[i].Floor as real))
                || (forall h :: h in nodes ==>
                      && (forall i :: 0 <= i < |vec| ==> nodes[h].box.min[i] <= nodes[h].box.max[i])
                      && (h !in erased ==> Distance(nodes, h, vec) == 0.0 || Distance(nodes, h, vec) >= 1.0)))
            ==> && (best.None? ==> forall h :: h in nodes && h !in erased ==> Distance(nodes, h, vec) >= limit)
                && (best.Some? ==>
                      && best.value in nodes && best.value !in erased && Distance(nodes, best.value, vec) < limit
                      && (forall h :: h in nodes && h !in erased ==>
                            Distance(nodes, best.value, vec) <= Distance(nodes, h, vec))
                      && exists i :: 0 <= i < |s| && s[i] == best.value
                           && forall h :: h in s[..i] && h in nodes && h !in erased ==>
                                Distance(nodes, best.value, vec) < Distance(nodes, h, vec))
  {
    hide Distance, FirstClosest, Spaced, BoxesOrdered;
    if PlainlySpaced(nodes, erased, vec) && limit >= 1.0 {
      PlainlyMeans(nodes, erased, vec);
      FirstClosestMeans(nodes, erased, vec, s, limit, best);
    }
  }
}
