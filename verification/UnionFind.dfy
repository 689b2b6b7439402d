/** The union-find structure of union-find.inl: a forest of parent handles whose roots carry one datum per class. The
  * datum is an integer and merging is `+=`. */
module UnionFind {
  import opened Prelude

  /** Every parent is a node of smaller height, so that climbing ends. */
  ghost predicate Forest(parent: seq<Option<nat>>, height: seq<nat>) {
    && |height| == |parent|
    && forall i :: 0 <= i < |parent| && parent[i].Some?
                   ==> parent[i].value < |parent| && height[parent[i].value] < height[i]
  }

  /** The root that represents the class of `i`. */
  ghost function RootOf(parent: seq<Option<nat>>, height: seq<nat>, i: nat): (r: nat)
    requires Forest(parent, height) && i < |parent|
    ensures r < |parent| && parent[r].None?
    decreases height[i]
  {
    if parent[i].None? then i else RootOf(parent, height, parent[i].value)
  }

  /** The nodes from `i` up to its root. */
  ghost function Path(parent: seq<Option<nat>>, height: seq<nat>, i: nat): set<nat>
    requires Forest(parent, height) && i < |parent|
    decreases height[i]
  {
    {i} + if parent[i].None? then {} else Path(parent, height, parent[i].value)
  }

  lemma {:induction false} PathDescends(parent: seq<Option<nat>>, height: seq<nat>, i: nat)
    requires Forest(parent, height) && i < |parent|
    ensures forall x :: x in Path(parent, height, i) ==> x == i || (x < |parent| && height[x] < height[i])
    decreases height[i]
  {
    if parent[i].Some? { PathDescends(parent, height, parent[i].value); }
  }

  // While `h` climbs from `handle`, the nodes it has left point at the root, and all others are as they were.
  ghost predicate Climbed(parent: seq<Option<nat>>, parent': seq<Option<nat>>, height: seq<nat>, handle: nat, h: nat,
                          root: nat)
    requires Forest(parent, height) && handle < |parent| && h < |parent|
  {
    && |parent'| == |parent| && Path(parent, height, h) <= Path(parent, height, handle)
    && forall i :: 0 <= i < |parent|
         ==> parent'[i] == if i in Path(parent, height, handle) - Path(parent, height, h) then Some(root) else parent[i]
  }

  lemma ClimbStart(parent: seq<Option<nat>>, height: seq<nat>, handle: nat, root: nat)
    requires Forest(parent, height) && handle < |parent|
    ensures Climbed(parent, parent, height, handle, handle, root)
  {
  }

  lemma ClimbStep(parent: seq<Option<nat>>, parent': seq<Option<nat>>, height: seq<nat>, handle: nat, h: nat, root: nat)
    requires Forest(parent, height) && handle < |parent| && h < |parent|
             && Climbed(parent, parent', height, handle, h, root)
    requires parent[h].Some?
    ensures parent'[h] == parent[h]
    ensures Climbed(parent, parent'[h := Some(root)], height, handle, parent[h].value, root)
  {
    PathDescends(parent, height, parent[h].value);
  }

  lemma ClimbEnd(parent: seq<Option<nat>>, parent': seq<Option<nat>>, height: seq<nat>, handle: nat, root: nat)
    requires Forest(parent, height) && handle < |parent| && root < |parent| && parent[root].None?
    requires Climbed(parent, parent', height, handle, root, root)
    ensures forall i :: 0 <= i < |parent|
              ==> parent'[i] == if i in Path(parent, height, handle) && i != root then Some(root) else parent[i]
  {
  }

  ghost predicate Same(parent: seq<Option<nat>>, height: seq<nat>, i: nat, j: nat)
    requires Forest(parent, height) && i < |parent| && j < |parent|
  {
    RootOf(parent, height, i) == RootOf(parent, height, j)
  }

  function Roots(parent: seq<Option<nat>>): set<nat> {
    set i: nat | i < |parent| && parent[i].None?
  }

  /** The forest `parent'` has the same elements, roots and classes as `parent`. */
  ghost predicate SamePartition(parent: seq<Option<nat>>, parent': seq<Option<nat>>, height: seq<nat>) {
    && Forest(parent, height) && Forest(parent', height)
    && (forall i :: 0 <= i < |parent| ==> (parent'[i].None? <==> parent[i].None?))
    && forall i :: 0 <= i < |parent| ==> RootOf(parent', height, i) == RootOf(parent, height, i)
  }

  lemma {:induction false} RootBelow(parent: seq<Option<nat>>, height: seq<nat>, i: nat)
    requires Forest(parent, height) && i < |parent|
    ensures RootOf(parent, height, i) == i || height[RootOf(parent, height, i)] < height[i]
    decreases height[i]
  {
    if parent[i].Some? { RootBelow(parent, height, parent[i].value); }
  }

  lemma {:induction false} CompressedRoot(parent: seq<Option<nat>>, height: seq<nat>, x: nat, i: nat)
    requires Forest(parent, height) && x < |parent| && i < |parent| && parent[x].Some?
    ensures var parent' := parent[x := Some(RootOf(parent, height, x))];
            Forest(parent', height) && RootOf(parent', height, i) == RootOf(parent, height, i)
    decreases height[i]
  {
    RootBelow(parent, height, x);
    var root := RootOf(parent, height, x);
    var parent' := parent[x := Some(root)];
    assert Forest(parent', height);
    if i == x {
      assert RootOf(parent', height, root) == root;
    } else if parent[i].Some? {
      CompressedRoot(parent, height, x, parent[i].value);
    }
  }

  /** Pointing a node straight at its root changes no class. */
  lemma Compressed(parent: seq<Option<nat>>, height: seq<nat>, x: nat)
    requires Forest(parent, height) && x < |parent| && parent[x].Some?
    ensures SamePartition(parent, parent[x := Some(RootOf(parent, height, x))], height)
  {
    CompressedRoot(parent, height, x, x);
    forall i | 0 <= i < |parent|
      ensures RootOf(parent[x := Some(RootOf(parent, height, x))], height, i) == RootOf(parent, height, i)
    {
      CompressedRoot(parent, height, x, i);
    }
  }

  lemma SamePartitionTrans(p: seq<Option<nat>>, q: seq<Option<nat>>, r: seq<Option<nat>>, height: seq<nat>)
    requires SamePartition(p, q, height) && SamePartition(q, r, height)
    ensures SamePartition(p, r, height)
  {
  }

  // The heights after root `a` has been linked below root `b`: the whole class of `a` moves above `b`.
  ghost function Lifted(parent: seq<Option<nat>>, height: seq<nat>, a: nat, b: nat): seq<nat>
    requires Forest(parent, height) && a < |parent| && b < |parent|
  {
    seq(|parent|, i requires 0 <= i < |parent| =>
      if RootOf(parent, height, i) == a then height[i] + height[b] + 1 else height[i])
  }

  lemma LiftedForest(parent: seq<Option<nat>>, height: seq<nat>, a: nat, b: nat)
    requires Forest(parent, height) && a < |parent| && b < |parent| && parent[a].None? && parent[b].None? && a != b
    ensures Forest(parent[a := Some(b)], Lifted(parent, height, a, b))
  {
  }

  lemma {:induction false} LinkedRoot(parent: seq<Option<nat>>, height: seq<nat>, a: nat, b: nat, i: nat)
    requires Forest(parent, height) && a < |parent| && b < |parent| && parent[a].None? && parent[b].None? && a != b
    requires i < |parent| && Forest(parent[a := Some(b)], Lifted(parent, height, a, b))
    ensures RootOf(parent[a := Some(b)], Lifted(parent, height, a, b), i)
            == if RootOf(parent, height, i) == a then b else RootOf(parent, height, i)
    decreases height[i]
  {
    var parent', height' := parent[a := Some(b)], Lifted(parent, height, a, b);
    if parent[i].Some? {
      LinkedRoot(parent, height, a, b, parent[i].value);
    } else {
      assert RootOf(parent', height', b) == b;
    }
  }

  /** Linking root `a` below root `b` joins exactly the classes of `a` and `b`. */
  lemma LinkJoins(parent: seq<Option<nat>>, height: seq<nat>, a: nat, b: nat)
    requires Forest(parent, height) && a < |parent| && b < |parent| && parent[a].None? && parent[b].None? && a != b
    ensures var parent', height' := parent[a := Some(b)], Lifted(parent, height, a, b);
            && Forest(parent', height') && Roots(parent') == Roots(parent) - {a}
            && forall i :: 0 <= i < |parent|
                 ==> RootOf(parent', height', i)
                     == if RootOf(parent, height, i) == a then b else RootOf(parent, height, i)
  {
    LiftedForest(parent, height, a, b);
    forall i | 0 <= i < |parent|
      ensures RootOf(parent[a := Some(b)], Lifted(parent, height, a, b), i)
              == if RootOf(parent, height, i) == a then b else RootOf(parent, height, i)
    {
      LinkedRoot(parent, height, a, b, i);
    }
  }

  // ---------------------------------------------------------------------------------------------------------------
  // The data of a class
  // ---------------------------------------------------------------------------------------------------------------

  /** The sum of the values of the first `n` elements that `rep` puts in class `r`. */
  ghost function ClassSum(rep: seq<nat>, value: seq<int>, r: nat, n: nat): int
    requires n <= |rep| == |value|
  {
    if n == 0 then 0 else ClassSum(rep, value, r, n - 1) + if rep[n - 1] == r then value[n - 1] else 0
  }

  lemma {:induction false} JoinedSum(rep: seq<nat>, rep': seq<nat>, value: seq<int>, a: nat, b: nat, r: nat, n: nat)
    requires n <= |rep| == |rep'| == |value| && a != b
    requires forall i :: 0 <= i < n ==> rep'[i] == if rep[i] == a then b else rep[i]
    ensures ClassSum(rep', value, b, n) == ClassSum(rep, value, a, n) + ClassSum(rep, value, b, n)
    ensures r != a && r != b ==> ClassSum(rep', value, r, n) == ClassSum(rep, value, r, n)
  {
    if n > 0 { JoinedSum(rep, rep', value, a, b, r, n - 1); }
  }

  lemma {:induction false} SumPrefix(rep: seq<nat>, rep': seq<nat>, value: seq<int>, value': seq<int>, r: nat, n: nat)
    requires n <= |rep| == |value| && n <= |rep'| == |value'|
    requires forall i :: 0 <= i < n ==> rep'[i] == rep[i] && value'[i] == value[i]
    ensures ClassSum(rep', value', r, n) == ClassSum(rep, value, r, n)
  {
    if n > 0 { SumPrefix(rep, rep', value, value', r, n - 1); }
  }

  lemma {:induction false} EmptySum(rep: seq<nat>, value: seq<int>, r: nat, n: nat)
    requires n <= |rep| == |value|
    requires forall i :: 0 <= i < n ==> rep[i] != r
    ensures ClassSum(rep, value, r, n) == 0
  {
    if n > 0 { EmptySum(rep, value, r, n - 1); }
  }

  ghost function Reps(parent: seq<Option<nat>>, height: seq<nat>): (rep: seq<nat>)
    requires Forest(parent, height)
    ensures |rep| == |parent|
  {
    seq(|parent|, i requires 0 <= i < |parent| => RootOf(parent, height, i))
  }

  /** Each root holds the sum of the values its class was given; other nodes hold nothing. */
  ghost predicate DataOk(parent: seq<Option<nat>>, height: seq<nat>, data: seq<Option<int>>, value: seq<int>) {
    && Forest(parent, height) && |data| == |value| == |parent|
    && forall r :: 0 <= r < |parent|
         ==> data[r] == if parent[r].None? then Some(ClassSum(Reps(parent, height), value, r, |parent|)) else None
  }

  lemma DataKept(parent: seq<Option<nat>>, parent': seq<Option<nat>>, height: seq<nat>, data: seq<Option<int>>,
                 value: seq<int>)
    requires SamePartition(parent, parent', height) && DataOk(parent, height, data, value)
    ensures DataOk(parent', height, data, value) && Roots(parent') == Roots(parent)
  {
    assert Reps(parent', height) == Reps(parent, height);
  }

  lemma DataJoined(parent: seq<Option<nat>>, height: seq<nat>, a: nat, b: nat, data: seq<Option<int>>, value: seq<int>)
    requires DataOk(parent, height, data, value)
    requires a < |parent| && b < |parent| && parent[a].None? && parent[b].None? && a != b
    ensures DataOk(parent[a := Some(b)], Lifted(parent, height, a, b),
                   data[b := Some(data[b].value + data[a].value)][a := None], value)
  {
    LinkJoins(parent, height, a, b);
    var parent', height' := parent[a := Some(b)], Lifted(parent, height, a, b);
    var data' := data[b := Some(data[b].value + data[a].value)][a := None];
    var rep, rep' := Reps(parent, height), Reps(parent', height');
    forall r | 0 <= r < |parent|
      ensures data'[r] == if parent'[r].None? then Some(ClassSum(rep', value, r, |parent|)) else None
    {
      JoinedSum(rep, rep', value, a, b, r, |parent|);
    }
  }

  lemma {:induction false} AddedRoot(parent: seq<Option<nat>>, height: seq<nat>, i: nat)
    requires Forest(parent, height) && i < |parent|
    ensures Forest(parent + [None], height + [0])
    ensures RootOf(parent + [None], height + [0], i) == RootOf(parent, height, i)
    decreases height[i]
  {
    if parent[i].Some? { AddedRoot(parent, height, parent[i].value); }
  }

  lemma DataAdded(parent: seq<Option<nat>>, height: seq<nat>, data: seq<Option<int>>, value: seq<int>, x: int)
    requires DataOk(parent, height, data, value)
    ensures DataOk(parent + [None], height + [0], data + [Some(x)], value + [x])
    ensures Roots(parent + [None]) == Roots(parent) + {|parent|}
    ensures forall i :: 0 <= i < |parent| ==> RootOf(parent + [None], height + [0], i) == RootOf(parent, height, i)
  {
    hide RootOf, ClassSum, Reps;
    var parent', height', value' := parent + [None], height + [0], value + [x];
    var rep, n := Reps(parent, height), |parent|;
    forall i | 0 <= i < n ensures RootOf(parent', height', i) == RootOf(parent, height, i) {
      AddedRoot(parent, height, i);
    }
    AddedForest(parent, height);
    var rep' := Reps(parent', height');
    RepsAdded(parent, height);
    forall r | 0 <= r < n + 1
      ensures (data + [Some(x)])[r] == if parent'[r].None? then Some(ClassSum(rep', value', r, n + 1)) else None
    {
      SumPrefix(rep, rep', value, value', r, n);
      SumLast(rep', value', r, n);
      if r == n { EmptySum(rep, value, n, n); }
    }
  }

  lemma AddedForest(parent: seq<Option<nat>>, height: seq<nat>)
    requires Forest(parent, height)
    ensures Forest(parent + [None], height + [0])
    ensures RootOf(parent + [None], height + [0], |parent|) == |parent|
  {
  }

  lemma RepsAdded(parent: seq<Option<nat>>, height: seq<nat>)
    requires Forest(parent, height) && Forest(parent + [None], height + [0])
    requires forall i :: 0 <= i < |parent| ==> RootOf(parent + [None], height + [0], i) == RootOf(parent, height, i)
    ensures var rep, rep' := Reps(parent, height), Reps(parent + [None], height + [0]);
            && |rep| == |parent| && |rep'| == |parent| + 1 && rep'[|parent|] == |parent|
            && forall i :: 0 <= i < |parent| ==> rep'[i] == rep[i] < |parent|
  {
  }

  lemma SumLast(rep: seq<nat>, value: seq<int>, r: nat, n: nat)
    requires n < |rep| == |value|
    ensures ClassSum(rep, value, r, n + 1) == ClassSum(rep, value, r, n) + if rep[n] == r then value[n] else 0
  {
  }

  // ---------------------------------------------------------------------------------------------------------------
  // The structure
  // ---------------------------------------------------------------------------------------------------------------

  class UnionFind {
    var parent: seq<Option<nat>>
    var data: seq<Option<int>>   // constructed in the roots only
    var count: int
    ghost var height: seq<nat>
    ghost var value: seq<int>    // what each element was added with

    ghost predicate Valid()
      reads this
    {
      DataOk(parent, height, data, value) && count == |Roots(parent)|
    }

    constructor ()
      ensures Valid() && parent == []
    {
      parent, data, count, height, value := [], [], 0, [], [];
      new;
      assert Roots(parent) == {};
    }

    /** `n` classes of one element each, all with the same value. */
    constructor Filled(n: nat, x: int)
      ensures Valid() && |parent| == n == count && (forall i :: 0 <= i < n ==> parent[i].None? && value[i] == x)
    {
      parent, data, count, height, value := [], [], 0, [], [];
      new;
      hide ClassSum, Reps, RootOf;
      assert Roots(parent) == {};
      while |parent| < n
        invariant Valid() && |parent| == count <= n && |value| == |parent|
        invariant forall i :: 0 <= i < |parent| ==> parent[i].None? && value[i] == x
        decreases n - |parent|
      {
        var _ := Add(x);
      }
    }

    /** Appends an element that is a class of its own. */
    method Add(x: int) returns (handle: nat)
      requires Valid()
      modifies this
      ensures Valid() && handle == old(|parent|)
      ensures parent == old(parent) + [None] && value == old(value) + [x] && count == old(count) + 1
      ensures height == old(height) + [0]
      ensures forall i :: 0 <= i < handle ==> RootOf(parent, height, i) == old(RootOf(parent, height, i))
    {
      hide ClassSum, Reps;
      DataAdded(parent, height, data, value, x);
      handle := |parent|;
      parent, data, count := parent + [None], data + [Some(x)], count + 1;
      height, value := height + [0], value + [x];
    }

    /** The root of a class; the elements on the way to it end up right below it. */
    method Find(handle: nat) returns (h: nat)
      requires Valid() && handle < |parent|
      modifies this`parent
      ensures Valid() && |parent| == |old(parent)| && SamePartition(old(parent), parent, height)
      ensures h == RootOf(parent, height, handle)
      ensures forall i :: 0 <= i < |parent|
                ==> parent[i] == if i in Path(old(parent), height, handle) && i != h then Some(h) else old(parent)[i]
    {
      hide DataOk, RootOf, Reps, Climbed, Path;
      DataForest(parent, height, data, value);
      RootUnfolds(parent, height);
      var root: nat := handle;
      while parent[root].Some?
        invariant root < |parent| && RootOf(parent, height, root) == RootOf(parent, height, handle)
        decreases height[root]
      {
        root := parent[root].value;
      }
      h := handle;
      ClimbStart(parent, height, handle, root);
      while h != root
        invariant |parent| == |old(parent)| && h < |parent| && SamePartition(old(parent), parent, height)
        invariant RootOf(parent, height, h) == root == RootOf(parent, height, handle)
        invariant Climbed(old(parent), parent, height, handle, h, root)
        decreases height[h]
      {
        RootUnfolds(parent, height);
        ClimbStep(old(parent), parent, height, handle, h, root);
        var up := parent[h].value;
        Compressed(parent, height, h);
        ghost var was := parent;
        parent := parent[h := Some(root)];
        SamePartitionTrans(old(parent), was, parent, height);
        h := up;
      }
      ClimbEnd(old(parent), parent, height, handle, root);
      DataKept(old(parent), parent, height, data, value);
    }

    /** Merges the class of `a` into the class of `b`, and returns the root of the result. */
    method MergeWith(a: nat, b: nat) returns (h: nat)
      requires Valid() && a < |parent| && b < |parent|
      modifies this
      ensures Valid() && |parent| == |old(parent)| && value == old(value)
      ensures Joined(old(parent), old(height), parent, height, a, b)
      ensures h == RootOf(parent, height, b) == old(RootOf(parent, height, b))
      ensures old(!Same(parent, height, a, b)) ==> parent[old(RootOf(parent, height, a))] == Some(h)
      ensures count == if old(Same(parent, height, a, b)) then old(count) else old(count) - 1
    {
      hide DataOk, RootOf, Reps, Roots, Joined;
      DataForest(parent, height, data, value);
      var node := Find(a);
      var other := Find(b);
      if node == other {
        JoinedAlready(old(parent), parent, height, a, b);
        return other;
      }
      LinkJoins(parent, height, node, other);
      DataJoined(parent, height, node, other, data, value);
      DataOfRoots(parent, height, data, value, node, other);
      ghost var was := parent;
      parent := parent[node := Some(other)];
      data := data[other := Some(data[other].value + data[node].value)][node := None];
      height := Lifted(was, height, node, other);
      count := count - 1;
      JoinedNow(old(parent), old(height), was, parent, height, a, b);
      return other;
    }

    /** Merges two classes, as the structure's own merge does: the first into the second. */
    method Merge(a: nat, b: nat)
      requires Valid() && a < |parent| && b < |parent|
      modifies this
      ensures Valid() && |parent| == |old(parent)| && value == old(value)
      ensures Joined(old(parent), old(height), parent, height, a, b)
      ensures count == if old(Same(parent, height, a, b)) then old(count) else old(count) - 1
    {
      hide DataOk, RootOf, Reps, Roots, Joined;
      DataForest(parent, height, data, value);
      var node := Find(a);
      ghost var was, wasHeight := parent, height;
      var h := MergeWith(node, b);
      JoinedThroughRoot(old(parent), was, wasHeight, parent, height, a, b);
    }

    /** The datum of the class of `i`: the sum of its members' values. */
    method Get(i: nat) returns (x: int)
      requires Valid() && i < |parent|
      modifies this`parent
      ensures Valid() && |parent| == |old(parent)| && SamePartition(old(parent), parent, height)
      ensures x == ClassSum(Reps(parent, height), value, RootOf(parent, height, i), |parent|)
    {
      var h := Find(i);
      x := data[h].value;
    }
  }

  lemma DataForest(parent: seq<Option<nat>>, height: seq<nat>, data: seq<Option<int>>, value: seq<int>)
    requires DataOk(parent, height, data, value)
    ensures Forest(parent, height) && SamePartition(parent, parent, height) && |data| == |parent|
  {
  }

  lemma DataOfRoots(parent: seq<Option<nat>>, height: seq<nat>, data: seq<Option<int>>, value: seq<int>, a: nat, b: nat)
    requires DataOk(parent, height, data, value) && a < |parent| && b < |parent| && parent[a].None? && parent[b].None?
    ensures |data| == |parent| && data[a].Some? && data[b].Some? && a in Roots(parent)
  {
  }

  lemma RootUnfolds(parent: seq<Option<nat>>, height: seq<nat>)
    requires Forest(parent, height)
    ensures forall i {:trigger RootOf(parent, height, i)} :: 0 <= i < |parent|
              ==> if parent[i].None? then RootOf(parent, height, i) == i
                  else RootOf(parent, height, i) == RootOf(parent, height, parent[i].value)
  {
  }

  /** The classes after merging `a` and `b`: two elements are together if they were, or if one was with `a` and the
    * other with `b`; and the root of `b` represents the result. */
  ghost predicate Joined(parent: seq<Option<nat>>, height: seq<nat>, parent': seq<Option<nat>>, height': seq<nat>,
                         a: nat, b: nat)
    requires Forest(parent, height) && a < |parent| && b < |parent|
  {
    && Forest(parent', height') && |parent'| == |parent|
    && RootOf(parent', height', a) == RootOf(parent', height', b) == RootOf(parent, height, b)
    && forall i, j :: 0 <= i < |parent| && 0 <= j < |parent|
         ==> (Same(parent', height', i, j)
              <==> (|| Same(parent, height, i, j)
                    || (Same(parent, height, i, a) && Same(parent, height, j, b))
                    || (Same(parent, height, i, b) && Same(parent, height, j, a))))
  }

  /** Said of roots: two elements have one root afterwards if they had, or if theirs were those of `a` and `b`. */
  lemma JoinedMeans(parent: seq<Option<nat>>, height: seq<nat>, parent': seq<Option<nat>>, height': seq<nat>, a: nat,
                    b: nat)
    requires Forest(parent, height) && a < |parent| && b < |parent| && Joined(parent, height, parent', height', a, b)
    ensures forall i, j :: 0 <= i < |parent| && 0 <= j < |parent| ==>
              var r, s, ra, rb := RootOf(parent, height, i), RootOf(parent, height, j),
                                  RootOf(parent, height, a), RootOf(parent, height, b);
              RootOf(parent', height', i) == RootOf(parent', height', j)
              <==> r == s || (r == ra && s == rb) || (r == rb && s == ra)
  {
    hide RootOf;
    assert forall i, j :: 0 <= i < |parent| && 0 <= j < |parent| ==>
        (Same(parent', height', i, j) <==> RootOf(parent', height', i) == RootOf(parent', height', j));
  }

  lemma JoinedAlready(parent: seq<Option<nat>>, parent': seq<Option<nat>>, height: seq<nat>, a: nat, b: nat)
    requires Forest(parent, height) && a < |parent| && b < |parent| && |parent'| == |parent|
    requires SamePartition(parent, parent', height) && Same(parent, height, a, b)
    ensures Joined(parent, height, parent', height, a, b)
  {
  }

  lemma JoinedNow(parent: seq<Option<nat>>, height: seq<nat>, was: seq<Option<nat>>, parent': seq<Option<nat>>,
                  height': seq<nat>, a: nat, b: nat)
    requires Forest(parent, height) && a < |parent| && b < |parent| && |was| == |parent| == |parent'|
    requires SamePartition(parent, was, height) && Forest(parent', height')
    requires RootOf(parent, height, a) != RootOf(parent, height, b)
    requires forall i :: 0 <= i < |parent|
               ==> RootOf(parent', height', i)
                   == if RootOf(was, height, i) == RootOf(was, height, a) then RootOf(was, height, b)
                      else RootOf(was, height, i)
    ensures Joined(parent, height, parent', height', a, b)
  {
  }

  lemma JoinedThroughRoot(parent: seq<Option<nat>>, was: seq<Option<nat>>, height: seq<nat>, parent': seq<Option<nat>>,
                          height': seq<nat>, a: nat, b: nat)
    requires Forest(parent, height) && a < |parent| && b < |parent| && |was| == |parent|
    requires SamePartition(parent, was, height)
    requires Joined(was, height, parent', height', RootOf(parent, height, a), b)
    ensures Joined(parent, height, parent', height', a, b)
    ensures Same(was, height, RootOf(parent, height, a), b) == Same(parent, height, a, b)
  {
    var node := RootOf(parent, height, a);
    assert RootOf(was, height, node) == node;
    assert Same(was, height, a, node);
    assert Same(parent', height', a, node);
    forall i, j | 0 <= i < |parent| && 0 <= j < |parent|
      ensures Same(parent, height, i, j) == Same(was, height, i, j)
      ensures Same(parent, height, i, a) == Same(was, height, i, node)
    {
      assert RootOf(was, height, i) == RootOf(parent, height, i) && RootOf(was, height, j) == RootOf(parent, height, j);
    }
  }
}
