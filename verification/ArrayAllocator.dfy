/** `alloc::Array_Allocator`: elements live in one growing block of slots, and a new
    element goes to the first free slot found by a circular search that starts where
    the previous search stopped. */
module ArrayAllocator {
  import opened Prelude

  function Live<T>(v: seq<Option<T>>): (n: nat)
    ensures n <= |v|
  {
    if v == [] then 0 else Live(v[..|v| - 1]) + if v[|v| - 1].Some? then 1 else 0
  }

  lemma {:induction false} LiveConcat<T>(v: seq<Option<T>>, w: seq<Option<T>>)
    ensures Live(v + w) == Live(v) + Live(w)
    decreases |w|
  {
    if w == [] {
      assert v + w == v;
    } else {
      assert (v + w)[..|v + w| - 1] == v + w[..|w| - 1];
      LiveConcat(v, w[..|w| - 1]);
    }
  }

  lemma {:induction false} LiveUpdate<T>(v: seq<Option<T>>, i: nat, x: Option<T>)
    requires i < |v|
    ensures Live(v[i := x]) == Live(v) - (if v[i].Some? then 1 else 0) + (if x.Some? then 1 else 0)
  {
    var l, r := v[..i], v[i + 1..];
    assert v == l + [v[i]] + r;
    assert v[i := x] == l + [x] + r;
    LiveConcat(l + [v[i]], r); LiveConcat(l, [v[i]]);
    LiveConcat(l + [x], r); LiveConcat(l, [x]);
  }

  lemma {:induction false} LiveNones<T>(n: nat)
    ensures Live(Free<T>(n)) == 0
  {
    if n > 0 {
      assert Free<T>(n)[..n - 1] == Free<T>(n - 1);
      LiveNones<T>(n - 1);
    }
  }

  /** A block that is not full has a free slot, so the circular search can succeed. */
  lemma {:induction false} FreeSlotExists<T>(v: seq<Option<T>>)
    requires Live(v) < |v|
    ensures exists i :: 0 <= i < |v| && v[i].None?
  {
    var n := |v| - 1;
    if v[n].Some? {
      FreeSlotExists(v[..n]);
      var i :| 0 <= i < n && v[..n][i].None?;
      assert v[i].None?;
    }
  }

  function Free<T>(n: nat): (v: seq<Option<T>>)
    ensures |v| == n && forall i :: 0 <= i < n ==> v[i] == None
  {
    seq(n, i => None)
  }

  /** The block after `construct` has grown it when at least half of it is in use. */
  function Grown<T>(v: seq<Option<T>>): seq<Option<T>> {
    if 2 * Live(v) >= |v| then v + Free(|v| + 1) else v
  }

  lemma GrownHasRoom<T>(v: seq<Option<T>>)
    ensures Live(Grown(v)) == Live(v) && 2 * Live(v) + 1 <= |Grown(v)|
  {
    LiveConcat(v, Free<T>(|v| + 1));
    LiveNones<T>(|v| + 1);
  }

  /** `j` is met by a circular walk that starts at `from` and stops on reaching `to`. */
  ghost predicate InCircle(from: int, j: int, to: int) {
    if from <= to then from <= j < to else from <= j || j < to
  }

  /** The circular search of `construct`: it ends on the first free slot at or after
      `start`, wrapping around the end of the block. */
  method FirstFree<T>(v: seq<Option<T>>, start: nat) returns (lookup: nat)
    requires start < |v| && Live(v) < |v|
    ensures lookup < |v| && v[lookup].None?
    ensures forall j :: 0 <= j < |v| ==>
              (start <= j < lookup || (lookup < start && (start <= j || j < lookup))) ==> v[j].Some?
  {
    FreeSlotExists(v);
    ghost var free :| 0 <= free < |v| && v[free].None?;
    lookup := start;
    while v[lookup].Some?
      invariant lookup < |v|
      invariant forall j :: 0 <= j < |v| && InCircle(start, j, lookup) ==> v[j].Some?
      invariant lookup == free || InCircle(start, lookup, free)
      decreases if lookup <= free then free - lookup else free + |v| - lookup
    {
      lookup := lookup + 1;
      if lookup == |v| {
        lookup := 0;
      }
    }
  }

  class Allocator<T> {
    var v: seq<Option<T>>
    var count: nat
    var lookup: nat

    ghost predicate Valid()
      reads this
    {
      && count == Live(v)
      && 2 * count <= |v| + 1
      && (if |v| == 0 then lookup == 0 else lookup < |v|)
    }

    constructor ()
      ensures Valid() && v == []
    {
      v, count, lookup := [], 0, 0;
    }

    /** The block grows to one more than twice its size when half of it is in use. The slot handed out was free
      * before, every other slot keeps its content, new slots are free, and at most half of the block (rounded up) is
      * in use. The search starts where the last one stopped, takes the first free slot from there on, going round,
      * and stops just behind it. */
    method Construct(x: T) returns (index: nat)
      requires Valid()
      modifies this
      ensures Valid()
      ensures index < |v| && (index < |old(v)| ==> old(v)[index].None?)
      ensures index < |Grown(old(v))| && v == Grown(old(v))[index := Some(x)]
      ensures count == old(count) + 1 && 2 * count <= |v| + 1
      ensures |v| == if 2 * old(count) >= |old(v)| then 2 * |old(v)| + 1 else |old(v)|
      ensures v[index] == Some(x) && forall j :: 0 <= j < |v| && j != index ==>
                                       v[j] == if j < |old(v)| then old(v)[j] else None
      // the search is circular: every slot it passed over is in use
      ensures forall j :: 0 <= j < |v| ==>
                (old(lookup) <= j < index || (index < old(lookup) && (old(lookup) <= j || j < index))) ==> v[j].Some?
      ensures lookup == if index + 1 < |v| then index + 1 else 0
    {
      GrownHasRoom(v);
      hide Live;
      if count * 2 >= |v| {
        v := v + Free(|v| + 1);
      }
      lookup := FirstFree(v, lookup);
      index := lookup;
      lookup := lookup + 1;
      if lookup == |v| {
        lookup := 0;
      }
      LiveUpdate(v, index, Some(x));
      v := v[index := Some(x)];
      count := count + 1;
    }

    method Destruct(index: nat)
      requires Valid() && index < |v| && v[index].Some?
      modifies this
      ensures Valid() && v == old(v)[index := None] && lookup == old(lookup) && count == old(count) - 1
    {
      LiveUpdate(v, index, None);
      v := v[index := None];
      count := count - 1;
    }

    method Reserve(size: nat)
      requires Valid()
      modifies this
      ensures Valid() && lookup == old(lookup)
      ensures v == if size <= |old(v)| then old(v) else old(v) + Free(size - |old(v)|)
    {
      if size <= |v| { return; }
      LiveConcat(v, Free<T>(size - |v|));
      LiveNones<T>(size - |v|);
      v := v + Free(size - |v|);
    }
  }

  /** A slot just freed is handed out again exactly when there is no other free one. */
  method ConstructAgain<T>(a: Allocator<T>, x: T, y: T) returns (i: nat, j: nat, ghost between: seq<Option<T>>)
    requires a.Valid()
    modifies a
    ensures a.Valid() && |between| == |a.v| && i < |a.v| && j < |a.v|
    ensures between[i].None? && a.v == between[j := Some(y)]
    ensures j == i <==> forall k :: 0 <= k < |between| && k != i ==> between[k].Some?
  {
    hide Live, Grown;
    i := a.Construct(x);
    a.Destruct(i);
    between := a.v;
    j := a.Construct(y);
    assert |a.v| == |between|;
    assert a.v == between[j := Some(y)];
    if j == i {
      forall k | 0 <= k < |between| && k != i ensures between[k].Some? { assert a.v[k].Some?; }
    }
  }
}
