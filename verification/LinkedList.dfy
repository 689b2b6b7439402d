/** `List`: a doubly linked list whose nodes live in an `Array_Allocator`. Handles are
    slot indices; a missing link is `None`. */
module LinkedList {
  import opened Prelude
  import opened ArrayAllocator

  datatype Node<T> = Node(val: T, next: Option<nat>, prev: Option<nat>)

  type Slots<T> = seq<Option<Node<T>>>

  /** The i-th element of `order`, or no handle when i falls off either end. */
  function Ith(order: seq<nat>, i: int): Option<nat> {
    if 0 <= i < |order| then Some(order[i]) else None
  }

  predicate IsLive<T>(v: Slots<T>, h: nat) {
    h < |v| && v[h].Some?
  }

  /** The live slots of `v` are exactly the handles in `order`, chained in that order. */
  ghost predicate Chained<T>(v: Slots<T>, order: seq<nat>) {
    && Distinct(order)
    && (forall h: nat :: IsLive(v, h) <==> h in order)
    && (forall i :: 0 <= i < |order| ==> ChainedAt(v, order, i))
  }

  ghost predicate ChainedAt<T>(v: Slots<T>, order: seq<nat>, i: nat)
    requires i < |order|
  {
    && IsLive(v, order[i])
    && v[order[i]].value.next == Ith(order, i + 1)
    && v[order[i]].value.prev == Ith(order, i - 1)
  }

  function Without(order: seq<nat>, i: nat): seq<nat>
    requires i < |order|
  {
    order[..i] + order[i + 1..]
  }

  function Inserted(order: seq<nat>, i: nat, h: nat): seq<nat>
    requires i <= |order|
  {
    order[..i] + [h] + order[i..]
  }

  lemma SplicesAre(order: seq<nat>, i: nat, h: nat)
    requires i <= |order|
    ensures Inserted(order, i, h) == order[..i] + [h] + order[i..]
    ensures i < |order| ==> Without(order, i) == order[..i] + order[i + 1..]
  {
  }

  /** `ALLOC[h].next = to`, done only when the handle `h` is valid. */
  function SetNext<T>(v: Slots<T>, h: Option<nat>, to: Option<nat>): (w: Slots<T>)
    requires h.Some? ==> IsLive(v, h.value)
    ensures |w| == |v| && Live(w) == Live(v)
  {
    if h.None? then v
    else
      var x := Some(v[h.value].value.(next := to));
      LiveUpdate(v, h.value, x);
      v[h.value := x]
  }

  /** `ALLOC[h].prev = to`, done only when the handle `h` is valid. */
  function SetPrev<T>(v: Slots<T>, h: Option<nat>, to: Option<nat>): (w: Slots<T>)
    requires h.Some? ==> IsLive(v, h.value)
    ensures |w| == |v| && Live(w) == Live(v)
  {
    if h.None? then v
    else
      var x := Some(v[h.value].value.(prev := to));
      LiveUpdate(v, h.value, x);
      v[h.value := x]
  }

  /** Outside `except` the two blocks hold the same nodes. */
  ghost predicate Agree<T>(v: Slots<T>, w: Slots<T>, except: set<nat>) {
    forall k: nat :: k !in except ==>
      (IsLive(v, k) <==> IsLive(w, k)) && (IsLive(v, k) ==> v[k] == w[k])
  }

  ghost predicate Relinked<T>(v: Slots<T>, w: Slots<T>, k: nat, next: Option<nat>, prev: Option<nat>) {
    && IsLive(v, k) && IsLive(w, k)
    && w[k].value == Node(v[k].value.val, next, prev)
  }

  ghost predicate SameVals<T>(v: Slots<T>, w: Slots<T>, hs: seq<nat>) {
    forall k :: k in hs ==> IsLive(v, k) && IsLive(w, k) && w[k].value.val == v[k].value.val
  }

  /** The stored values by handle. */
  ghost function Content<T>(v: Slots<T>): (m: map<nat, T>)
  {
    map h: nat | h < |v| && v[h].Some? :: v[h].value.val
  }

  lemma ContentAfter<T>(v: Slots<T>, w: Slots<T>, order: seq<nat>, order': seq<nat>)
    requires Chained(v, order) && Chained(w, order') && forall k :: k in order' ==> k in order
    requires SameVals(v, w, order')
    ensures Content(w) == Content(v) - set k | k in order && k !in order'
  {
    forall k: nat ensures k in Content(w) <==> k in order' {
      assert k in Content(w) <==> IsLive(w, k);
    }
    forall k: nat ensures k in Content(v) <==> k in order {
      assert k in Content(v) <==> IsLive(v, k);
    }
  }

  lemma ContentInserted<T>(v: Slots<T>, w: Slots<T>, order: seq<nat>, order': seq<nat>, h: nat, x: T)
    requires Chained(v, order) && Chained(w, order') && forall k :: k in order' <==> k in order || k == h
    requires SameVals(v, w, order) && h !in order && IsLive(w, h) && w[h].value.val == x
    ensures Content(w) == Content(v)[h := x]
  {
    forall k: nat ensures k in Content(w) <==> k in order' {
      assert k in Content(w) <==> IsLive(w, k);
    }
    forall k: nat ensures k in Content(v) <==> k in order {
      assert k in Content(v) <==> IsLive(v, k);
    }
  }

  lemma ContentOf<T>(v: Slots<T>, order: seq<nat>)
    requires Chained(v, order)
    ensures Content(v).Keys == Elements(order)
    ensures Distinct(order)
  {
    forall k: nat ensures k in Content(v) <==> k in order {
      assert k in Content(v) <==> IsLive(v, k);
    }
  }

  ghost function Handles(h: Option<nat>): set<nat> {
    if h.Some? then {h.value} else {}
  }

  /** `w` differs from `v` in the node `h` and in the links its two neighbours in the
      chain `order`, at positions i - 1 and j, have towards each other. */
  ghost predicate Respliced<T>(v: Slots<T>, w: Slots<T>, order: seq<nat>, i: nat, j: nat, h: nat,
                               next: Option<nat>, prev: Option<nat>)
  {
    && i <= j <= |order|
    && Agree(v, w, {h} + Handles(Ith(order, i - 1)) + Handles(Ith(order, j)))
    && (i > 0 ==> Relinked(v, w, order[i - 1], next, Ith(order, i - 2)))
    && (j < |order| ==> Relinked(v, w, order[j], Ith(order, j + 1), prev))
  }

  /** `g` is the block `v` in which the allocator has constructed the node `h`; `w` is the
      block after the links around position `i` have been written. */
  lemma SplicedIn<T>(v: Slots<T>, g: Slots<T>, w: Slots<T>, order: seq<nat>, i: nat, h: nat)
    requires i <= |order| && h !in order && Agree(v, g, {h})
    requires Agree(g, w, {h} + Handles(Ith(order, i - 1)) + Handles(Ith(order, i)))
    requires i > 0 ==> Relinked(g, w, order[i - 1], Some(h), Ith(order, i - 2))
    requires i < |order| ==> Relinked(g, w, order[i], Ith(order, i + 1), Some(h))
    ensures Respliced(v, w, order, i, i, h, Some(h), Some(h))
  {
  }

  lemma AgreeAt<T>(v: Slots<T>, g: Slots<T>, h: nat, order: seq<nat>, i: int)
    requires Agree(v, g, {h}) && h !in order
    requires 0 <= i < |order| ==> IsLive(v, order[i])
    ensures 0 <= i < |order| ==> IsLive(g, order[i]) && g[order[i]] == v[order[i]]
  {
  }

  lemma ChainedNode<T>(v: Slots<T>, order: seq<nat>, i: int)
    requires Chained(v, order)
    ensures 0 <= i < |order| ==> ChainedAt(v, order, i)
    ensures Distinct(order)
  {
  }

  lemma InsertLive<T>(v: Slots<T>, w: Slots<T>, order: seq<nat>, i: nat, h: nat)
    requires Chained(v, order) && !IsLive(v, h) && IsLive(w, h)
    requires Respliced(v, w, order, i, i, h, Some(h), Some(h))
    ensures Distinct(Inserted(order, i, h))
    ensures forall k: nat :: IsLive(w, k) <==> k in Inserted(order, i, h)
  {
    var o := Inserted(order, i, h);
    assert h !in order;
    forall k: nat ensures IsLive(w, k) <==> k in o {
      if k != h { assert k in o <==> k in order; }
    }
  }

  lemma InsertAt<T>(v: Slots<T>, w: Slots<T>, order: seq<nat>, i: nat, h: nat, j: nat)
    requires Chained(v, order) && !IsLive(v, h) && j <= |order|
    requires IsLive(w, h) && w[h].value.prev == Ith(order, i - 1) && w[h].value.next == Ith(order, i)
    requires Respliced(v, w, order, i, i, h, Some(h), Some(h))
    ensures ChainedAt(w, Inserted(order, i, h), j)
  {
    var k := if j < i then j else j - 1;
    ChainedNode(v, order, k);
    ChainedNode(v, order, i);
    ChainedNode(v, order, i - 1);
    if j != i && k != i && k != i - 1 {
      assert order[k] != h && order[k] !in Handles(Ith(order, i)) && order[k] !in Handles(Ith(order, i - 1));
    }
    hide Chained;
  }

  /** Splicing a fresh node in at position `i` of the chain. */
  lemma InsertChained<T>(v: Slots<T>, w: Slots<T>, order: seq<nat>, i: nat, h: nat)
    requires Chained(v, order) && !IsLive(v, h)
    requires IsLive(w, h) && w[h].value.prev == Ith(order, i - 1) && w[h].value.next == Ith(order, i)
    requires Respliced(v, w, order, i, i, h, Some(h), Some(h))
    ensures Chained(w, Inserted(order, i, h)) && SameVals(v, w, order)
  {
    var o := Inserted(order, i, h);
    InsertLive(v, w, order, i, h);
    hide ChainedAt;
    forall j | 0 <= j < |o| ensures ChainedAt(w, o, j) {
      InsertAt(v, w, order, i, h, j);
    }
  }

  lemma EraseLive<T>(v: Slots<T>, w: Slots<T>, order: seq<nat>, i: nat)
    requires Chained(v, order) && i < |order| && !IsLive(w, order[i])
    requires Respliced(v, w, order, i, i + 1, order[i], Ith(order, i + 1), Ith(order, i - 1))
    ensures Distinct(Without(order, i))
    ensures forall k: nat :: IsLive(w, k) <==> k in Without(order, i)
  {
    var o := Without(order, i);
    forall k: nat ensures IsLive(w, k) <==> k in o {
      if k != order[i] { assert k in o <==> k in order; }
    }
  }

  lemma EraseAt<T>(v: Slots<T>, w: Slots<T>, order: seq<nat>, i: nat, j: nat)
    requires Chained(v, order) && i < |order| && !IsLive(w, order[i]) && j < |order| - 1
    requires Respliced(v, w, order, i, i + 1, order[i], Ith(order, i + 1), Ith(order, i - 1))
    ensures ChainedAt(w, Without(order, i), j)
  {
    var k := if j < i then j else j + 1;
    ChainedNode(v, order, k);
    ChainedNode(v, order, i + 1);
    ChainedNode(v, order, i - 1);
    if k != i + 1 && k != i - 1 {
      assert order[k] != order[i] && order[k] !in Handles(Ith(order, i + 1)) && order[k] !in Handles(Ith(order, i - 1));
    }
    hide Chained;
  }

  /** Unlinking the node at position `i` of the chain. */
  lemma EraseChained<T>(v: Slots<T>, w: Slots<T>, order: seq<nat>, i: nat)
    requires Chained(v, order) && i < |order| && !IsLive(w, order[i])
    requires Respliced(v, w, order, i, i + 1, order[i], Ith(order, i + 1), Ith(order, i - 1))
    ensures Chained(w, Without(order, i)) && SameVals(v, w, Without(order, i))
  {
    var o := Without(order, i);
    EraseLive(v, w, order, i);
    hide ChainedAt;
    forall j | 0 <= j < |o| ensures ChainedAt(w, o, j) {
      EraseAt(v, w, order, i, j);
    }
  }

  /** The link writes of `emplace_before`, once the node `h` has been constructed. */
  function SpliceBefore<T>(v: Slots<T>, h: nat, at: nat): (w: Slots<T>)
    requires h != at && IsLive(v, h) && IsLive(v, at)
    requires v[at].value.prev.Some? ==> IsLive(v, v[at].value.prev.value)
    ensures |w| == |v| && Live(w) == Live(v)
  {
    var prev := v[at].value.prev;
    var v1 := SetPrev(v, Some(h), prev);
    var v2 := SetNext(v1, prev, Some(h));
    var v3 := SetNext(v2, Some(h), Some(at));
    SetPrev(v3, Some(at), Some(h))
  }

  /** The link writes of `emplace_after`, once the node `h` has been constructed. */
  function SpliceAfter<T>(v: Slots<T>, h: nat, at: nat): (w: Slots<T>)
    requires h != at && IsLive(v, h) && IsLive(v, at)
    requires v[at].value.next.Some? ==> IsLive(v, v[at].value.next.value)
    ensures |w| == |v| && Live(w) == Live(v)
  {
    var next := v[at].value.next;
    var v1 := SetNext(v, Some(h), next);
    var v2 := SetPrev(v1, next, Some(h));
    var v3 := SetPrev(v2, Some(h), Some(at));
    SetNext(v3, Some(at), Some(h))
  }

  /** The link writes of `erase`; the node itself is destructed afterwards. */
  function Unlink<T>(v: Slots<T>, h: nat): (w: Slots<T>)
    requires IsLive(v, h)
    requires v[h].value.prev.Some? ==> IsLive(v, v[h].value.prev.value)
    requires v[h].value.next.Some? ==> IsLive(v, v[h].value.next.value)
    ensures |w| == |v| && Live(w) == Live(v)
  {
    var v1 := SetNext(v, v[h].value.prev, v[h].value.next);
    SetPrev(v1, v[h].value.next, v[h].value.prev)
  }

  /** The block right after the allocator has constructed the node `h`. */
  function WithNode<T>(v: Slots<T>, h: nat, x: T): (g: Slots<T>)
    requires h < |Grown(v)|
    ensures IsLive(g, h) && g[h].value == Node(x, None, None)
    ensures Agree(v, g, {h})
  {
    Grown(v)[h := Some(Node(x, None, None))]
  }

  /** What the four link writes change: the new node, the node `at`, and the node that
      used to precede it. */
  lemma SpliceBeforeWrites<T>(v: Slots<T>, h: nat, at: nat)
    requires h != at && IsLive(v, h) && IsLive(v, at)
    requires var p := v[at].value.prev; p.Some? ==> IsLive(v, p.value) && p.value != at && p.value != h
    ensures var w, p := SpliceBefore(v, h, at), v[at].value.prev;
            && Agree(v, w, {h} + Handles(p) + Handles(Some(at)))
            && Relinked(v, w, h, Some(at), p)
            && Relinked(v, w, at, v[at].value.next, Some(h))
            && (p.Some? ==> Relinked(v, w, p.value, Some(h), v[p.value].value.prev))
  {
    hide Live;
  }

  lemma SpliceAfterWrites<T>(v: Slots<T>, h: nat, at: nat)
    requires h != at && IsLive(v, h) && IsLive(v, at)
    requires var n := v[at].value.next; n.Some? ==> IsLive(v, n.value) && n.value != at && n.value != h
    ensures var w, n := SpliceAfter(v, h, at), v[at].value.next;
            && Agree(v, w, {h} + Handles(Some(at)) + Handles(n))
            && Relinked(v, w, h, n, Some(at))
            && Relinked(v, w, at, Some(h), v[at].value.prev)
            && (n.Some? ==> Relinked(v, w, n.value, v[n.value].value.next, Some(h)))
  {
    hide Live;
  }

  lemma UnlinkWrites<T>(v: Slots<T>, h: nat)
    requires IsLive(v, h)
    requires var p := v[h].value.prev; p.Some? ==> IsLive(v, p.value) && p.value != h
    requires var n := v[h].value.next; n.Some? ==> IsLive(v, n.value) && n.value != h && v[h].value.prev != n
    ensures var w, n, p := Unlink(v, h)[h := None], v[h].value.next, v[h].value.prev;
            && Agree(v, w, {h} + Handles(p) + Handles(n)) && !IsLive(w, h)
            && (p.Some? ==> Relinked(v, w, p.value, n, v[p.value].value.prev))
            && (n.Some? ==> Relinked(v, w, n.value, v[n.value].value.next, p))
  {
    hide Live;
  }

  lemma SpliceBeforeInserts<T>(v: Slots<T>, order: seq<nat>, i: nat, h: nat, x: T)
    requires Chained(v, order) && i < |order| && !IsLive(v, h) && h < |Grown(v)|
    ensures h !in order && |Inserted(order, i, h)| == |order| + 1
    ensures var g, at := WithNode(v, h, x), order[i];
            && at != h && IsLive(g, at)
            && (g[at].value.prev.Some? ==> IsLive(g, g[at].value.prev.value))
            && var w := SpliceBefore(g, h, at);
               Chained(w, Inserted(order, i, h)) && Content(w) == Content(v)[h := x]
    ensures Ith(Inserted(order, i, h), 0) == if Ith(order, 0) == Some(order[i]) then Some(h) else Ith(order, 0)
    ensures Ith(Inserted(order, i, h), |order|) == Ith(order, |order| - 1)
  {
    var g := WithNode(v, h, x);
    ChainedNode(v, order, i);
    ChainedNode(v, order, i - 1);
    assert h !in order;
    hide Chained, WithNode, SpliceBefore, Grown, Live, Inserted, Agree, Respliced;
    AgreeAt(v, g, h, order, i - 1);
    AgreeAt(v, g, h, order, i);
    SpliceBeforeWrites(g, h, order[i]);
    var w := SpliceBefore(g, h, order[i]);
    SplicedIn(v, g, w, order, i, h);
    InsertChained(v, w, order, i, h);
    InsertedMembers(order, i, h);
    ContentInserted(v, w, order, Inserted(order, i, h), h, x);
  }

  lemma InsertedMembers(order: seq<nat>, i: nat, h: nat)
    requires i <= |order|
    ensures forall k :: k in Inserted(order, i, h) <==> k in order || k == h
    ensures |Inserted(order, i, h)| == |order| + 1
    ensures Distinct(order) && i < |order| ==>
      && Ith(Inserted(order, i, h), 0) == (if Ith(order, 0) == Some(order[i]) then Some(h) else Ith(order, 0))
      && Ith(Inserted(order, i, h), |order|) == Ith(order, |order| - 1)
    ensures Distinct(order) && i > 0 ==>
      && Ith(Inserted(order, i, h), 0) == Ith(order, 0)
      && Ith(Inserted(order, i, h), |order|) ==
         if Ith(order, |order| - 1) == Some(order[i - 1]) then Some(h) else Ith(order, |order| - 1)
  {
    assert order == order[..i] + order[i..];
  }

  lemma SpliceAfterInserts<T>(v: Slots<T>, order: seq<nat>, i: nat, h: nat, x: T)
    requires Chained(v, order) && i < |order| && !IsLive(v, h) && h < |Grown(v)|
    ensures h !in order && |Inserted(order, i + 1, h)| == |order| + 1
    ensures var g, at := WithNode(v, h, x), order[i];
            && at != h && IsLive(g, at)
            && (g[at].value.next.Some? ==> IsLive(g, g[at].value.next.value))
            && var w := SpliceAfter(g, h, at);
               Chained(w, Inserted(order, i + 1, h)) && Content(w) == Content(v)[h := x]
    ensures Ith(Inserted(order, i + 1, h), 0) == Ith(order, 0)
    ensures Ith(Inserted(order, i + 1, h), |order|) ==
            if Ith(order, |order| - 1) == Some(order[i]) then Some(h) else Ith(order, |order| - 1)
  {
    var g := WithNode(v, h, x);
    ChainedNode(v, order, i);
    ChainedNode(v, order, i + 1);
    assert h !in order;
    hide Chained, WithNode, SpliceAfter, Grown, Live, Inserted, Agree, Respliced;
    AgreeAt(v, g, h, order, i + 1);
    AgreeAt(v, g, h, order, i);
    SpliceAfterWrites(g, h, order[i]);
    var w := SpliceAfter(g, h, order[i]);
    SplicedIn(v, g, w, order, i + 1, h);
    InsertChained(v, w, order, i + 1, h);
    InsertedMembers(order, i + 1, h);
    ContentInserted(v, w, order, Inserted(order, i + 1, h), h, x);
  }

  lemma UnlinkErases<T>(v: Slots<T>, order: seq<nat>, i: nat)
    requires Chained(v, order) && i < |order|
    ensures Distinct(order)
    ensures var h := order[i];
            && IsLive(v, h) && v[h].value.next == Ith(order, i + 1) && v[h].value.prev == Ith(order, i - 1)
            && (v[h].value.prev.Some? ==> IsLive(v, v[h].value.prev.value))
            && (v[h].value.next.Some? ==> IsLive(v, v[h].value.next.value))
            && IsLive(Unlink(v, h), h)
            && var w := Unlink(v, h)[h := None];
               Chained(w, Without(order, i)) && Content(w) == Content(v) - {h}
  {
    ChainedNode(v, order, i);
    ChainedNode(v, order, i - 1);
    ChainedNode(v, order, i + 1);
    assert IsLive(Unlink(v, order[i]), order[i]);
    hide Chained, Unlink, Live, Without;
    UnlinkWrites(v, order[i]);
    var w := Unlink(v, order[i])[order[i] := None];
    EraseChained(v, w, order, i);
    WithoutMembers(order, i);
    ContentAfter(v, w, order, Without(order, i));
  }

  lemma WithoutMembers(order: seq<nat>, i: nat)
    requires Distinct(order) && i < |order|
    ensures forall k :: k in Without(order, i) <==> k in order && k != order[i]
    ensures (set k | k in order && k !in Without(order, i)) == {order[i]}
  {
    assert order == order[..i] + [order[i]] + order[i + 1..];
  }

  lemma EndsWithout(order: seq<nat>, i: nat)
    requires Distinct(order) && i < |order|
    ensures var o, h := Without(order, i), Some(order[i]);
            && |o| == |order| - 1
            && Ith(o, 0) == (if Ith(order, 0) == h then Ith(order, i + 1) else Ith(order, 0))
            && Ith(o, |o| - 1) == (if Ith(order, |order| - 1) == h then Ith(order, i - 1) else Ith(order, |order| - 1))
  {
  }

  class List<T(!new)> {
    const alloc: Allocator<Node<T>>
    var front: Option<nat>
    var back: Option<nat>
    var count: nat
    ghost var order: seq<nat>

    ghost predicate Valid()
      reads this, alloc
    {
      && alloc.Valid()
      && Chained(alloc.v, order)
      && front == Ith(order, 0)
      && back == Ith(order, |order| - 1)
      && count == |order|
    }

    /** The value stored at the handle `h`. */
    method Get(h: nat) returns (x: T)
      requires Valid() && h in Content(alloc.v)
      ensures x == Content(alloc.v)[h]
    {
      hide Chained, Live;
      x := alloc.v[h].value.val;
    }

    constructor ()
      ensures Valid() && order == [] && fresh(alloc)
    {
      alloc := new Allocator();
      front, back, count, order := None, None, 0, [];
    }

    method EmplaceIntoEmpty(x: T) returns (h: nat)
      requires Valid() && front.None?
      modifies this, alloc
      ensures Valid() && order == [h] && Content(alloc.v) == Content(old(alloc.v))[h := x]
    {
      ghost var v := alloc.v;
      EmptyOrder(order, count);
      hide Chained, Live, Content, Ith;
      h := alloc.Construct(Node(x, None, None));
      InsertIntoEmpty(v, h, x);
      front, back := Some(h), Some(h);
      count, order := count + 1, [h];
    }

    /** The handle of the new node was not in the list; it lands just before `at`. */
    method EmplaceBefore(ghost i: nat, at: nat, x: T) returns (h: nat)
      requires Valid() && i < |order| && order[i] == at
      modifies this, alloc
      ensures Valid() && h !in old(order) && order == Inserted(old(order), i, h)
      ensures order == old(order)[..i] + [h] + old(order)[i..]
      ensures Content(alloc.v) == Content(old(alloc.v))[h := x]
    {
      hide Chained, Live, Content, Ith, Inserted, SpliceBefore;
      ghost var v := alloc.v;
      h := alloc.Construct(Node(x, None, None));
      SpliceBeforeInserts(v, order, i, h, x);
      SplicesAre(order, i, h);
      alloc.v := SpliceBefore(alloc.v, h, at);
      front := if front == Some(at) then Some(h) else front;
      count, order := count + 1, Inserted(order, i, h);
    }

    method EmplaceAfter(ghost i: nat, at: nat, x: T) returns (h: nat)
      requires Valid() && i < |order| && order[i] == at
      modifies this, alloc
      ensures Valid() && h !in old(order) && order == Inserted(old(order), i + 1, h)
      ensures order == old(order)[..i + 1] + [h] + old(order)[i + 1..]
      ensures Content(alloc.v) == Content(old(alloc.v))[h := x]
    {
      hide Chained, Live, Content, Ith, Inserted, SpliceAfter;
      ghost var v := alloc.v;
      h := alloc.Construct(Node(x, None, None));
      SpliceAfterInserts(v, order, i, h, x);
      SplicesAre(order, i + 1, h);
      alloc.v := SpliceAfter(alloc.v, h, at);
      back := if back == Some(at) then Some(h) else back;
      count, order := count + 1, Inserted(order, i + 1, h);
    }

    method EmplaceFront(x: T) returns (h: nat)
      requires Valid()
      modifies this, alloc
      ensures Valid() && h !in old(order) && order == [h] + old(order)
      ensures Content(alloc.v) == Content(old(alloc.v))[h := x]
    {
      hide Chained, Live, Content;
      if front.None? {
        h := EmplaceIntoEmpty(x);
      } else {
        h := EmplaceBefore(0, front.value, x);
      }
    }

    method EmplaceBack(x: T) returns (h: nat)
      requires Valid()
      modifies this, alloc
      ensures Valid() && h !in old(order) && order == old(order) + [h]
      ensures Content(alloc.v) == Content(old(alloc.v))[h := x]
    {
      hide Chained, Live, Content;
      if front.None? {
        h := EmplaceIntoEmpty(x);
      } else {
        h := EmplaceAfter(|order| - 1, back.value, x);
        assert Inserted(old(order), |old(order)|, h) == old(order) + [h];
      }
    }

    /** One step of an iterator. */
    method Next(ghost i: nat, h: nat) returns (r: Option<nat>)
      requires Valid() && i < |order| && order[i] == h
      ensures r == Ith(order, i + 1)
    {
      hide Chained, Live;
      NodeLinks(alloc.v, order, i);
      r := alloc.v[h].value.next;
    }

    /** `next`, or the front when there is none. */
    method NextInCycle(ghost i: nat, h: nat) returns (r: nat)
      requires Valid() && i < |order| && order[i] == h
      ensures r == order[CyclicNext(i, |order|)]
    {
      hide Chained, Live;
      NodeLinks(alloc.v, order, i);
      var next := alloc.v[h].value.next;
      r := if next.Some? then next.value else front.value;
    }

    /** `prev`, or the back when there is none. */
    method PrevInCycle(ghost i: nat, h: nat) returns (r: nat)
      requires Valid() && i < |order| && order[i] == h
      ensures r == order[CyclicPrev(i, |order|)]
    {
      hide Chained, Live;
      NodeLinks(alloc.v, order, i);
      var prev := alloc.v[h].value.prev;
      r := if prev.Some? then prev.value else back.value;
    }

    /** Erasing returns the links that the accessor caches (`on_erase`), so that a loop
        standing on the erased node can still step off it. */
    method Erase(ghost i: nat, h: nat) returns (next: Option<nat>, prev: Option<nat>)
      requires Valid() && i < |order| && order[i] == h
      modifies this, alloc
      ensures Valid() && order == Without(old(order), i)
      ensures order == old(order)[..i] + old(order)[i + 1..]
      ensures Content(alloc.v) == Content(old(alloc.v)) - {h}
      ensures next == Ith(old(order), i + 1) && prev == Ith(old(order), i - 1)
    {
      hide Chained, Live, Unlink, Content, Without, Ith, Distinct;
      UnlinkErases(alloc.v, order, i);
      EndsWithout(order, i);
      SplicesAre(order, i, h);
      next, prev := alloc.v[h].value.next, alloc.v[h].value.prev;
      alloc.v := Unlink(alloc.v, h);
      alloc.Destruct(h);
      front := if front == Some(h) then next else front;
      back := if back == Some(h) then prev else back;
      count, order := count - 1, Without(order, i);
    }

    /** One turn of a range-for body: erase the current element or not, then step. */
    method EraseAndStep(ghost i: nat, h: nat, drop: bool) returns (next: Option<nat>)
      requires Valid() && i < |order| && order[i] == h
      modifies this, alloc
      ensures Valid() && order == (if drop then Without(old(order), i) else old(order))
      ensures Content(alloc.v) == Content(old(alloc.v)) - if drop then {h} else {}
      ensures next == Ith(old(order), i + 1)
    {
      hide Chained, Live, Content;
      if drop {
        // the accessor caches the links of the node before it goes
        var cached, _ := Erase(i, h);
        next := cached;
      } else {
        NodeLinks(alloc.v, order, i);
        next := alloc.v[h].value.next;
      }
    }

    lemma Start(drop: set<nat>)
      requires Valid()
      ensures Turn(order, drop, [], order, front)
      ensures Content(alloc.v).Keys == Elements(order)
      ensures Distinct(order)
    {
      TurnStart(order, drop);
      ContentOf(alloc.v, order);
    }

    lemma ContentKeys()
      requires Valid()
      ensures Content(alloc.v).Keys == Elements(order)
      ensures Distinct(order) && count == |order|
    {
      ContentOf(alloc.v, order);
    }

    /** `for(auto& e : list)` whose body calls `e.erase()` whenever the position is in `drop`: every element that was in
      * the list is presented exactly once, in list order, and exactly the dropped ones are gone afterwards. */
    method ForEachErase(drop: set<nat>) returns (presented: seq<nat>)
      requires Valid()
      modifies this, alloc
      ensures Valid()
      ensures presented == old(order)
      ensures order == Kept(old(order), drop)
      ensures Content(alloc.v) == Content(old(alloc.v)) - DroppedOf(old(order), drop)
    {
      hide *;
      Start(drop);
      GoneStep([], drop, 0);
      MinusTwice(Content(alloc.v), {}, {});
      var it := front;
      presented := [];
      while it.Some?
        invariant Valid()
        invariant Turn(old(order), drop, presented, order, it)
        invariant Content(alloc.v) == Content(old(alloc.v)) - Gone(presented, drop)
        decreases |order| - |Kept(presented, drop)|
      {
        var h := it.value;
        TurnNext(old(order), drop, presented, order, it);
        GoneStep(presented, drop, h);
        MinusTwice(Content(old(alloc.v)), Gone(presented, drop), if |presented| in drop then {h} else {});
        it := EraseAndStep(|Kept(presented, drop)|, h, |presented| in drop);
        presented := presented + [h];
      }
      TurnEnd(old(order), drop, presented, order);
      GoneIs(old(order), drop);
    }

    method Clear()
      requires Valid()
      modifies this, alloc
      ensures Valid() && order == []
    {
      hide Chained, Live, Content, Kept;
      ghost var o := order;
      var _ := ForEachErase(UpTo(count));
      KeptNone(o, UpTo(|o|));
      front, back := None, None;
    }
  }

  lemma EmptyOrder(order: seq<nat>, count: nat)
    requires Ith(order, 0).None? && count == |order|
    ensures order == [] && count == 0
  {
  }

  lemma InsertIntoEmpty<T>(v: Slots<T>, h: nat, x: T)
    requires Chained(v, []) && !IsLive(v, h) && h < |Grown(v)|
    ensures var w := WithNode(v, h, x);
            Chained(w, [h]) && Content(w) == Content(v)[h := x]
    ensures Ith([h], 0) == Some(h)
  {
    var w := WithNode(v, h, x);
    InsertChained(v, w, [], 0, h);
    assert Inserted([], 0, h) == [h];
    hide Chained;
    ContentInserted(v, w, [], [h], h, x);
  }

  lemma NodeLinks<T>(v: Slots<T>, order: seq<nat>, i: nat)
    requires Chained(v, order) && i < |order|
    ensures IsLive(v, order[i])
    ensures v[order[i]].value.next == Ith(order, i + 1) && v[order[i]].value.prev == Ith(order, i - 1)
  {
    assert ChainedAt(v, order, i);
  }

  /** The handles at the dropped positions of `order`. */
  ghost function DroppedOf(order: seq<nat>, drop: set<nat>): set<nat> {
    set i | 0 <= i < |order| && i in drop :: order[i]
  }

  // The same, collected in order.
  ghost function Gone(order: seq<nat>, drop: set<nat>): set<nat> {
    if order == [] then {}
    else
      var n := |order| - 1;
      Gone(order[..n], drop) + if n in drop then {order[n]} else {}
  }

  lemma GoneStep(order: seq<nat>, drop: set<nat>, h: nat)
    ensures Gone([], drop) == {}
    ensures Gone(order + [h], drop) == Gone(order, drop) + if |order| in drop then {h} else {}
  {
    assert (order + [h])[..|order|] == order;
  }

  lemma MinusTwice<X, Y>(m: map<X, Y>, a: set<X>, b: set<X>)
    ensures m - a - b == m - (a + b)
    ensures m - {} == m
  {
  }

  lemma {:induction false} GoneIs(order: seq<nat>, drop: set<nat>)
    ensures Gone(order, drop) == DroppedOf(order, drop)
  {
    if order != [] {
      var n := |order| - 1;
      GoneIs(order[..n], drop);
      assert forall i :: 0 <= i < n ==> order[..n][i] == order[i];
      forall i | 0 <= i < n && i in drop ensures order[i] in DroppedOf(order[..n], drop) {
        assert order[..n][i] == order[i];
      }
    }
  }

  function UpTo(n: nat): (s: set<nat>)
    ensures forall i: nat :: i in s <==> i < n
  {
    if n == 0 then {} else UpTo(n - 1) + {n - 1}
  }

  function Kept(order: seq<nat>, drop: set<nat>): (kept: seq<nat>) {
    if order == [] then []
    else
      var n := |order| - 1;
      Kept(order[..n], drop) + if n in drop then [] else [order[n]]
  }

  /** The loop of `ForEachErase` has presented a prefix of the original order `o`: the
      list holds what was kept of it, then the rest, and the cursor is on the rest. */
  ghost predicate Turn(o: seq<nat>, drop: set<nat>, presented: seq<nat>, order: seq<nat>, it: Option<nat>) {
    && presented <= o
    && it == Ith(o, |presented|)
    && order == Kept(presented, drop) + o[|presented|..]
  }

  lemma TurnStart(o: seq<nat>, drop: set<nat>)
    ensures Turn(o, drop, [], o, Ith(o, 0))
  {
  }

  lemma TurnNext(o: seq<nat>, drop: set<nat>, presented: seq<nat>, order: seq<nat>, it: Option<nat>)
    requires Turn(o, drop, presented, order, it) && it.Some?
    ensures var at := |Kept(presented, drop)|;
            && at < |order| && order[at] == it.value
            && var dropped := |presented| in drop;
               var presented', order' := presented + [it.value], if dropped then Without(order, at) else order;
               && Turn(o, drop, presented', order', Ith(order, at + 1))
               && |order'| - |Kept(presented', drop)| < |order| - at
               && forall k :: k in order' ==> k in order
  {
    hide Kept, Without, Ith;
    IthIs(o, |presented|);
    var h, i := it.value, |presented|;
    KeptSnoc(presented, drop, h);
    PrefixSnoc(presented, o);
    SplitAround(Kept(presented, drop), h, o[i + 1..]);
  }

  lemma IthIs(o: seq<nat>, i: nat)
    ensures Ith(o, i).Some? <==> i < |o|
    ensures i < |o| ==> Ith(o, i) == Some(o[i]) && Ith(o[i + 1..], 0) == Ith(o, i + 1)
  {
  }

  lemma PrefixSnoc(s: seq<nat>, o: seq<nat>)
    requires s <= o && |s| < |o|
    ensures s + [o[|s|]] <= o && o[|s|..] == [o[|s|]] + o[|s| + 1..]
  {
  }

  lemma KeptSnoc(presented: seq<nat>, drop: set<nat>, h: nat)
    ensures Kept(presented + [h], drop) == Kept(presented, drop) + if |presented| in drop then [] else [h]
  {
    assert (presented + [h])[..|presented|] == presented;
  }

  lemma SplitAround(kept: seq<nat>, h: nat, rest: seq<nat>)
    ensures var order := kept + ([h] + rest);
            && order[|kept|] == h && order == (kept + [h]) + rest
            && Without(order, |kept|) == kept + rest
            && Ith(order, |kept| + 1) == Ith(rest, 0)
            && forall k :: k in kept + rest ==> k in order
  {
  }

  lemma TurnEnd(o: seq<nat>, drop: set<nat>, presented: seq<nat>, order: seq<nat>)
    requires Turn(o, drop, presented, order, None)
    ensures presented == o && order == Kept(o, drop)
  {
  }

  lemma {:induction false} KeptNone(order: seq<nat>, drop: set<nat>)
    requires forall i :: 0 <= i < |order| ==> i in drop
    ensures Kept(order, drop) == []
  {
    if order != [] {
      KeptNone(order[..|order| - 1], drop);
    }
  }

  /** An element of the list survives the loop exactly when its position is not dropped. */
  lemma {:induction false} KeptMembers(order: seq<nat>, drop: set<nat>, i: nat)
    requires Distinct(order) && i < |order|
    ensures order[i] in Kept(order, drop) <==> i !in drop
    ensures forall h :: h in Kept(order, drop) ==> h in order
  {
    var n := |order| - 1;
    if i < n {
      KeptMembers(order[..n], drop, i);
    } else if n > 0 {
      KeptMembers(order[..n], drop, 0);
    }
  }
}
