/** The chunked array of chunked-array.hpp: block `k` has 2^k slots, so that elements never move when the array grows.
  * Bit expressions on handles are written as arithmetic: `1 << a` is `Pow2(a)`, turning the highest bit off subtracts
  * it, and setting it adds it. */
module ChunkedArray {
  import opened Prelude
  import opened NumberTheory
  import opened ArrayAllocator

  // ---------------------------------------------------------------------------------------------------------------
  // Handles
  // ---------------------------------------------------------------------------------------------------------------

  /** The position of the highest set bit. */
  function BitScanReverse(n: nat): (k: nat)
    requires n > 0
    ensures Pow2(k) <= n < 2 * Pow2(k)
  {
    if n == 1 then 0 else BitScanReverse(n / 2) + 1
  }

  predicate IsPowerOf2(n: nat)
    requires n > 0
  {
    n == Pow2(BitScanReverse(n))
  }

  lemma {:induction false} Pow2Grows(a: nat, b: nat)
    requires a < b
    ensures 2 * Pow2(a) <= Pow2(b)
  {
    if a + 1 < b { Pow2Grows(a, b - 1); }
  }

  lemma TopBitUnique(n: nat, k: nat)
    requires n > 0 && Pow2(k) <= n < 2 * Pow2(k)
    ensures BitScanReverse(n) == k
  {
    var j := BitScanReverse(n);
    if j < k { Pow2Grows(j, k); } else if k < j { Pow2Grows(k, j); }
  }

  /** A chunk and an offset in it. */
  datatype Handle = Handle(a: nat, b: nat)

  predicate Proper(h: Handle) {
    h.b < Pow2(h.a)
  }

  function FromIndex(i: nat): Handle {
    var small := i + 1;
    var a := BitScanReverse(small);
    Handle(a, small - Pow2(a))
  }

  function ToIndex(h: Handle): nat {
    Pow2(h.a) + h.b - 1
  }

  function Increment(h: Handle): Handle {
    if h.b + 1 == Pow2(h.a) then Handle(h.a + 1, 0) else h.(b := h.b + 1)
  }

  function Decrement(h: Handle): Handle
    requires h.b == 0 ==> h.a > 0
  {
    var h' := if h.b == 0 then Handle(h.a - 1, Pow2(h.a - 1)) else h;
    h'.(b := h'.b - 1)
  }

  /** Indices and proper handles correspond one to one. */
  lemma IndexRoundTrip(i: nat, h: Handle)
    ensures Proper(FromIndex(i)) && ToIndex(FromIndex(i)) == i
    ensures Proper(h) ==> FromIndex(ToIndex(h)) == h
  {
    if Proper(h) { TopBitUnique(ToIndex(h) + 1, h.a); }
  }

  /** Stepping a handle steps its index by one, across chunk ends too. */
  lemma StepsByOne(i: nat)
    ensures Increment(FromIndex(i)) == FromIndex(i + 1)
    ensures Decrement(FromIndex(i + 1)) == FromIndex(i)
  {
    var h := FromIndex(i);
    IndexRoundTrip(i, h);
    if h.b + 1 == Pow2(h.a) { assert Pow2(h.a + 1) == 2 * Pow2(h.a); }
    IndexRoundTrip(i + 1, Increment(h));
  }

  // The bit expressions of the source agree with this arithmetic on 32-bit words. `p` is a power of two.

  ghost predicate OneBit(p: bv32) {
    p != 0 && p & (p - 1) == 0
  }

  lemma ShiftedOne(a: bv32)
    requires a < 32
    ensures OneBit((1 as bv32) << a)
  {
  }

  /** Turning the highest bit `p` off subtracts it. */
  lemma HighBitOff(p: bv32, small: bv32)
    requires OneBit(p) && p <= small && small - p < p
    ensures p ^ small == small - p
  {
  }

  /** Setting the bit `p` above `b` adds it, without overflow. */
  lemma HighBitOn(p: bv32, b: bv32)
    requires OneBit(p) && b < p
    ensures p | b == p + b && p + b >= p
  {
  }

  /** The test for a power of two. */
  lemma PowerTest(p: bv32, n: bv32)
    requires OneBit(p) && p <= n && n - p < p
    ensures n & (n - 1) == 0 <==> n == p
  {
  }

  // ---------------------------------------------------------------------------------------------------------------
  // Blocks
  // ---------------------------------------------------------------------------------------------------------------

  type Blocks<T> = seq<seq<Option<T>>>

  /** Block `k` has 2^k slots. */
  ghost predicate Doubling<T>(blocks: Blocks<T>) {
    forall k {:trigger blocks[k]} :: 0 <= k < |blocks| ==> |blocks[k]| == Pow2(k)
  }

  /** All slots, block after block. */
  ghost function Flat<T>(blocks: Blocks<T>): seq<Option<T>> {
    if blocks == [] then [] else Flat(blocks[..|blocks| - 1]) + blocks[|blocks| - 1]
  }

  lemma {:induction false} FlatLength<T>(blocks: Blocks<T>)
    requires Doubling(blocks)
    ensures |Flat(blocks)| == Pow2(|blocks|) - 1
  {
    if blocks != [] { FlatLength(blocks[..|blocks| - 1]); }
  }

  /** The slot of a handle is the slot at its index. */
  lemma {:induction false} FlatAt<T>(blocks: Blocks<T>, h: Handle)
    requires Doubling(blocks) && h.a < |blocks| && Proper(h)
    ensures ToIndex(h) < |Flat(blocks)| && Flat(blocks)[ToIndex(h)] == blocks[h.a][h.b]
  {
    var n := |blocks| - 1;
    FlatLength(blocks[..n]);
    if h.a < n {
      FlatAt(blocks[..n], h);
      FlatLength(blocks);
    }
  }

  lemma {:induction false} FlatWrite<T>(blocks: Blocks<T>, h: Handle, x: Option<T>)
    requires Doubling(blocks) && h.a < |blocks| && Proper(h)
    ensures var blocks' := blocks[h.a := blocks[h.a][h.b := x]];
            Doubling(blocks') && ToIndex(h) < |Flat(blocks)| && Flat(blocks') == Flat(blocks)[ToIndex(h) := x]
    decreases |blocks|
  {
    hide Flat, Pow2;
    var n := |blocks| - 1;
    var chunk := blocks[h.a][h.b := x];
    FlatLength(blocks[..n]);
    FlatAt(blocks, h);
    FlatLast(blocks);
    FlatLast(blocks[h.a := chunk]);
    if h.a < n {
      FlatWrite(blocks[..n], h, x);
      assert blocks[h.a := chunk][..n] == blocks[..n][h.a := chunk];
    } else {
      assert blocks[h.a := chunk][..n] == blocks[..n];
    }
  }

  lemma FlatLast<T>(blocks: Blocks<T>)
    requires blocks != []
    ensures Flat(blocks) == Flat(blocks[..|blocks| - 1]) + blocks[|blocks| - 1]
  {
  }

  lemma FlatAppend<T>(blocks: Blocks<T>, b: seq<Option<T>>)
    ensures Flat(blocks + [b]) == Flat(blocks) + b
  {
    assert (blocks + [b])[..|blocks|] == blocks;
  }

  lemma DoublingAppend<T>(blocks: Blocks<T>, b: seq<Option<T>>)
    requires Doubling(blocks) && |b| == Pow2(|blocks|)
    ensures Doubling(blocks + [b])
  {
    hide Pow2;
    forall k | 0 <= k < |blocks + [b]| ensures |(blocks + [b])[k]| == Pow2(k) {}
  }

  lemma FlatGrow<T>(blocks: Blocks<T>)
    requires Doubling(blocks)
    ensures Doubling(blocks + [Free<T>(Pow2(|blocks|))])
    ensures Flat(blocks + [Free<T>(Pow2(|blocks|))]) == Flat(blocks) + Free<T>(Pow2(|blocks|))
    ensures Live(Flat(blocks + [Free<T>(Pow2(|blocks|))])) == Live(Flat(blocks))
  {
    hide *;
    DoublingAppend(blocks, Free<T>(Pow2(|blocks|)));
    FlatAppend(blocks, Free<T>(Pow2(|blocks|)));
    LiveConcat(Flat(blocks), Free<T>(Pow2(|blocks|)));
    LiveNones<T>(Pow2(|blocks|));
  }

  lemma {:induction false} FlatCut<T>(blocks: Blocks<T>, n: nat)
    requires Doubling(blocks) && n <= |blocks|
    ensures Doubling(blocks[..n]) && |Flat(blocks[..n])| == Pow2(n) - 1 <= |Flat(blocks)|
    ensures Flat(blocks[..n]) == Flat(blocks)[..Pow2(n) - 1]
    decreases |blocks|
  {
    FlatLength(blocks);
    FlatLength(blocks[..n]);
    if n < |blocks| {
      var m := |blocks| - 1;
      FlatCut(blocks[..m], n);
      FlatLength(blocks[..m]);
      assert blocks[..m][..n] == blocks[..n];
    } else {
      assert blocks[..n] == blocks;
    }
  }

  function NumBlocks(size: nat): nat {
    if size == 0 then 0 else BitScanReverse(size) + 1
  }

  /** `size` slots are in use: there are just enough blocks for them, and the slots past them are empty. */
  ghost predicate Holds<T>(blocks: Blocks<T>, size: nat) {
    && Doubling(blocks) && |blocks| == NumBlocks(size)
    && size <= |Flat(blocks)|
    && forall i :: size <= i < |Flat(blocks)| ==> Flat(blocks)[i] == None
  }

  lemma NumBlocksStep(size: nat)
    ensures if IsPowerOf2(size + 1)
            then Pow2(NumBlocks(size)) == size + 1 && NumBlocks(size + 1) == NumBlocks(size) + 1
            else NumBlocks(size + 1) == NumBlocks(size)
    ensures FromIndex(size).a == NumBlocks(size + 1) - 1
    ensures size < Pow2(NumBlocks(size)) <= 2 * size + 1
  {
    var k := BitScanReverse(size + 1);
    if size > 0 {
      var j := BitScanReverse(size);
      assert Pow2(j + 1) == 2 * Pow2(j);
      if size + 1 < 2 * Pow2(j) {
        TopBitUnique(size + 1, j);
      } else {
        TopBitUnique(size + 1, j + 1);
      }
    }
  }

  // The blocks with room for one more slot.
  ghost function Roomy<T>(blocks: Blocks<T>, size: nat): Blocks<T> {
    if IsPowerOf2(size + 1) then blocks + [Free<T>(size + 1)] else blocks
  }

  // Slots `0..size` of `blocks` are in use and the next one is free.
  ghost predicate HasRoom<T>(blocks: Blocks<T>, size: nat) {
    && Doubling(blocks) && |blocks| == NumBlocks(size + 1) && size < |Flat(blocks)|
    && forall i :: size <= i < |Flat(blocks)| ==> Flat(blocks)[i] == None
  }

  lemma RoomGrows<T>(blocks: Blocks<T>, size: nat)
    requires Holds(blocks, size) && IsPowerOf2(size + 1)
    ensures var grown := blocks + [Free<T>(size + 1)];
            HasRoom(grown, size) && Flat(blocks) <= Flat(grown) && Live(Flat(grown)) == Live(Flat(blocks))
  {
    hide Live, Flat, Free, IsPowerOf2, NumBlocks;
    NumBlocksStep(size);
    FlatGrow(blocks);
    FlatLength(blocks);
    assert |Free<T>(size + 1)| == size + 1;
  }

  /** Where the element appended to `size` slots goes. */
  lemma RoomForOne<T>(blocks: Blocks<T>, size: nat)
    requires Holds(blocks, size)
    ensures HasRoom(Roomy(blocks, size), size)
    ensures Flat(blocks) <= Flat(Roomy(blocks, size)) && Live(Flat(Roomy(blocks, size))) == Live(Flat(blocks))
  {
    hide Live, Flat, Free, IsPowerOf2, NumBlocks;
    if IsPowerOf2(size + 1) {
      RoomGrows(blocks, size);
    } else {
      NumBlocksStep(size);
      FlatLength(blocks);
    }
  }

  lemma RoomHandle<T>(blocks: Blocks<T>, size: nat)
    requires HasRoom(blocks, size)
    ensures var h := FromIndex(size);
            |blocks| == h.a + 1 && Proper(h) && |blocks[h.a]| == Pow2(h.a) && h.b == size + 1 - |blocks[h.a]|
  {
    hide Live, Flat;
    IndexRoundTrip(size, FromIndex(size));
  }

  /** Writing the slot behind the last one in use. */
  lemma Appended<T>(blocks: Blocks<T>, size: nat, x: T)
    requires Holds(blocks, size)
    ensures var h := FromIndex(size);
            var grown := Roomy(blocks, size);
            && h.a == |grown| - 1 && h.b < |grown[h.a]| && h.b == size + 1 - |grown[h.a]|
            && var blocks' := grown[h.a := grown[h.a][h.b := Some(x)]];
            && Holds(blocks', size + 1) && Flat(blocks')[..size + 1] == Flat(blocks)[..size] + [Some(x)]
            && Live(Flat(blocks')) == Live(Flat(blocks)) + 1
  {
    hide Live, Flat, Roomy, NumBlocks, Pow2, FromIndex;
    var grown, h := Roomy(blocks, size), FromIndex(size);
    RoomForOne(blocks, size);
    RoomHandle(grown, size);
    IndexRoundTrip(size, h);
    FlatWrite(grown, h, Some(x));
    LiveUpdate(Flat(grown), size, Some(x));
    assert Flat(blocks)[..size] == Flat(grown)[..size];
  }

  /** Dropping the last slot, which is empty: its block goes with it when it was the first slot of the block. */
  lemma Dropped<T>(blocks: Blocks<T>, size: nat)
    requires Holds(blocks, size) && size > 0 && Flat(blocks)[size - 1] == None
    ensures |blocks| > 0 && |blocks[|blocks| - 1]| <= size
    ensures var idx := size - |blocks[|blocks| - 1]|;
            var blocks' := if idx == 0 then blocks[..|blocks| - 1] else blocks;
            && Holds(blocks', size - 1) && size - 1 <= |Flat(blocks')|
               && Flat(blocks')[..size - 1] == Flat(blocks)[..size - 1]
            && Live(Flat(blocks')) == Live(Flat(blocks))
            && (size > 1 ==> |blocks'| > 0 && 0 <= size - 1 - |blocks'[|blocks'| - 1]| < |blocks'[|blocks'| - 1]|
                             && size - 1 - |blocks'[|blocks'| - 1]| == (if idx == 0 then size / 2 else idx) - 1)
  {
    hide Live, Flat, BitScanReverse, FromIndex, IsPowerOf2;
    NumBlocksStep(size - 1);
    FlatLength(blocks);
    var n := |blocks| - 1;
    assert |blocks[n]| == Pow2(n);
    if size == Pow2(n) {
      FlatCut(blocks, n);
      EmptyTail(Flat(blocks), Pow2(n) - 1);
      if size > 1 { assert Pow2(n) == 2 * Pow2(n - 1); }
    }
  }

  lemma {:induction false} EmptyTail<T>(v: seq<Option<T>>, n: nat)
    requires n <= |v| && forall i :: n <= i < |v| ==> v[i] == None
    ensures Live(v) == Live(v[..n])
    decreases |v|
  {
    if n < |v| {
      var m := |v| - 1;
      EmptyTail(v[..m], n);
      assert v[..m][..n] == v[..n];
    } else {
      assert v[..n] == v;
    }
  }

  // ---------------------------------------------------------------------------------------------------------------
  // Resizing
  // ---------------------------------------------------------------------------------------------------------------

  /** `items` cut to `n`, or filled up to `n` with copies of `x`. */
  function Resized<T>(items: seq<Option<T>>, n: nat, x: T): (r: seq<Option<T>>)
    ensures |r| == n && forall i :: 0 <= i < n ==> r[i] == if i < |items| then items[i] else Some(x)
  {
    if n <= |items| then items[..n] else items + seq(n - |items|, _ => Some(x))
  }

  // `flat'` is `flat` with the slots from `n` up to `i` emptied.
  ghost predicate Emptied<T>(flat: seq<Option<T>>, flat': seq<Option<T>>, n: nat, i: nat) {
    && |flat'| == |flat|
    && forall j :: 0 <= j < |flat| ==> flat'[j] == if n <= j < i then None else flat[j]
  }

  lemma EmptyOne<T>(blocks: Blocks<T>, flat: seq<Option<T>>, n: nat, i: nat)
    requires Doubling(blocks) && n <= i && i < |flat| && Emptied(flat, Flat(blocks), n, i)
    ensures var h := FromIndex(i);
            && h.a < |blocks| && h.b < |blocks[h.a]| && blocks[h.a][h.b] == Flat(blocks)[i]
            && var blocks' := if blocks[h.a][h.b].Some? then blocks[h.a := blocks[h.a][h.b := None]] else blocks;
            && Doubling(blocks') && |blocks'| == |blocks| && Emptied(flat, Flat(blocks'), n, i + 1)
            && Live(Flat(blocks')) == Live(Flat(blocks)) - if blocks[h.a][h.b].Some? then 1 else 0
  {
    hide Live, Flat, Doubling, FromIndex, ToIndex, Pow2, Emptied;
    var h := FromIndex(i);
    EmptiedStep(flat, Flat(blocks), n, i);
    HandleInside(blocks, i);
    FlatAt(blocks, h);
    FlatWrite(blocks, h, None);
    LiveUpdate(Flat(blocks), i, None);
  }

  lemma EmptiedStep<T>(flat: seq<Option<T>>, flat': seq<Option<T>>, n: nat, i: nat)
    requires n <= i < |flat| && Emptied(flat, flat', n, i)
    ensures |flat'| == |flat| && Emptied(flat, flat'[i := None], n, i + 1)
    ensures flat'[i].None? ==> Emptied(flat, flat', n, i + 1)
  {
  }

  // An index below the number of slots has its handle in the blocks.
  lemma HandleInside<T>(blocks: Blocks<T>, i: nat)
    requires Doubling(blocks) && i < |Flat(blocks)|
    ensures var h := FromIndex(i);
            h.a < |blocks| && Proper(h) && |blocks[h.a]| == Pow2(h.a) && ToIndex(h) == i
  {
    hide Flat;
    var h := FromIndex(i);
    FlatLength(blocks);
    IndexRoundTrip(i, h);
    if |blocks| <= h.a { if |blocks| < h.a { Pow2Grows(|blocks|, h.a); } }
  }

  // The first `m` slots are those of `items`, and all others are empty.
  ghost predicate KeptFirst<T>(items: seq<Option<T>>, flat: seq<Option<T>>, m: nat) {
    && m <= |items| && m <= |flat| && flat[..m] == items[..m]
    && forall j :: m <= j < |flat| ==> flat[j] == None
  }

  lemma PadOne<T>(blocks: Blocks<T>, items: seq<Option<T>>, m: nat)
    requires Doubling(blocks) && KeptFirst(items, Flat(blocks), m)
    ensures var grown := blocks + [Free<T>(Pow2(|blocks|))];
            && Doubling(grown) && KeptFirst(items, Flat(grown), m) && Live(Flat(grown)) == Live(Flat(blocks))
            && Pow2(|grown|) == Pow2(|blocks|) * 2
  {
    hide Live, Flat;
    FlatGrow(blocks);
    assert Flat(blocks + [Free<T>(Pow2(|blocks|))])[..m] == Flat(blocks)[..m];
  }

  // `flat` with the slots from `n` up to `i` set to `x`.
  ghost predicate Filled<T>(flat: seq<Option<T>>, flat': seq<Option<T>>, n: nat, i: nat, x: T) {
    && |flat'| == |flat|
    && forall j :: 0 <= j < |flat| ==> flat'[j] == if n <= j < i then Some(x) else flat[j]
  }

  lemma FillOne<T>(blocks: Blocks<T>, flat: seq<Option<T>>, n: nat, i: nat, x: T)
    requires Doubling(blocks) && n <= i < |flat| && Filled(flat, Flat(blocks), n, i, x) && flat[i] == None
    ensures var h := FromIndex(i);
            && h.a < |blocks| && h.b < |blocks[h.a]|
            && var blocks' := blocks[h.a := blocks[h.a][h.b := Some(x)]];
            && Doubling(blocks') && |blocks'| == |blocks| && Filled(flat, Flat(blocks'), n, i + 1, x)
            && Live(Flat(blocks')) == Live(Flat(blocks)) + 1
  {
    hide Live, Flat, Doubling, FromIndex, ToIndex, Pow2, Filled;
    FilledStep(flat, Flat(blocks), n, i, x);
    HandleInside(blocks, i);
    FlatWrite(blocks, FromIndex(i), Some(x));
    LiveUpdate(Flat(blocks), i, Some(x));
  }

  lemma FilledStep<T>(flat: seq<Option<T>>, flat': seq<Option<T>>, n: nat, i: nat, x: T)
    requires n <= i < |flat| && Filled(flat, flat', n, i, x)
    ensures |flat'| == |flat| && flat'[i] == flat[i] && Filled(flat, flat'[i := Some(x)], n, i + 1, x)
  {
  }

  // Cutting whole empty blocks off.
  lemma CutEmpty<T>(blocks: Blocks<T>, n: nat, items: seq<Option<T>>, m: nat)
    requires Doubling(blocks) && n <= |blocks| && m < Pow2(n) && KeptFirst(items, Flat(blocks), m)
    ensures Doubling(blocks[..n]) && KeptFirst(items, Flat(blocks[..n]), m)
    ensures Live(Flat(blocks[..n])) == Live(Flat(blocks))
  {
    hide Live, Flat;
    FlatCut(blocks, n);
    EmptyTail(Flat(blocks), Pow2(n) - 1);
    assert Flat(blocks)[..Pow2(n) - 1][..m] == Flat(blocks)[..m];
  }

  // After the slots from `n` on have been emptied.
  lemma ShrunkTo<T>(blocks: Blocks<T>, size: nat, flat: seq<Option<T>>, n: nat, i: nat)
    requires Holds(blocks, size) && (if n <= size then i == size else i == n)
    requires Emptied(Flat(blocks), flat, n, i)
    ensures KeptFirst(Flat(blocks)[..size], flat, if n <= size then n else size)
  {
    hide Flat;
  }

  lemma ResizedTo<T>(items: seq<Option<T>>, flat: seq<Option<T>>, blocks: Blocks<T>, n: nat, i: nat, x: T)
    requires KeptFirst(items, flat, if n <= |items| then n else |items|)
    requires Doubling(blocks) && |blocks| == NumBlocks(n) && (if n <= |items| then i == |items| else i == n)
    requires Filled(flat, Flat(blocks), |items|, i, x)
    ensures Holds(blocks, n) && Flat(blocks)[..n] == Resized(items, n, x)
  {
    hide Flat, Pow2, BitScanReverse;
    if n > 0 { RoomOf(n); }
    FlatLength(blocks);
    var m := if n <= |items| then n else |items|;
    var flat' := Flat(blocks);
    assert n <= |flat'|;
    forall j | 0 <= j < n ensures flat'[j] == Resized(items, n, x)[j] {
      if j < m { assert flat[..m][j] == items[..m][j]; }
    }
  }

  // ---------------------------------------------------------------------------------------------------------------
  // The array
  // ---------------------------------------------------------------------------------------------------------------

  /** The sparse array with constructed flags and a count. The dense array is the case where no element is destructed
    * in place. */
  class ChunkedArray<T> {
    var blocks: Blocks<T>
    var size: nat
    var numExisting: int

    ghost predicate Valid()
      reads this
    {
      Holds(blocks, size) && numExisting == Live(Flat(blocks))
    }

    /** What the array stands for: one optional value per index. */
    ghost function Items(): (s: seq<Option<T>>)
      requires Valid()
      reads this
      ensures |s| == size
    {
      Flat(blocks)[..size]
    }

    constructor ()
      ensures Valid() && size == 0 && numExisting == 0
    {
      blocks, size, numExisting := [], 0, 0;
    }

    method Get(i: nat) returns (x: Option<T>)
      requires Valid() && i < size
      ensures x == Items()[i]
    {
      var h := FromIndex(i);
      HandleInside(blocks, i);
      FlatAt(blocks, h);
      x := blocks[h.a][h.b];
    }

    method EmplaceBack(x: T) returns (h: Handle)
      requires Valid()
      modifies this
      ensures Valid() && Items() == old(Items()) + [Some(x)] && h == FromIndex(size - 1)
      ensures numExisting == old(numExisting) + 1
    {
      hide Flat, Live, Holds, FromIndex;
      Appended(blocks, size, x);
      size := size + 1;
      if IsPowerOf2(size) {
        blocks := blocks + [Free(size)];
      }
      var last := |blocks| - 1;
      var idx := size - |blocks[last]|;
      blocks := blocks[last := blocks[last][idx := Some(x)]];
      numExisting := numExisting + 1;
      h := Handle(last, idx);
    }

    /** Removes trailing holes and then the last constructed element, which it returns. */
    method PopBack() returns (x: T)
      requires Valid() && exists i :: 0 <= i < size && Items()[i].Some?
      modifies this
      ensures Valid() && size < old(size) && numExisting == old(numExisting) - 1
      ensures Items() == old(Items())[..size] && old(Items())[size] == Some(x)
      ensures forall i :: size < i < old(size) ==> old(Items())[i] == None
    {
      hide Flat, Live, Holds, Doubling, FromIndex, ToIndex, Trimmed, NumBlocks, Pow2, BitScanReverse;
      ghost var items := Items();
      LastBlock(blocks, size);
      TrimStart(items, Flat(blocks));
      var idx := size - |blocks[|blocks| - 1]|;
      while blocks[|blocks| - 1][idx].None?
        invariant 0 < size <= old(size) && Holds(blocks, size) && Trimmed(items, Flat(blocks), size)
        invariant numExisting == Live(Flat(blocks)) == old(numExisting)
        invariant |blocks| > 0 && 0 <= idx < |blocks[|blocks| - 1]| && idx == size - |blocks[|blocks| - 1]|
        decreases size
      {
        ghost var was := blocks;
        LastBlock(blocks, size);
        Dropped(blocks, size);
        if idx == 0 {
          idx := size / 2;
          blocks := blocks[..|blocks| - 1];
        }
        idx := idx - 1;
        TrimStep(items, Flat(was), Flat(blocks), size);
        size := size - 1;
      }
      LastBlock(blocks, size);
      TrimEnds(items, Flat(blocks), size);
      x := RemoveLast(idx);
    }

    /** The end of `pop_back`: moves the last element out and drops its slot. */
    method RemoveLast(idx: nat) returns (x: T)
      requires Valid() && size > 0 && |blocks| > 0
      requires idx < |blocks[|blocks| - 1]| && idx == size - |blocks[|blocks| - 1]|
      requires blocks[|blocks| - 1][idx].Some? && Items()[size - 1] == blocks[|blocks| - 1][idx]
      modifies this
      ensures Valid() && size == old(size) - 1 && numExisting == old(numExisting) - 1
      ensures Items() == old(Items())[..size] && old(Items())[size] == Some(x)
    {
      hide Flat, Live, Holds, Doubling;
      ghost var items := Items();
      LastBlock(blocks, size);
      Popped(blocks, size);
      x := blocks[|blocks| - 1][idx].value;
      blocks := blocks[|blocks| - 1 := blocks[|blocks| - 1][idx := None]];
      numExisting := numExisting - 1;
      if idx == 0 { blocks := blocks[..|blocks| - 1]; }
      size := size - 1;
    }

    /** Constructs the element at a handle that has none. As in the source, only the bounds of the block are demanded;
      * the array stays well-formed if and only if the handle is below its size. */
    method Construct(h: Handle, x: T)
      requires Valid() && h.a < |blocks| && h.b < |blocks[h.a]| && blocks[h.a][h.b].None?
      modifies this`blocks, this`numExisting
      ensures Valid() <==> ToIndex(h) < size
      ensures Valid() ==> Items() == old(Items())[ToIndex(h) := Some(x)]
      ensures blocks == old(blocks)[h.a := old(blocks)[h.a][h.b := Some(x)]] && numExisting == old(numExisting) + 1
    {
      hide Flat, Live, Holds, FromIndex, ToIndex;
      BlockWritten(blocks, size, h, Some(x));
      blocks := blocks[h.a := blocks[h.a][h.b := Some(x)]];
      numExisting := numExisting + 1;
    }

    /** Destructs the element at a handle, leaving a hole. */
    method Destruct(h: Handle)
      requires Valid() && h.a < |blocks| && h.b < |blocks[h.a]| && blocks[h.a][h.b].Some?
      modifies this`blocks, this`numExisting
      ensures Valid() && ToIndex(h) < size
      ensures Items() == old(Items())[ToIndex(h) := None] && numExisting == old(numExisting) - 1
    {
      hide Flat, Live, Holds, FromIndex, ToIndex;
      BlockWritten(blocks, size, h, None);
      blocks := blocks[h.a := blocks[h.a][h.b := None]];
      numExisting := numExisting - 1;
    }

    /** Cuts the array to `newSize`, or fills it up to `newSize` with copies of `x`. */
    method Resize(newSize: nat, x: T)
      requires Valid()
      modifies this
      ensures Valid() && Items() == Resized(old(Items()), newSize, x)
      ensures size == newSize && forall i :: 0 <= i < newSize ==>
                                   Items()[i] == if i < old(size) then old(Items())[i] else Some(x)
    {
      hide Flat, Live, Holds, Doubling, FromIndex, Emptied, KeptFirst, Filled, Pow2, BitScanReverse, NumBlocks, Resized;
      if newSize == 0 {
        blocks, size, numExisting := [], 0, 0;
        EmptyArray<T>();
        return;
      }
      ghost var items, start := Items(), blocks;
      ghost var kept := if newSize <= size then newSize else size;
      HoldsDoubling(blocks, size);
      EmptiedNone(Flat(blocks), newSize);

      // destruct elements
      var i := newSize;
      while i < size
        invariant size == old(size) && Doubling(blocks) && |blocks| == |start| && numExisting == Live(Flat(blocks))
        invariant if newSize <= size then newSize <= i <= size else i == newSize
        invariant Emptied(Flat(start), Flat(blocks), newSize, i)
        decreases size - i
      {
        EmptyOne(blocks, Flat(start), newSize, i);
        var h := FromIndex(i);
        if blocks[h.a][h.b].Some? {
          blocks := blocks[h.a := blocks[h.a][h.b := None]];
          numExisting := numExisting - 1;
        }
        i := i + 1;
      }
      ShrunkTo(start, size, Flat(blocks), newSize, i);

      var newNumBlocks := BitScanReverse(newSize) + 1;
      RoomOf(newSize);
      if newNumBlocks > |blocks| {
        // construct blocks
        LastDoubles(blocks);
        var currSize := if blocks == [] then 1 else |blocks[|blocks| - 1]| * 2;
        while |blocks| < newNumBlocks
          invariant size == old(size) && Doubling(blocks) && |blocks| <= newNumBlocks && currSize == Pow2(|blocks|)
          invariant KeptFirst(items, Flat(blocks), kept) && numExisting == Live(Flat(blocks))
          decreases newNumBlocks - |blocks|
        {
          PadOne(blocks, items, kept);
          blocks := blocks + [Free(currSize)];
          currSize := currSize * 2;
        }
      } else {
        // destruct blocks
        CutEmpty(blocks, newNumBlocks, items, kept);
        blocks := blocks[..newNumBlocks];
      }

      // construct elements
      ghost var flat := Flat(blocks);
      FlatLength(blocks);
      FilledNone(flat, size, x);
      i := size;
      while i < newSize
        invariant size == old(size) && Doubling(blocks) && |blocks| == newNumBlocks && numExisting == Live(Flat(blocks))
        invariant if newSize <= size then i == size else size <= i <= newSize
        invariant Filled(flat, Flat(blocks), size, i, x)
        decreases newSize - i
      {
        FreeBehind(items, flat, kept, i);
        FillOne(blocks, flat, size, i, x);
        var h := FromIndex(i);
        blocks := blocks[h.a := blocks[h.a][h.b := Some(x)]];
        numExisting := numExisting + 1;
        i := i + 1;
      }
      ResizedTo(items, flat, blocks, newSize, i, x);
      size := newSize;
    }
  }

  lemma HoldsDoubling<T>(blocks: Blocks<T>, size: nat)
    requires Holds(blocks, size)
    ensures Doubling(blocks) && size <= |Flat(blocks)|
  {
  }

  lemma RoomOf(n: nat)
    requires n > 0
    ensures NumBlocks(n) == BitScanReverse(n) + 1 && n < Pow2(BitScanReverse(n) + 1)
  {
  }

  lemma LastDoubles<T>(blocks: Blocks<T>)
    requires Doubling(blocks)
    ensures (if blocks == [] then 1 else |blocks[|blocks| - 1]| * 2) == Pow2(|blocks|)
  {
  }

  lemma FilledNone<T>(flat: seq<Option<T>>, n: nat, x: T)
    ensures Filled(flat, flat, n, n, x)
  {
  }

  lemma FreeBehind<T>(items: seq<Option<T>>, flat: seq<Option<T>>, m: nat, i: nat)
    requires KeptFirst(items, flat, m) && m <= i < |flat|
    ensures flat[i] == None
  {
  }

  // The first `s` slots are those of `items`, where everything from `s` on is a hole and something before is not.
  ghost predicate Trimmed<T>(items: seq<Option<T>>, flat: seq<Option<T>>, s: nat) {
    && 0 < s <= |items| && s <= |flat| && flat[..s] == items[..s]
    && (exists i :: 0 <= i < s && items[i].Some?)
    && forall i :: s <= i < |items| ==> items[i] == None
  }

  lemma TrimStart<T>(items: seq<Option<T>>, flat: seq<Option<T>>)
    requires |items| <= |flat| && items == flat[..|items|] && exists i :: 0 <= i < |items| && items[i].Some?
    ensures Trimmed(items, flat, |items|)
  {
    assert items[..|items|] == items;
  }

  lemma TrimStep<T>(items: seq<Option<T>>, flat: seq<Option<T>>, flat': seq<Option<T>>, s: nat)
    requires Trimmed(items, flat, s) && 0 < s <= |flat| && flat[s - 1] == None
    requires s - 1 <= |flat'| && flat'[..s - 1] == flat[..s - 1]
    ensures s > 1 && Trimmed(items, flat', s - 1)
  {
    assert flat[..s][s - 1] == items[..s][s - 1];
    assert flat[..s][..s - 1] == flat[..s - 1] && items[..s][..s - 1] == items[..s - 1];
  }

  lemma TrimEnds<T>(items: seq<Option<T>>, flat: seq<Option<T>>, s: nat)
    requires Trimmed(items, flat, s)
    ensures s <= |flat| && s <= |items| && flat[..s] == items[..s] && s > 0 && flat[..s][s - 1] == flat[s - 1]
    ensures items[..s][..s - 1] == items[..s - 1] && items[..s][s - 1] == items[s - 1]
    ensures forall i :: s <= i < |items| ==> items[i] == None
  {
  }

  lemma LastBlock<T>(blocks: Blocks<T>, size: nat)
    requires Holds(blocks, size) && size > 0
    ensures |blocks| > 0 && 0 <= size - |blocks[|blocks| - 1]| < |blocks[|blocks| - 1]|
    ensures size <= |Flat(blocks)|
    ensures blocks[|blocks| - 1][size - |blocks[|blocks| - 1]|] == Flat(blocks)[size - 1]
  {
    hide Flat;
    var n := |blocks| - 1;
    assert |blocks[n]| == Pow2(n);
    FlatAt(blocks, Handle(n, size - Pow2(n)));
  }

  // Emptying the last slot in use.
  lemma Vacated<T>(blocks: Blocks<T>, size: nat)
    requires Holds(blocks, size) && size > 0 && |blocks| > 0
             && 0 <= size - |blocks[|blocks| - 1]| < |blocks[|blocks| - 1]|
    requires size <= |Flat(blocks)| && Flat(blocks)[size - 1].Some?
    ensures var n := |blocks| - 1;
            var vacated := blocks[n := blocks[n][size - |blocks[n]| := None]];
            && Holds(vacated, size) && Flat(vacated) == Flat(blocks)[size - 1 := None]
            && Live(Flat(vacated)) == Live(Flat(blocks)) - 1
  {
    hide Flat, Live, NumBlocks, Pow2;
    var n := |blocks| - 1;
    assert |blocks[n]| == Pow2(n);
    FlatWrite(blocks, Handle(n, size - Pow2(n)), None);
    LiveUpdate(Flat(blocks), size - 1, None);
  }

  // Emptying the last slot in use and dropping it.
  lemma Popped<T>(blocks: Blocks<T>, size: nat)
    requires Holds(blocks, size) && size > 0 && |blocks| > 0
             && 0 <= size - |blocks[|blocks| - 1]| < |blocks[|blocks| - 1]|
    requires size <= |Flat(blocks)| && Flat(blocks)[size - 1].Some?
    ensures var n := |blocks| - 1;
            var idx := size - |blocks[n]|;
            var vacated := blocks[n := blocks[n][idx := None]];
            var blocks' := if idx == 0 then vacated[..n] else vacated;
            && Holds(blocks', size - 1) && size - 1 <= |Flat(blocks')|
               && Flat(blocks')[..size - 1] == Flat(blocks)[..size - 1]
            && Live(Flat(blocks')) == Live(Flat(blocks)) - 1
  {
    hide Flat, Live, Holds;
    Vacated(blocks, size);
    var n := |blocks| - 1;
    Dropped(blocks[n := blocks[n][size - |blocks[n]| := None]], size);
  }

  /** Writing any slot of the blocks: what is past the size must stay empty. */
  lemma BlockWritten<T>(blocks: Blocks<T>, size: nat, h: Handle, x: Option<T>)
    requires Holds(blocks, size) && h.a < |blocks| && h.b < |blocks[h.a]|
    ensures var blocks' := blocks[h.a := blocks[h.a][h.b := x]];
            && size <= |Flat(blocks)|
            && (Holds(blocks', size) <==> ToIndex(h) < size || x.None?)
            && (blocks[h.a][h.b].Some? ==> ToIndex(h) < size)
            && (ToIndex(h) < size ==> Flat(blocks')[..size] == Flat(blocks)[..size][ToIndex(h) := x])
            && Live(Flat(blocks')) == Live(Flat(blocks)) - (if blocks[h.a][h.b].Some? then 1 else 0)
                                      + (if x.Some? then 1 else 0)
  {
    hide Flat, Live, Pow2, NumBlocks;
    assert |blocks[h.a]| == Pow2(h.a);
    FlatAt(blocks, h);
    FlatWrite(blocks, h, x);
    LiveUpdate(Flat(blocks), ToIndex(h), x);
    assert Flat(blocks)[ToIndex(h) := x][ToIndex(h)] == x;
  }

  lemma EmptyArray<T>()
    ensures Holds<T>([], 0) && Live(Flat<T>([])) == 0
  {
  }

  lemma EmptiedNone<T>(flat: seq<Option<T>>, n: nat)
    ensures Emptied(flat, flat, n, n)
  {
  }

  // ---------------------------------------------------------------------------------------------------------------
  // Constructing past the size
  // ---------------------------------------------------------------------------------------------------------------

  /** There is a slot past the size, the one that the next `emplace_back` writes, unless the last block is full. */
  lemma SlotPastSize<T>(blocks: Blocks<T>, size: nat)
    requires Holds(blocks, size)
    ensures var h := FromIndex(size);
            !IsPowerOf2(size + 1) ==> h.a < |blocks| && h.b < |blocks[h.a]| && blocks[h.a][h.b] == None
    ensures IsPowerOf2(size + 1) ==>
              forall h: Handle :: h.a < |blocks| && h.b < |blocks[h.a]| ==> ToIndex(h) < size
  {
    hide Flat, IsPowerOf2, FromIndex, ToIndex, NumBlocks, Pow2;
    NumBlocksStep(size);
    FlatLength(blocks);
    if IsPowerOf2(size + 1) {
      forall h: Handle | h.a < |blocks| && h.b < |blocks[h.a]| ensures ToIndex(h) < size {
        assert |blocks[h.a]| == Pow2(h.a);
        FlatAt(blocks, h);
      }
    } else {
      SlotFree(blocks, size);
    }
  }

  lemma SlotFree<T>(blocks: Blocks<T>, size: nat)
    requires Holds(blocks, size) && !IsPowerOf2(size + 1)
    ensures var h := FromIndex(size); h.a < |blocks| && h.b < |blocks[h.a]| && blocks[h.a][h.b] == None
  {
    hide Flat, FromIndex, NumBlocks, Pow2, BitScanReverse;
    NumBlocksStep(size);
    FlatLength(blocks);
    if size + 1 == Pow2(NumBlocks(size)) {
      TopBitUnique(size + 1, NumBlocks(size));
      assert false;
    }
    HandleInside(blocks, size);
    FlatAt(blocks, FromIndex(size));
  }

  /** The failing run: after two elements the last block has a free slot, `construct` accepts it, and then the slot that
    * the next `emplace_back` writes is live already. */
  method ConstructedPastSize<T>(x: T, y: T, z: T) returns (a: ChunkedArray<T>)
    ensures a.size == 2 && a.numExisting == 3 && !a.Valid()
    ensures FromIndex(a.size) == Handle(1, 1) && |a.blocks| == 2 && |a.blocks[1]| == 2 && a.blocks[1][1] == Some(z)
  {
    hide Flat, Live, Holds, FromIndex, ToIndex, IsPowerOf2, Pow2, BitScanReverse, NumBlocks;
    a := new ChunkedArray();
    var _ := a.EmplaceBack(x);
    var _ := a.EmplaceBack(y);
    assert |a.Items()| == 2;
    SecondBlock(a.blocks);
    a.Construct(Handle(1, 1), z);
  }

  lemma SecondBlock<T>(blocks: Blocks<T>)
    requires Holds(blocks, 2)
    ensures FromIndex(2) == Handle(1, 1) && ToIndex(Handle(1, 1)) == 2
    ensures |blocks| == 2 && |blocks[1]| == 2 && blocks[1][1] == None
  {
    hide Flat, FromIndex, IsPowerOf2, Pow2, BitScanReverse, NumBlocks;
    SecondPower();
    IndexRoundTrip(1, Handle(1, 0));
    IndexRoundTrip(2, Handle(1, 1));
    NumBlocksStep(1);
    NumBlocksStep(2);
    SlotFree(blocks, 2);
    assert |blocks[1]| == Pow2(1);
  }

  lemma SecondPower()
    ensures Pow2(1) == 2
  {
  }
}
