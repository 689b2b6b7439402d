/** The hash table of hash-table.inl: a block of unordered arrays, walked from the last bucket to the first and backward
  * within each, so that erasing while walking moves only elements already shown. The hash is an arbitrary function. */
module HashTable {
  import opened Prelude
  import opened UnorderedArray

  datatype KeyVal<K, V> = KeyVal(key: K, val: V)

  type Buckets<K, V> = seq<seq<KeyVal<K, V>>>

  /** Everything in the table. */
  ghost function Contents<E>(buckets: seq<seq<E>>): multiset<E> {
    if buckets == [] then multiset{}
    else Contents(buckets[..|buckets| - 1]) + multiset(buckets[|buckets| - 1])
  }

  lemma {:induction false} ContentsOf<E>(buckets: seq<seq<E>>, e: E)
    ensures e in Contents(buckets) <==> exists i :: 0 <= i < |buckets| && e in buckets[i]
  {
    if buckets != [] {
      var n := |buckets| - 1;
      ContentsOf(buckets[..n], e);
      assert e in multiset(buckets[n]) <==> e in buckets[n];
      if e in Contents(buckets[..n]) {
        var i :| 0 <= i < n && e in buckets[..n][i];
        assert e in buckets[i];
      } else if i :| 0 <= i < |buckets| && e in buckets[i] {
        assert i < n ==> e in buckets[..n][i];
      }
    }
  }

  lemma ContentsLast<E>(buckets: seq<seq<E>>, n: nat)
    requires |buckets| == n + 1
    ensures Contents(buckets) == Contents(buckets[..n]) + multiset(buckets[n])
  {
  }

  lemma AddBoth<E>(x: multiset<E>, y: multiset<E>, p: multiset<E>, q: multiset<E>, m: multiset<E>)
    requires x + p == y + q
    ensures (x + m) + p == (y + m) + q
  {
    assert (x + m) + p == (x + p) + m;
    assert (y + m) + q == (y + q) + m;
  }

  /** Replacing one bucket changes the contents by the difference of the buckets. */
  lemma {:induction false} ContentsUpdate<E>(buckets: seq<seq<E>>, i: nat, b: seq<E>)
    requires i < |buckets|
    ensures Contents(buckets[i := b]) + multiset(buckets[i]) == Contents(buckets) + multiset(b)
    decreases |buckets|
  {
    hide Contents;
    var n := |buckets| - 1;
    ContentsLast(buckets, n);
    ContentsLast(buckets[i := b], n);
    if i < n {
      assert buckets[i := b][..n] == buckets[..n][i := b];
      ContentsUpdate(buckets[..n], i, b);
      AddBoth(Contents(buckets[..n][i := b]), Contents(buckets[..n]), multiset(buckets[i]), multiset(b),
              multiset(buckets[n]));
    } else {
      assert buckets[i := b][..n] == buckets[..n];
    }
  }

  lemma {:induction false} ContentsEmpty<E>(buckets: seq<seq<E>>)
    requires forall i :: 0 <= i < |buckets| ==> buckets[i] == []
    ensures Contents(buckets) == multiset{}
  {
    if buckets != [] { ContentsEmpty(buckets[..|buckets| - 1]); }
  }

  /** Every element is in the bucket of its hash. */
  ghost predicate Bucketed<K, V>(hash: K -> nat, buckets: Buckets<K, V>) {
    forall i, j :: 0 <= i < |buckets| && 0 <= j < |buckets[i]| ==> hash(buckets[i][j].key) % |buckets| == i
  }

  // ---------------------------------------------------------------------------------------------------------------
  // Positions
  // ---------------------------------------------------------------------------------------------------------------

  ghost predicate At<E>(buckets: seq<seq<E>>, a: int, b: int) {
    0 <= a < |buckets| && 0 <= b < |buckets[a]|
  }

  /** What a walk at position (`a`, `b`) has yet to show: the earlier buckets and the earlier slots of this one. */
  ghost function Ahead<E>(buckets: seq<seq<E>>, a: int, b: int): multiset<E>
    requires -1 <= a <= |buckets| && 0 <= b && (0 <= a < |buckets| ==> b <= |buckets[a]|)
  {
    if a < 0 then multiset{}
    else Contents(buckets[..a]) + if a < |buckets| then multiset(buckets[a][..b]) else multiset{}
  }

  lemma AheadInBucket<E>(buckets: seq<seq<E>>, a: int, b: int)
    requires 0 <= a < |buckets| && 0 < b <= |buckets[a]|
    ensures Ahead(buckets, a, b) == Ahead(buckets, a, b - 1) + multiset{buckets[a][b - 1]}
  {
    assert buckets[a][..b] == buckets[a][..b - 1] + [buckets[a][b - 1]];
  }

  lemma AheadNextBucket<E>(buckets: seq<seq<E>>, a: int)
    requires 0 <= a <= |buckets|
    ensures a == 0 ==> Ahead(buckets, a, 0) == multiset{}
    ensures a > 0 ==> Ahead(buckets, a, 0) == Ahead(buckets, a - 1, |buckets[a - 1]|)
  {
    if a > 0 {
      assert buckets[..a][..a - 1] == buckets[..a - 1];
      assert buckets[a - 1][..|buckets[a - 1]|] == buckets[a - 1];
    }
  }

  lemma AheadAll<E>(buckets: seq<seq<E>>)
    ensures Ahead(buckets, |buckets|, 0) == Contents(buckets)
  {
    assert buckets[..|buckets|] == buckets;
  }

  /** Erasing the element at a position leaves what is ahead of it as it was. */
  lemma ErasedAt<E>(buckets: seq<seq<E>>, a: nat, b: nat)
    requires At(buckets, a, b)
    ensures var buckets' := buckets[a := SwapErased(buckets[a], b)];
            && Ahead(buckets', a, b) == Ahead(buckets, a, b)
            && Contents(buckets') + multiset{buckets[a][b]} == Contents(buckets)
  {
    var erased := SwapErased(buckets[a], b);
    var buckets' := buckets[a := erased];
    SwapErasedIs(buckets[a], b);
    assert buckets'[..a] == buckets[..a];
    ContentsUpdate(buckets, a, erased);
    MultisetMove(Contents(buckets'), multiset(erased), buckets[a][b], Contents(buckets));
  }

  lemma MultisetMove<E>(x: multiset<E>, s: multiset<E>, e: E, y: multiset<E>)
    requires x + (s + multiset{e}) == y + s
    ensures x + multiset{e} == y
  {
    assert x + multiset{e} == x + (s + multiset{e}) - s;
    assert y == y + s - s;
  }

  lemma ErasedBucketed<K, V>(hash: K -> nat, buckets: Buckets<K, V>, a: nat, b: nat)
    requires Bucketed(hash, buckets) && At(buckets, a, b)
    ensures Bucketed(hash, buckets[a := SwapErased(buckets[a], b)])
  {
  }

  lemma AddedBucketed<K, V>(hash: K -> nat, buckets: Buckets<K, V>, a: nat, e: KeyVal<K, V>)
    requires Bucketed(hash, buckets) && a < |buckets| && hash(e.key) % |buckets| == a
    ensures var buckets' := buckets[a := buckets[a] + [e]];
            Bucketed(hash, buckets') && Contents(buckets') == Contents(buckets) + multiset{e}
  {
    hide Contents;
    ContentsUpdate(buckets, a, buckets[a] + [e]);
    MultisetMove(Contents(buckets), multiset(buckets[a]), e, Contents(buckets[a := buckets[a] + [e]]));
  }

  datatype Handle = Handle(a: int, b: int)

  /** The last element of the buckets up to `a`. */
  ghost function LastFrom<E>(buckets: seq<seq<E>>, a: int): (n: Handle)
    requires -1 <= a < |buckets|
    ensures -1 <= n.a <= a && 0 <= n.b
    decreases a + 1
  {
    if a == -1 then Handle(-1, 0)
    else if buckets[a] == [] then LastFrom(buckets, a - 1)
    else Handle(a, |buckets[a]| - 1)
  }

  /** Where a walk goes from `r`. */
  ghost function Before<E>(buckets: seq<seq<E>>, r: Handle): Handle
    requires 0 <= r.a <= |buckets| && 0 <= r.b
  {
    if r.b > 0 then Handle(r.a, r.b - 1) else LastFrom(buckets, r.a - 1)
  }

  /** What a walk at `r` has yet to show, the element at `r` included. */
  ghost function Current<E>(buckets: seq<seq<E>>, r: Handle): multiset<E>
    requires r.a == -1 || At(buckets, r.a, r.b)
  {
    if r.a == -1 then multiset{} else Ahead(buckets, r.a, r.b) + multiset{buckets[r.a][r.b]}
  }

  lemma {:induction false} LastFromIs<E>(buckets: seq<seq<E>>, a: int)
    requires -1 <= a < |buckets|
    ensures var n := LastFrom(buckets, a);
            (n.a == -1 || At(buckets, n.a, n.b)) && Current(buckets, n) == Ahead(buckets, a + 1, 0)
    decreases a + 1
  {
    hide Ahead, Contents;
    AheadNextBucket(buckets, a + 1);
    if a >= 0 {
      if buckets[a] == [] { LastFromIs(buckets, a - 1); } else { AheadInBucket(buckets, a, |buckets[a]|); }
    }
  }

  /** From a position in its bucket or just behind it, the step misses nothing. */
  lemma BeforeIs<E>(buckets: seq<seq<E>>, r: Handle)
    requires 0 <= r.a <= |buckets| && 0 <= r.b
    ensures var n := Before(buckets, r);
            (r.b <= if r.a < |buckets| then |buckets[r.a]| else 0)
            ==> (n.a == -1 || At(buckets, n.a, n.b)) && Current(buckets, n) == Ahead(buckets, r.a, r.b)
  {
    hide Ahead, Contents, LastFrom;
    if r.b > 0 {
      if r.a < |buckets| && r.b <= |buckets[r.a]| { AheadInBucket(buckets, r.a, r.b); }
    } else {
      LastFromIs(buckets, r.a - 1);
    }
  }

  // ---------------------------------------------------------------------------------------------------------------
  // The table
  // ---------------------------------------------------------------------------------------------------------------

  class HashTable<K(==), V(==)> {
    const hash: K -> nat
    var buckets: Buckets<K, V>
    var count: int

    ghost predicate Valid()
      reads this
    {
      Bucketed(hash, buckets) && count == |Contents(buckets)|
    }

    constructor (hash: K -> nat)
      ensures Valid() && buckets == [] && this.hash == hash
    {
      this.hash := hash;
      buckets, count := [], 0;
    }

    /** The element of a key, if there is one. */
    method Find(k: K) returns (r: Option<Handle>)
      requires Valid()
      ensures r.Some? ==> At(buckets, r.value.a, r.value.b) && buckets[r.value.a][r.value.b].key == k
                          && forall j :: 0 <= j < r.value.b ==> buckets[r.value.a][j].key != k
      ensures r.Some? <==> exists e :: e in Contents(buckets) && e.key == k
    {
      if |buckets| == 0 { return None; }
      var a := hash(k) % |buckets|;
      var b := 0;
      while b != |buckets[a]|
        invariant 0 <= b <= |buckets[a]|
        invariant forall j :: 0 <= j < b ==> buckets[a][j].key != k
      {
        if buckets[a][b].key == k {
          ContentsOf(buckets, buckets[a][b]);
          return Some(Handle(a, b));
        }
        b := b + 1;
      }
      KeyAbsent(hash, buckets, k);
      return None;
    }

    /** Moves every element into `want` new buckets. `from` tells where each came from: the elements of a new bucket
      * keep the order of old buckets and of slots in them. */
    method Rehash(want: nat) returns (ghost from: seq<seq<(nat, nat)>>)
      requires Valid() && want > 0
      modifies this`buckets
      ensures Valid() && |buckets| == want && Contents(buckets) == old(Contents(buckets))
      ensures |from| == want
      ensures forall a :: 0 <= a < want ==> |from[a]| == |buckets[a]|
      ensures forall a, k :: 0 <= a < want && 0 <= k < |from[a]| ==>
                && from[a][k].0 < |old(buckets)| && from[a][k].1 < |old(buckets)[from[a][k].0]|
                && buckets[a][k] == old(buckets)[from[a][k].0][from[a][k].1]
      ensures forall a, k, l :: 0 <= a < want && 0 <= k < l < |from[a]| ==>
                from[a][k].0 < from[a][l].0 || (from[a][k].0 == from[a][l].0 && from[a][k].1 < from[a][l].1)
    {
      hide Bucketed, Contents;
      var moved: Buckets<K, V> := seq(want, _ => []);
      from := seq(want, _ => []);
      NoneMoved(hash, buckets, moved);
      var i := 0;
      while i < |buckets|
        invariant i <= |buckets| && buckets == old(buckets) && |moved| == want && Bucketed(hash, moved)
        invariant Contents(moved) == Contents(buckets[..i])
        invariant Traced(buckets, moved, from, i, 0)
      {
        var j := 0;
        NoneOfBucket(buckets, i);
        while j < |buckets[i]|
          invariant i < |buckets| && buckets == old(buckets)
          invariant j <= |buckets[i]| && |moved| == want && Bucketed(hash, moved)
          invariant Contents(moved) == Contents(buckets[..i]) + multiset(buckets[i][..j])
          invariant Traced(buckets, moved, from, i, j)
          decreases |buckets[i]| - j
        {
          var e := buckets[i][j];
          var a := hash(e.key) % want;
          TracedOne(buckets, moved, from, i, j, a);
          from := from[a := from[a] + [(i, j)]];
          AddedBucketed(hash, moved, a, e);
          assert buckets[i][..j + 1] == buckets[i][..j] + [e];
          moved := moved[a := moved[a] + [e]];
          j := j + 1;
        }
        AllOfBucket(buckets, i);
        TracedBucket(buckets, moved, from, i);
        i := i + 1;
      }
      assert buckets[..i] == buckets;
      buckets := moved;
    }

    /** Room for `n` elements. */
    method Reserve(n: nat)
      requires Valid()
      modifies this`buckets
      ensures Valid() && |buckets| == n + 1 && Contents(buckets) == old(Contents(buckets))
    {
      ghost var _ := Rehash(n + 1);
    }

    /** Adds an element, whether or not its key is present, growing first when the table is full. */
    method Emplace(k: K, v: V) returns (r: Handle)
      requires Valid()
      modifies this`buckets, this`count
      ensures Valid() && Contents(buckets) == old(Contents(buckets)) + multiset{KeyVal(k, v)}
      ensures At(buckets, r.a, r.b) && buckets[r.a][r.b] == KeyVal(k, v)
      ensures count <= |buckets| * 3 / 2
      ensures |buckets| == if old(|buckets|) * 3 / 2 < old(count) + 1 then old(count) + 1 else old(|buckets|)
      ensures r.a == hash(k) % |buckets| && r.b == |buckets[r.a]| - 1 && count == old(count) + 1
      ensures old(|buckets|) * 3 / 2 >= old(count) + 1
              ==> buckets == old(buckets)[r.a := old(buckets)[r.a] + [KeyVal(k, v)]]
    {
      hide Bucketed, Contents;
      var want := count + 1;
      if |buckets| * 3 / 2 < want { ghost var _ := Rehash(want); }
      count := count + 1;
      var a := hash(k) % |buckets|;
      AddedBucketed(hash, buckets, a, KeyVal(k, v));
      buckets := buckets[a := buckets[a] + [KeyVal(k, v)]];
      r := Handle(a, |buckets[a]| - 1);
    }

    /** Adds an element unless its key is present. */
    method EmplaceIfNotFound(k: K, v: V) returns (r: Handle)
      requires Valid()
      modifies this`buckets, this`count
      ensures Valid() && At(buckets, r.a, r.b) && buckets[r.a][r.b].key == k
      ensures if exists e :: e in old(Contents(buckets)) && e.key == k
              then buckets == old(buckets)
              else Contents(buckets) == old(Contents(buckets)) + multiset{KeyVal(k, v)}
    {
      var found := Find(k);
      if found.Some? { return found.value; }
      r := Emplace(k, v);
    }

    /** Erases the element at a position; the last element of its bucket takes the position. */
    method Erase(r: Handle)
      requires Valid() && At(buckets, r.a, r.b)
      modifies this`buckets, this`count
      ensures Valid() && buckets == old(buckets)[r.a := SwapErased(old(buckets)[r.a], r.b)]
      ensures |buckets[r.a]| == |old(buckets)[r.a]| - 1
      ensures forall k :: 0 <= k < |buckets[r.a]| ==>
                buckets[r.a][k] == old(buckets)[r.a][if k == r.b then |buckets[r.a]| else k]
      ensures Contents(buckets) + multiset{old(buckets)[r.a][r.b]} == old(Contents(buckets))
      ensures count == old(count) - 1
    {
      hide Bucketed, Contents, SwapErased;
      ErasedAt(buckets, r.a, r.b);
      ErasedBucketed(hash, buckets, r.a, r.b);
      SwapErasedSlots(buckets[r.a], r.b);
      count := count - 1;
      buckets := buckets[r.a := SwapErased(buckets[r.a], r.b)];
    }

    /** The position the walk goes to from `r`, or the end (`a == -1`). */
    method Next(r: Handle) returns (n: Handle)
      requires 0 <= r.a <= |buckets| && 0 <= r.b
      ensures n == Before(buckets, r)
      ensures n.a < r.a || (n.a == r.a && n.b < r.b)
      ensures (r.b <= if r.a < |buckets| then |buckets[r.a]| else 0)
              ==> (n.a == -1 || At(buckets, n.a, n.b)) && Current(buckets, n) == Ahead(buckets, r.a, r.b)
    {
      hide Ahead, Current;
      BeforeIs(buckets, r);
      var a, b := r.a, r.b - 1;
      while b == -1
        invariant -1 <= a <= r.a && -1 <= b && (a < r.a || b < r.b)
        invariant Before(buckets, r) == if b == -1 && 0 <= a then LastFrom(buckets, a - 1) else Handle(a, b)
        invariant b == -1 ==> 0 <= a
        decreases a
      {
        a := a - 1;
        b := 0;
        if a >= 0 {
          b := |buckets[a]| - 1;
        }
      }
      return Handle(a, b);
    }

    method Begin() returns (r: Handle)
      ensures r.a == -1 || At(buckets, r.a, r.b)
      ensures Current(buckets, r) == Contents(buckets)
      ensures r == LastFrom(buckets, |buckets| - 1)
    {
      AheadAll(buckets);
      r := Next(Handle(|buckets|, 0));
    }

    /** A loop over the table whose body may erase the element it is shown, through the loop's accessor or through the
      * table: every element the table had is shown exactly once, and exactly the unerased ones stay. */
    method ForEach(f: seq<KeyVal<K, V>> -> Reply) returns (shown: seq<KeyVal<K, V>>)
      requires Valid()
      modifies this`buckets, this`count
      ensures Valid() && |buckets| == |old(buckets)|
      ensures multiset(shown) == old(Contents(buckets))
      ensures Contents(buckets) == multiset(Kept(f, shown))
    {
      hide Bucketed, Contents, Kept, Walked, Current, SwapErased;
      shown := [];
      var r := Begin();
      WalkStart(buckets, r, f);
      while r.a != -1
        invariant Valid() && |buckets| == |old(buckets)| && (r.a == -1 || At(buckets, r.a, r.b))
        invariant Walked(old(Contents(buckets)), buckets, r, f, shown)
        decreases r.a, r.b
      {
        var e := buckets[r.a][r.b];
        ghost var was := buckets;
        if !f(shown + [e]).Keep? { Erase(r); }
        var n := Next(r);
        WalkStep(old(Contents(buckets)), was, buckets, r, n, f, shown);
        shown := shown + [e];
        r := n;
      }
      WalkEnd(old(Contents(buckets)), buckets, r, f, shown);
    }
  }

  ghost predicate Walked<E>(start: multiset<E>, buckets: seq<seq<E>>, r: Handle, f: seq<E> -> Reply, shown: seq<E>)
    requires r.a == -1 || At(buckets, r.a, r.b)
  {
    && multiset(shown) + Current(buckets, r) == start
    && multiset(Kept(f, shown)) + Current(buckets, r) == Contents(buckets)
  }

  lemma WalkStart<E>(buckets: seq<seq<E>>, r: Handle, f: seq<E> -> Reply)
    requires (r.a == -1 || At(buckets, r.a, r.b)) && Current(buckets, r) == Contents(buckets)
    ensures Walked(Contents(buckets), buckets, r, f, [])
  {
  }

  lemma WalkEnd<E>(start: multiset<E>, buckets: seq<seq<E>>, r: Handle, f: seq<E> -> Reply, shown: seq<E>)
    requires r.a == -1 && Walked(start, buckets, r, f, shown)
    ensures multiset(shown) == start && multiset(Kept(f, shown)) == Contents(buckets)
  {
  }

  lemma WalkStep<E>(start: multiset<E>, buckets: seq<seq<E>>, buckets': seq<seq<E>>, r: Handle, n: Handle,
                    f: seq<E> -> Reply, shown: seq<E>)
    requires At(buckets, r.a, r.b) && Walked(start, buckets, r, f, shown)
    requires buckets' == if f(shown + [buckets[r.a][r.b]]).Keep? then buckets
                         else buckets[r.a := SwapErased(buckets[r.a], r.b)]
    requires n.a == -1 || At(buckets', n.a, n.b)
    requires Current(buckets', n) == Ahead(buckets', r.a, r.b)
    ensures Walked(start, buckets', n, f, shown + [buckets[r.a][r.b]])
  {
    hide Contents, Kept, Ahead, SwapErased;
    var e := buckets[r.a][r.b];
    ShownSnoc(f, shown, e);
    if !f(shown + [e]).Keep? {
      ErasedAt(buckets, r.a, r.b);
      MultisetDrop(multiset(Kept(f, shown)), Ahead(buckets, r.a, r.b), e, Contents(buckets'));
    }
  }

  lemma MultisetDrop<E>(kept: multiset<E>, ahead: multiset<E>, e: E, all: multiset<E>)
    requires kept + (ahead + multiset{e}) == all + multiset{e}
    ensures kept + ahead == all
  {
    assert kept + ahead == kept + (ahead + multiset{e}) - multiset{e};
    assert all == all + multiset{e} - multiset{e};
  }

  lemma KeyAbsent<K, V>(hash: K -> nat, buckets: Buckets<K, V>, k: K)
    requires Bucketed(hash, buckets) && |buckets| > 0
    requires forall j :: 0 <= j < |buckets[hash(k) % |buckets|]| ==> buckets[hash(k) % |buckets|][j].key != k
    ensures forall e :: e in Contents(buckets) ==> e.key != k
  {
    forall e | e in Contents(buckets) ensures e.key != k {
      ContentsOf(buckets, e);
      var i :| 0 <= i < |buckets| && e in buckets[i];
      var j :| 0 <= j < |buckets[i]| && buckets[i][j] == e;
    }
  }

  /** Where the elements of new buckets came from: places before (`i`, `j`) in the old ones, in their order. */
  ghost predicate Traced<E>(buckets: seq<seq<E>>, moved: seq<seq<E>>, from: seq<seq<(nat, nat)>>, i: nat, j: nat) {
    && |from| == |moved|
    && (forall a :: 0 <= a < |from| ==> |from[a]| == |moved[a]|)
    && (forall a, k :: 0 <= a < |from| && 0 <= k < |from[a]| ==>
          && from[a][k].0 < |buckets| && from[a][k].1 < |buckets[from[a][k].0]|
          && (from[a][k].0 < i || (from[a][k].0 == i && from[a][k].1 < j))
          && moved[a][k] == buckets[from[a][k].0][from[a][k].1])
    && forall a, k, l :: 0 <= a < |from| && 0 <= k < l < |from[a]| ==>
         from[a][k].0 < from[a][l].0 || (from[a][k].0 == from[a][l].0 && from[a][k].1 < from[a][l].1)
  }

  lemma TracedOne<E>(buckets: seq<seq<E>>, moved: seq<seq<E>>, from: seq<seq<(nat, nat)>>, i: nat, j: nat, a: nat)
    requires Traced(buckets, moved, from, i, j) && i < |buckets| && j < |buckets[i]| && a < |moved|
    ensures Traced(buckets, moved[a := moved[a] + [buckets[i][j]]], from[a := from[a] + [(i, j)]], i, j + 1)
  {
  }

  lemma TracedBucket<E>(buckets: seq<seq<E>>, moved: seq<seq<E>>, from: seq<seq<(nat, nat)>>, i: nat)
    requires i < |buckets| && Traced(buckets, moved, from, i, |buckets[i]|)
    ensures Traced(buckets, moved, from, i + 1, 0)
  {
  }

  lemma NoneMoved<K, V>(hash: K -> nat, buckets: Buckets<K, V>, moved: Buckets<K, V>)
    requires forall i :: 0 <= i < |moved| ==> moved[i] == []
    ensures Bucketed(hash, moved) && Contents(moved) == Contents(buckets[..0])
  {
    ContentsEmpty(moved);
  }

  lemma NoneOfBucket<E>(buckets: seq<seq<E>>, i: nat)
    requires i < |buckets|
    ensures multiset(buckets[i][..0]) == multiset{}
  {
  }

  lemma AllOfBucket<E>(buckets: seq<seq<E>>, i: nat)
    requires i < |buckets|
    ensures Contents(buckets[..i + 1]) == Contents(buckets[..i]) + multiset(buckets[i][..|buckets[i]|])
  {
    assert buckets[..i + 1][..i] == buckets[..i];
    assert buckets[i][..|buckets[i]|] == buckets[i];
  }
}
