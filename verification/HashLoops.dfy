/** A range-for over the hash table of hash-table.inl whose body erases any elements of the table. */
module HashLoops {
  import opened Prelude
  import opened UnorderedArray
  import opened HashTable

  /** The walk at `r` has the position `h` ahead of it. */
  predicate IsAhead(r: Handle, h: Handle) {
    h.a < r.a || (h.a == r.a && h.b < r.b)
  }

  // ---------------------------------------------------------------------------------------------------------------
  // One erasure
  // ---------------------------------------------------------------------------------------------------------------

  /** Erasing at a position; where there is no element the body must not erase, and nothing happens. */
  ghost function ErasedOne<E>(buckets: seq<seq<E>>, h: Handle): (r: seq<seq<E>>)
    ensures |r| == |buckets|
  {
    if At(buckets, h.a, h.b) then buckets[h.a := SwapErased(buckets[h.a], h.b)] else buckets
  }

  ghost function RemovedOne<E>(buckets: seq<seq<E>>, h: Handle): multiset<E> {
    if At(buckets, h.a, h.b) then multiset{buckets[h.a][h.b]} else multiset{}
  }

  /** The element it takes out, if the walk has not come to it yet. */
  ghost function GoneOne<E>(buckets: seq<seq<E>>, r: Handle, h: Handle): multiset<E> {
    if IsAhead(r, h) then RemovedOne(buckets, h) else multiset{}
  }

  /** It hits an element that the walk has ahead in its own bucket. */
  ghost predicate Clashes<E>(buckets: seq<seq<E>>, r: Handle, h: Handle) {
    At(buckets, h.a, h.b) && h.a == r.a && h.b < r.b
  }

  /** The number of positions that the walk has ahead. */
  ghost function Positions<E>(buckets: seq<seq<E>>, r: Handle): nat
    requires 0 <= r.a < |buckets| && 0 <= r.b
  {
    r.b + |Contents(buckets[..r.a])|
  }

  // The walk is at an element, or just behind the last one of its bucket.
  ghost predicate InBucket<E>(buckets: seq<seq<E>>, r: Handle) {
    0 <= r.a < |buckets| && 0 <= r.b <= |buckets[r.a]|
  }

  lemma ErasedContents<E>(buckets: seq<seq<E>>, h: Handle)
    ensures Contents(ErasedOne(buckets, h)) + RemovedOne(buckets, h) == Contents(buckets)
  {
    hide Contents, SwapErased, Ahead;
    if At(buckets, h.a, h.b) { ErasedAt(buckets, h.a, h.b); }
  }

  /** Of the positions ahead an erasure takes one away for each element it takes from ahead, unless it clashes. */
  lemma ErasedPositions<E>(buckets: seq<seq<E>>, r: Handle, h: Handle)
    requires 0 <= r.a < |buckets| && 0 <= r.b
    ensures |GoneOne(buckets, r, h)| + Positions(ErasedOne(buckets, h), r)
            == Positions(buckets, r) + if Clashes(buckets, r, h) then 1 else 0
  {
    hide Contents, SwapErased;
    var buckets' := ErasedOne(buckets, h);
    if At(buckets, h.a, h.b) {
      if h.a < r.a {
        ErasedBefore(buckets, r.a, h);
      } else {
        assert buckets'[..r.a] == buckets[..r.a];
      }
    }
  }

  lemma ErasedBefore<E>(buckets: seq<seq<E>>, a: int, h: Handle)
    requires h.a < a < |buckets| && At(buckets, h.a, h.b)
    ensures Contents(ErasedOne(buckets, h)[..a]) + multiset{buckets[h.a][h.b]} == Contents(buckets[..a])
    ensures |Contents(ErasedOne(buckets, h)[..a])| + 1 == |Contents(buckets[..a])|
    ensures ErasedOne(buckets, h)[a] == buckets[a]
  {
    hide Contents, SwapErased;
    assert ErasedOne(buckets, h)[..a] == ErasedOne(buckets[..a], h);
    ErasedContents(buckets[..a], h);
  }

  /** Without a clash it changes what is ahead by just what it takes out of it. */
  lemma ErasedAhead<E>(buckets: seq<seq<E>>, r: Handle, h: Handle)
    requires InBucket(buckets, r) && !Clashes(buckets, r, h)
    ensures var buckets' := ErasedOne(buckets, h);
            && InBucket(buckets', r)
            && GoneOne(buckets, r, h) + Ahead(buckets', r.a, r.b) == Ahead(buckets, r.a, r.b)
  {
    hide Contents, SwapErased;
    var buckets' := ErasedOne(buckets, h);
    if At(buckets, h.a, h.b) {
      if h.a < r.a {
        ErasedBefore(buckets, r.a, h);
      } else {
        assert buckets'[..r.a] == buckets[..r.a];
        if h.a == r.a {
          SwapErasedIs(buckets[r.a], h.b);
          assert buckets'[r.a][..r.b] == buckets'[r.a][..h.b][..r.b];
          assert buckets[r.a][..r.b] == buckets[r.a][..h.b][..r.b];
        }
      }
    }
  }

  // ---------------------------------------------------------------------------------------------------------------
  // One turn
  // ---------------------------------------------------------------------------------------------------------------

  ghost function ErasedAll<E>(buckets: seq<seq<E>>, hs: seq<Handle>): (r: seq<seq<E>>)
    ensures |r| == |buckets|
  {
    if hs == [] then buckets else ErasedOne(ErasedAll(buckets, hs[..|hs| - 1]), hs[|hs| - 1])
  }

  ghost function Removed<E>(buckets: seq<seq<E>>, hs: seq<Handle>): multiset<E> {
    if hs == [] then multiset{}
    else
      var n := |hs| - 1;
      Removed(buckets, hs[..n]) + RemovedOne(ErasedAll(buckets, hs[..n]), hs[n])
  }

  /** What the body takes out before the walk comes to it. */
  ghost function Gone<E>(buckets: seq<seq<E>>, r: Handle, hs: seq<Handle>): multiset<E> {
    if hs == [] then multiset{}
    else
      var n := |hs| - 1;
      Gone(buckets, r, hs[..n]) + GoneOne(ErasedAll(buckets, hs[..n]), r, hs[n])
  }

  /** No erasure of the body hits an element that is ahead in the bucket of the walk. */
  ghost predicate Spares<E>(buckets: seq<seq<E>>, r: Handle, hs: seq<Handle>) {
    forall k :: 0 <= k < |hs| ==> !Clashes(ErasedAll(buckets, hs[..k]), r, hs[k])
  }

  lemma SparesSnoc<E>(buckets: seq<seq<E>>, r: Handle, hs: seq<Handle>)
    requires hs != []
    ensures var n := |hs| - 1;
            Spares(buckets, r, hs) <==> Spares(buckets, r, hs[..n]) && !Clashes(ErasedAll(buckets, hs[..n]), r, hs[n])
  {
    hide Clashes, ErasedAll;
    var n := |hs| - 1;
    forall k | 0 <= k < n ensures hs[..n][..k] == hs[..k] && hs[..n][k] == hs[k] {}
    if Spares(buckets, r, hs[..n]) && !Clashes(ErasedAll(buckets, hs[..n]), r, hs[n]) {
      forall k | 0 <= k < |hs| ensures !Clashes(ErasedAll(buckets, hs[..k]), r, hs[k]) {
        if k < n { assert !Clashes(ErasedAll(buckets, hs[..n][..k]), r, hs[..n][k]); }
      }
    }
    if Spares(buckets, r, hs) {
      forall k | 0 <= k < n ensures !Clashes(ErasedAll(buckets, hs[..n][..k]), r, hs[..n][k]) {
        assert !Clashes(ErasedAll(buckets, hs[..k]), r, hs[k]);
      }
    }
  }

  /** What a body does to the positions and elements ahead. */
  lemma {:induction false} TurnFacts<E>(buckets: seq<seq<E>>, r: Handle, hs: seq<Handle>)
    requires InBucket(buckets, r)
    ensures var buckets', gone := ErasedAll(buckets, hs), Gone(buckets, r, hs);
            && (if Spares(buckets, r, hs)
                then InBucket(buckets', r) && gone + Ahead(buckets', r.a, r.b) == Ahead(buckets, r.a, r.b)
                else |gone| + Positions(buckets', r) > Positions(buckets, r))
    ensures |Gone(buckets, r, hs)| + Positions(ErasedAll(buckets, hs), r) >= Positions(buckets, r)
  {
    PositionsGrow(buckets, r, hs);
    if hs != [] {
      hide ErasedOne, GoneOne, Clashes, Positions, Ahead, Spares;
      var n := |hs| - 1;
      var mid := ErasedAll(buckets, hs[..n]);
      TurnFacts(buckets, r, hs[..n]);
      SparesSnoc(buckets, r, hs);
      ErasedPositions(mid, r, hs[n]);
      if Spares(buckets, r, hs) { ErasedAhead(mid, r, hs[n]); }
    }
  }

  lemma {:induction false} PositionsGrow<E>(buckets: seq<seq<E>>, r: Handle, hs: seq<Handle>)
    requires 0 <= r.a < |buckets| && 0 <= r.b
    ensures |Gone(buckets, r, hs)| + Positions(ErasedAll(buckets, hs), r) >= Positions(buckets, r)
  {
    if hs != [] {
      hide ErasedOne, GoneOne, Clashes, Positions;
      var n := |hs| - 1;
      PositionsGrow(buckets, r, hs[..n]);
      ErasedPositions(ErasedAll(buckets, hs[..n]), r, hs[n]);
    }
  }

  lemma {:induction false} RemovedFacts<E>(buckets: seq<seq<E>>, hs: seq<Handle>)
    ensures Contents(ErasedAll(buckets, hs)) + Removed(buckets, hs) == Contents(buckets)
  {
    if hs != [] {
      hide ErasedOne, RemovedOne, Contents;
      var n := |hs| - 1;
      RemovedFacts(buckets, hs[..n]);
      ErasedContents(ErasedAll(buckets, hs[..n]), hs[n]);
    }
  }

  // ---------------------------------------------------------------------------------------------------------------
  // The loop
  // ---------------------------------------------------------------------------------------------------------------

  /** How a loop ended: what it showed, what was erased before the walk came to it, all that was erased, the table, and
    * whether the walk had left its bucket. */
  datatype Ended<E> = Ended(shown: seq<E>, gone: multiset<E>, removed: multiset<E>, buckets: seq<seq<E>>, overran: bool)

  /** The body is given the elements shown so far, the table, and the position of the walk. */
  type Body<!E> = (seq<E>, seq<seq<E>>, Handle) -> seq<Handle>

  ghost function Run<E>(f: Body<E>, buckets: seq<seq<E>>, r: Handle, shown: seq<E>, gone: multiset<E>,
                       removed: multiset<E>): Ended<E>
    requires -1 <= r.a < |buckets| && 0 <= r.b
    decreases r.a + 1, r.b
  {
    if r.a == -1 then Ended(shown, gone, removed, buckets, false)
    else if !At(buckets, r.a, r.b) then Ended(shown, gone, removed, buckets, true)
    else
      var now := shown + [buckets[r.a][r.b]];
      var hs := f(now, buckets, r);
      var buckets' := ErasedAll(buckets, hs);
      Run(f, buckets', Before(buckets', r), now, gone + Gone(buckets, r, hs), removed + Removed(buckets, hs))
  }

  /** Every body spares what is ahead in the bucket of the walk. */
  ghost predicate AllSpare<E>(f: Body<E>, buckets: seq<seq<E>>, r: Handle, shown: seq<E>)
    requires -1 <= r.a < |buckets| && 0 <= r.b
    decreases r.a + 1, r.b
  {
    r.a == -1
    || (At(buckets, r.a, r.b)
        && var now := shown + [buckets[r.a][r.b]];
           var hs := f(now, buckets, r);
           var buckets' := ErasedAll(buckets, hs);
           Spares(buckets, r, hs) && AllSpare(f, buckets', Before(buckets', r), now))
  }

  /** The positions a walk at `r` has left, its own included. */
  ghost function Left<E>(buckets: seq<seq<E>>, r: Handle): nat
    requires -1 <= r.a < |buckets| && 0 <= r.b
  {
    if r.a == -1 then 0 else Positions(buckets, r) + 1
  }

  lemma {:induction false} LeftFrom<E>(buckets: seq<seq<E>>, a: int)
    requires -1 <= a < |buckets|
    ensures Left(buckets, LastFrom(buckets, a)) == |Contents(buckets[..a + 1])|
    decreases a + 1
  {
    if a >= 0 {
      hide Contents;
      ContentsLast(buckets[..a + 1], a);
      assert buckets[..a + 1][..a] == buckets[..a];
      if buckets[a] == [] { LeftFrom(buckets, a - 1); }
    }
  }

  lemma LeftBefore<E>(buckets: seq<seq<E>>, r: Handle)
    requires 0 <= r.a < |buckets| && 0 <= r.b
    ensures Left(buckets, Before(buckets, r)) == Positions(buckets, r)
  {
    hide Contents, LastFrom;
    if r.b == 0 { LeftFrom(buckets, r.a - 1); }
  }

  /** A run that stays in bounds shows at least as many elements as there are positions left for it. */
  lemma {:induction false} RunCounts<E>(f: Body<E>, buckets: seq<seq<E>>, r: Handle, shown: seq<E>, gone: multiset<E>,
                                       removed: multiset<E>)
    requires -1 <= r.a < |buckets| && 0 <= r.b
    ensures var q := Run(f, buckets, r, shown, gone, removed);
            !q.overran ==> |q.shown| + |q.gone| >= |shown| + |gone| + Left(buckets, r)
    decreases r.a + 1, r.b
  {
    hide Positions, Gone, Removed, ErasedAll, Before;
    if At(buckets, r.a, r.b) {
      var now := shown + [buckets[r.a][r.b]];
      var hs := f(now, buckets, r);
      var buckets' := ErasedAll(buckets, hs);
      StepDown(buckets', r);
      PositionsGrow(buckets, r, hs);
      LeftBefore(buckets', r);
      RunCounts(f, buckets', Before(buckets', r), now, gone + Gone(buckets, r, hs), removed + Removed(buckets, hs));
    }
  }

  lemma StepDown<E>(buckets: seq<seq<E>>, r: Handle)
    requires 0 <= r.a < |buckets| && 0 <= r.b
    ensures var n := Before(buckets, r);
            -1 <= n.a < |buckets| && 0 <= n.b && (n.a < r.a || (n.a == r.a && n.b < r.b))
  {
  }

  /** The run shows each element once, except those erased before the walk came to them, if every body spares the bucket
    * of the walk; if not, it leaves its bucket or shows some element again. */
  lemma {:induction false} RunExact<E>(f: Body<E>, buckets: seq<seq<E>>, r: Handle, shown: seq<E>, gone: multiset<E>,
                                       removed: multiset<E>)
    requires -1 <= r.a < |buckets| && 0 <= r.b && (r.a == -1 || At(buckets, r.a, r.b))
    ensures var q := Run(f, buckets, r, shown, gone, removed);
            if AllSpare(f, buckets, r, shown)
            then !q.overran && multiset(q.shown) + q.gone == multiset(shown) + gone + Current(buckets, r)
            else q.overran || |q.shown| + |q.gone| > |shown| + |gone| + |Current(buckets, r)|
    decreases r.a + 1, r.b
  {
    hide Positions, Gone, Removed, ErasedAll, Before, Spares, Ahead;
    if r.a != -1 {
      var e := buckets[r.a][r.b];
      var now := shown + [e];
      var hs := f(now, buckets, r);
      var buckets', out := ErasedAll(buckets, hs), Gone(buckets, r, hs);
      var n := Before(buckets', r);
      StepDown(buckets', r);
      TurnFacts(buckets, r, hs);
      AheadSize(buckets, r);
      if Spares(buckets, r, hs) {
        BeforeIs(buckets', r);
        AheadSize(buckets', r);
        RunExact(f, buckets', n, now, gone + out, removed + Removed(buckets, hs));
        Regroup(multiset(shown), gone, out, Ahead(buckets', r.a, r.b), e);
        assert multiset(now) == multiset(shown) + multiset{e};
      } else {
        LeftBefore(buckets', r);
        RunCounts(f, buckets', n, now, gone + out, removed + Removed(buckets, hs));
      }
    }
  }

  lemma Regroup<E>(shown: multiset<E>, gone: multiset<E>, out: multiset<E>, rest: multiset<E>, e: E)
    ensures shown + multiset{e} + (gone + out) + rest == shown + gone + (out + rest + multiset{e})
    ensures |shown + multiset{e} + (gone + out) + rest| == |shown| + 1 + |gone| + |out| + |rest|
  {
  }

  lemma AheadSize<E>(buckets: seq<seq<E>>, r: Handle)
    requires InBucket(buckets, r)
    ensures |Ahead(buckets, r.a, r.b)| == Positions(buckets, r)
    ensures At(buckets, r.a, r.b) ==> |Current(buckets, r)| == Positions(buckets, r) + 1
  {
    hide Contents;
  }

  /** The erasures of one body. */
  method EraseEach<K(==), V(==)>(t: HashTable<K, V>, hs: seq<Handle>)
    requires t.Valid()
    modifies t`buckets, t`count
    ensures t.Valid() && t.buckets == ErasedAll(old(t.buckets), hs)
    ensures Contents(t.buckets) + Removed(old(t.buckets), hs) == Contents(old(t.buckets))
  {
    hide Contents, Bucketed, SwapErased, Removed;
    RemovedFacts(t.buckets, hs);
    for k := 0 to |hs|
      invariant t.Valid() && t.buckets == ErasedAll(old(t.buckets), hs[..k])
    {
      assert hs[..k + 1][..k] == hs[..k] && hs[..k + 1][k] == hs[k];
      var h := hs[k];
      if 0 <= h.a < |t.buckets| && 0 <= h.b < |t.buckets[h.a]| { t.Erase(h); }
    }
    assert hs[..|hs|] == hs;
  }

  /** A range-for whose bodies erase any elements of the table. It stays in bounds and shows each element exactly once,
    * except those erased before the walk came to them, if and only if no body erases an element that is ahead in the
    * bucket of the walk. Elements shown before and elements of other buckets may go. */
  method ForEach<K(==), V(==)>(t: HashTable<K, V>, f: Body<KeyVal<K, V>>)
    returns (shown: seq<KeyVal<K, V>>, ghost gone: multiset<KeyVal<K, V>>, ghost removed: multiset<KeyVal<K, V>>,
             overran: bool)
    requires t.Valid()
    modifies t`buckets, t`count
    ensures t.Valid() && Contents(t.buckets) + removed == old(Contents(t.buckets))
    ensures Ended(shown, gone, removed, t.buckets, overran)
            == Run(f, old(t.buckets), LastFrom(old(t.buckets), |old(t.buckets)| - 1), [], multiset{}, multiset{})
    ensures !overran && multiset(shown) + gone == old(Contents(t.buckets))
            <==> AllSpare(f, old(t.buckets), LastFrom(old(t.buckets), |old(t.buckets)| - 1), [])
  {
    hide Contents, Bucketed, Run, AllSpare, LastFrom, Before, ErasedAll, Gone, Removed, Current;
    shown, gone, removed, overran := [], multiset{}, multiset{}, false;
    var r := t.Begin();
    StartIs(t.buckets);
    RunSizes(f, t.buckets, r);
    while r.a != -1
      invariant t.Valid() && |t.buckets| == |old(t.buckets)| && -1 <= r.a < |t.buckets| && 0 <= r.b && !overran
      invariant Contents(t.buckets) + removed == old(Contents(t.buckets))
      invariant Run(f, old(t.buckets), LastFrom(old(t.buckets), |old(t.buckets)| - 1), [], multiset{}, multiset{})
                == Run(f, t.buckets, r, shown, gone, removed)
      decreases r.a, r.b
    {
      RunStep(f, t.buckets, r, shown, gone, removed);
      if r.b >= |t.buckets[r.a]| {
        overran := true;
        break;
      }
      shown := shown + [t.buckets[r.a][r.b]];
      var hs := f(shown, t.buckets, r);
      gone := gone + Gone(t.buckets, r, hs);
      removed := removed + Removed(t.buckets, hs);
      EraseEach(t, hs);
      StepDown(t.buckets, r);
      r := t.Next(r);
    }
    if !overran { RunOver(f, t.buckets, r, shown, gone, removed); }
  }

  lemma StartIs<E>(buckets: seq<seq<E>>)
    ensures var r := LastFrom(buckets, |buckets| - 1);
            -1 <= r.a < |buckets| && 0 <= r.b && Contents(buckets) + multiset{} == Contents(buckets)
  {
  }

  lemma RunStep<E>(f: Body<E>, buckets: seq<seq<E>>, r: Handle, shown: seq<E>, gone: multiset<E>, removed: multiset<E>)
    requires 0 <= r.a < |buckets| && 0 <= r.b
    ensures Run(f, buckets, r, shown, gone, removed)
            == if !At(buckets, r.a, r.b) then Ended(shown, gone, removed, buckets, true)
               else
                 var now := shown + [buckets[r.a][r.b]];
                 var hs := f(now, buckets, r);
                 var buckets' := ErasedAll(buckets, hs);
                 Run(f, buckets', Before(buckets', r), now, gone + Gone(buckets, r, hs), removed + Removed(buckets, hs))
  {
    hide Gone, Removed, ErasedAll, Before;
  }

  lemma RunOver<E>(f: Body<E>, buckets: seq<seq<E>>, r: Handle, shown: seq<E>, gone: multiset<E>, removed: multiset<E>)
    requires r.a == -1 && 0 <= r.b
    ensures Run(f, buckets, r, shown, gone, removed) == Ended(shown, gone, removed, buckets, false)
  {
  }

  // Sizes tell multisets apart.
  lemma RunSizes<E>(f: Body<E>, buckets: seq<seq<E>>, r: Handle)
    requires -1 <= r.a < |buckets| && 0 <= r.b && (r.a == -1 || At(buckets, r.a, r.b))
    requires Current(buckets, r) == Contents(buckets)
    ensures var q := Run(f, buckets, r, [], multiset{}, multiset{});
            !q.overran && multiset(q.shown) + q.gone == Contents(buckets) <==> AllSpare(f, buckets, r, [])
  {
    hide Contents, Run, AllSpare, Current;
    RunExact(f, buckets, r, [], multiset{}, multiset{});
    var q := Run(f, buckets, r, [], multiset{}, multiset{});
    assert |multiset(q.shown) + q.gone| == |q.shown| + |q.gone|;
  }

  // ---------------------------------------------------------------------------------------------------------------
  // Two bodies that do not spare the bucket
  // ---------------------------------------------------------------------------------------------------------------

  /** At the second element of a bucket the body erases the first one: the second takes its place and is shown again. */
  method ShownAgain(x: KeyVal<nat, nat>, y: KeyVal<nat, nat>)
    returns (t: HashTable<nat, nat>, shown: seq<KeyVal<nat, nat>>, overran: bool)
    ensures shown == [y, y] && !overran && t.buckets == [[y], [], []]
  {
    hide Contents, Run, AllSpare, LastFrom;
    t := TwoInBucket(x, y);
    var f: Body<KeyVal<nat, nat>> := (now, b, r) => if r == Handle(0, 1) then [Handle(0, 0)] else [];
    RunAgain(f, x, y);
    ghost var gone, removed;
    shown, gone, removed, overran := ForEach(t, f);
  }

  /** There the body erases both: the walk leaves the bucket. */
  method WalkedOut(x: KeyVal<nat, nat>, y: KeyVal<nat, nat>)
    returns (t: HashTable<nat, nat>, shown: seq<KeyVal<nat, nat>>, overran: bool)
    ensures shown == [y] && overran && t.buckets == [[], [], []]
  {
    hide Contents, Run, AllSpare, LastFrom;
    t := TwoInBucket(x, y);
    var f: Body<KeyVal<nat, nat>> := (now, b, r) => [Handle(0, 1), Handle(0, 0)];
    RunOut(f, x, y);
    ghost var gone, removed;
    shown, gone, removed, overran := ForEach(t, f);
  }

  method TwoInBucket(x: KeyVal<nat, nat>, y: KeyVal<nat, nat>) returns (t: HashTable<nat, nat>)
    ensures fresh(t) && t.Valid() && t.buckets == [[x, y], [], []]
  {
    hide Contents;
    t := new HashTable((k: nat) => 0);
    EmptyContents(t.buckets);
    assert t.count == 0;
    t.Reserve(2);
    AllEmpty(t.buckets);
    assert x == KeyVal(x.key, x.val) && y == KeyVal(y.key, y.val);
    var r := t.Emplace(x.key, x.val);
    assert t.hash(t.buckets[r.a][r.b].key) % 3 == r.a;
    assert t.buckets == [[] + [x], [], []] && [] + [x] == [x];
    r := t.Emplace(y.key, y.val);
    assert t.hash(t.buckets[r.a][r.b].key) % 3 == r.a;
    assert t.buckets == [[x] + [y], [], []] && [x] + [y] == [x, y];
  }

  lemma EmptyContents<E>(buckets: seq<seq<E>>)
    requires buckets == []
    ensures Contents(buckets) == multiset{}
  {
  }

  lemma AllEmpty<E>(buckets: seq<seq<E>>)
    requires Contents(buckets) == multiset{} && |buckets| == 3
    ensures buckets == [[], [], []]
  {
    hide Contents;
    forall i | 0 <= i < 3 ensures buckets[i] == [] {
      if buckets[i] != [] { ContentsOf(buckets, buckets[i][0]); }
    }
  }

  lemma RunAgain<E>(f: Body<E>, x: E, y: E)
    requires forall now, b :: f(now, b, Handle(0, 1)) == [Handle(0, 0)] && f(now, b, Handle(0, 0)) == []
    ensures var b: seq<seq<E>> := [[x, y], [], []];
            var q := Run(f, b, LastFrom(b, |b| - 1), [], multiset{}, multiset{});
            q.shown == [y, y] && q.buckets == [[y], [], []] && !q.overran
  {
    hide Gone, Removed;
    var b, b': seq<seq<E>> := [[x, y], [], []], [[y], [], []];
    assert LastFrom(b, 0) == LastFrom(b, 1) == LastFrom(b, 2) == Handle(0, 1);
    assert SwapErased([x, y], 0) == [y] && ErasedOne(b, Handle(0, 0)) == b';
    BodyOfOne(b, Handle(0, 0), b');
    var g, m := Gone(b, Handle(0, 1), [Handle(0, 0)]), Removed(b, [Handle(0, 0)]);
    assert [] + [y] == [y] && [y] + [y] == [y, y] && Before(b', Handle(0, 1)) == Handle(0, 0);
    RunStep(f, b, Handle(0, 1), [], multiset{}, multiset{});
    RunStep(f, b', Handle(0, 0), [y], multiset{} + g, multiset{} + m);
  }

  lemma BodyOfOne<E>(b: seq<seq<E>>, h: Handle, b': seq<seq<E>>)
    requires b' == ErasedOne(b, h)
    ensures ErasedAll(b, [h]) == b' && ErasedAll(b', []) == b'
  {
    assert [h][..0] == [];
  }

  lemma RunOut<E>(f: Body<E>, x: E, y: E)
    requires forall now, b, r :: f(now, b, r) == [Handle(0, 1), Handle(0, 0)]
    ensures var b: seq<seq<E>> := [[x, y], [], []];
            var q := Run(f, b, LastFrom(b, |b| - 1), [], multiset{}, multiset{});
            q.shown == [y] && q.buckets == [[], [], []] && q.overran
  {
    hide Gone, Removed;
    var b, b', b'': seq<seq<E>> := [[x, y], [], []], [[x], [], []], [[], [], []];
    assert LastFrom(b, 0) == LastFrom(b, 1) == LastFrom(b, 2) == Handle(0, 1);
    var hs := [Handle(0, 1), Handle(0, 0)];
    assert hs[..1] == [Handle(0, 1)];
    assert SwapErased([x, y], 1) == [x] && ErasedOne(b, Handle(0, 1)) == b';
    BodyOfOne(b, Handle(0, 1), b');
    assert ErasedOne(b', Handle(0, 0)) == b'';
    RunStep(f, b, Handle(0, 1), [], multiset{}, multiset{});
    RunStep(f, b'', Handle(0, 0), [y], multiset{} + Gone(b, Handle(0, 1), hs), multiset{} + Removed(b, hs));
  }
}
