/** The array of unordered-array.inl, whose erase moves the last element into the hole, and the loops over it. */
module UnorderedArray {

  /** `s` without the element at `i`, the last element in its place. */
  function SwapErased<T>(s: seq<T>, i: nat): (r: seq<T>)
    requires i < |s|
    ensures |r| == |s| - 1
  {
    if i == |s| - 1 then s[..i] else s[..|s| - 1][i := s[|s| - 1]]
  }

  lemma SwapErasedSlots<T>(s: seq<T>, i: nat)
    requires i < |s|
    ensures forall k :: 0 <= k < |s| - 1 ==> SwapErased(s, i)[k] == s[if k == i then |s| - 1 else k]
  {
  }

  // `s` in three parts around `i`, and what the erase makes of them.
  lemma SwapErasedParts<T>(s: seq<T>, i: nat)
    requires i < |s| - 1
    ensures var n := |s| - 1;
            && SwapErased(s, i) == s[..i] + ([s[n]] + s[i + 1..n])
            && s == s[..i] + s[i..] && s[i..] == [s[i]] + s[i + 1..n] + [s[n]]
  {
  }

  lemma MultisetRotates<T>(a: T, m: seq<T>, b: T)
    ensures multiset([b] + m) + multiset{a} == multiset([a] + m + [b])
  {
  }

  lemma SwapErasedTail<T>(s: seq<T>, i: nat)
    requires i < |s|
    ensures SwapErased(s, i)[..i] == s[..i]
    ensures multiset(SwapErased(s, i)[i..]) + multiset{s[i]} == multiset(s[i..])
  {
    var n := |s| - 1;
    if i < n {
      hide SwapErased;
      SwapErasedParts(s, i);
      var tail := [s[n]] + s[i + 1..n];
      assert SwapErased(s, i)[i..] == tail;
      MultisetRotates(s[i], s[i + 1..n], s[n]);
    } else {
      assert SwapErased(s, i)[i..] == [] && s[i..] == [s[i]];
    }
  }

  lemma SwapErasedIs<T>(s: seq<T>, i: nat)
    requires i < |s|
    ensures multiset(SwapErased(s, i)) + multiset{s[i]} == multiset(s)
    ensures SwapErased(s, i)[..i] == s[..i]
    ensures multiset(SwapErased(s, i)[i..]) + multiset{s[i]} == multiset(s[i..])
  {
    hide SwapErased;
    SwapErasedTail(s, i);
    var r := SwapErased(s, i);
    assert r == r[..i] + r[i..] && s == s[..i] + s[i..];
  }

  /** What the body of a loop does with the element it is shown: nothing, erase it through the loop's accessor, or erase
    * it through the array. */
  datatype Reply = Keep | EraseByAccessor | EraseByArray

  /** The elements shown by a run that were not erased; `f` sees all elements shown so far. */
  ghost function Kept<T>(f: seq<T> -> Reply, shown: seq<T>): seq<T> {
    if shown == [] then []
    else Kept(f, shown[..|shown| - 1]) + if f(shown).Keep? then [shown[|shown| - 1]] else []
  }

  /** No element was erased through the array. */
  ghost predicate ByAccessorOnly<T>(f: seq<T> -> Reply, shown: seq<T>) {
    shown == [] || (!f(shown).EraseByArray? && ByAccessorOnly(f, shown[..|shown| - 1]))
  }

  lemma ShownSnoc<T>(f: seq<T> -> Reply, shown: seq<T>, x: T)
    ensures multiset(shown + [x]) == multiset(shown) + multiset{x}
    ensures multiset(Kept(f, shown + [x]))
            == multiset(Kept(f, shown)) + if f(shown + [x]).Keep? then multiset{x} else multiset{}
    ensures ByAccessorOnly(f, shown + [x]) <==> ByAccessorOnly(f, shown) && !f(shown + [x]).EraseByArray?
  {
    assert (shown + [x])[..|shown|] == shown;
  }

  lemma SuffixStep<T>(s: seq<T>, i: nat)
    requires i < |s|
    ensures multiset(s[i..]) == multiset{s[i]} + multiset(s[i + 1..])
    ensures multiset(s[..i + 1]) == multiset(s[..i]) + multiset{s[i]}
  {
    assert s[i..] == [s[i]] + s[i + 1..];
    assert s[..i + 1] == s[..i] + [s[i]];
  }

  /** The state of a forward loop about to show the element at `i` of `v`: what was shown and what was skipped so far
    * accounts, with the rest of `v`, for all of `start`. */
  ghost predicate Accounted<T>(start: seq<T>, v: seq<T>, i: nat, f: seq<T> -> Reply, shown: seq<T>,
                               skipped: multiset<T>)
    requires i <= |v|
  {
    && multiset(shown) + skipped + multiset(v[i..]) == multiset(start)
    && multiset(v[..i]) == multiset(Kept(f, shown)) + skipped
  }

  lemma Kept1<T>(start: seq<T>, v: seq<T>, i: nat, f: seq<T> -> Reply, shown: seq<T>, skipped: multiset<T>)
    requires i < |v| && Accounted(start, v, i, f, shown, skipped) && f(shown + [v[i]]).Keep?
    ensures Accounted(start, v, i + 1, f, shown + [v[i]], skipped)
  {
    hide Kept;
    ShownSnoc(f, shown, v[i]);
    SuffixStep(v, i);
  }

  lemma Erased1<T>(start: seq<T>, v: seq<T>, i: nat, f: seq<T> -> Reply, shown: seq<T>, skipped: multiset<T>)
    requires i < |v| && Accounted(start, v, i, f, shown, skipped) && !f(shown + [v[i]]).Keep?
    ensures Accounted(start, SwapErased(v, i), i, f, shown + [v[i]], skipped)
  {
    hide Kept, SwapErased;
    ShownSnoc(f, shown, v[i]);
    SwapErasedIs(v, i);
  }

  lemma Skipped1<T>(start: seq<T>, v: seq<T>, i: nat, f: seq<T> -> Reply, shown: seq<T>, skipped: multiset<T>)
    requires i < |v| && Accounted(start, v, i, f, shown, skipped)
    ensures Accounted(start, v, i + 1, f, shown, skipped + multiset{v[i]})
  {
    hide Kept;
    SuffixStep(v, i);
  }

  lemma AccountedStart<T>(v: seq<T>, f: seq<T> -> Reply)
    ensures Accounted(v, v, 0, f, [], multiset{}) && ByAccessorOnly(f, [])
  {
    assert v[0..] == v;
  }

  lemma AccountedEnd<T>(start: seq<T>, v: seq<T>, f: seq<T> -> Reply, shown: seq<T>, skipped: multiset<T>)
    requires Accounted(start, v, |v|, f, shown, skipped)
    ensures multiset(shown) + skipped == multiset(start)
    ensures multiset(v) == multiset(Kept(f, shown)) + skipped
    ensures multiset(shown) == multiset(start) <==> skipped == multiset{}
  {
    assert v[..|v|] == v;
    assert |multiset(shown) + skipped| == |multiset(shown)| + |skipped|;
  }

  /** The state of a backward loop about to show the element at `i - 1`: the rest is untouched, what was shown is the
    * end of `start` reversed, and the slots from `i` on hold what was kept. */
  ghost predicate Rewound<T>(start: seq<T>, v: seq<T>, i: nat, f: seq<T> -> Reply, shown: seq<T>)
    requires i <= |v| && i <= |start|
  {
    && v[..i] == start[..i] && |shown| == |start| - i
    && (forall k :: 0 <= k < |shown| ==> shown[k] == start[|start| - 1 - k])
    && multiset(v[i..]) == multiset(Kept(f, shown))
  }

  lemma RewoundStart<T>(v: seq<T>, f: seq<T> -> Reply)
    ensures Rewound(v, v, |v|, f, [])
  {
  }

  lemma RewoundKept<T>(start: seq<T>, v: seq<T>, i: nat, f: seq<T> -> Reply, shown: seq<T>)
    requires i < |v| && i < |start| && Rewound(start, v, i + 1, f, shown) && f(shown + [v[i]]).Keep?
    ensures Rewound(start, v, i, f, shown + [v[i]])
  {
    hide Kept;
    ShownSnoc(f, shown, v[i]);
    SuffixStep(v, i);
    assert v[i] == v[..i + 1][i] == start[i];
    assert v[..i] == v[..i + 1][..i] == start[..i];
  }

  lemma RewoundErased<T>(start: seq<T>, v: seq<T>, i: nat, f: seq<T> -> Reply, shown: seq<T>)
    requires i < |v| && i < |start| && Rewound(start, v, i + 1, f, shown) && !f(shown + [v[i]]).Keep?
    ensures Rewound(start, SwapErased(v, i), i, f, shown + [v[i]])
  {
    hide Kept, SwapErased;
    ShownSnoc(f, shown, v[i]);
    RestErased(v, i);
    SwapErasedIs(v, i);
    assert v[i] == v[..i + 1][i] == start[i];
    assert v[..i] == v[..i + 1][..i] == start[..i];
  }

  // Behind the position, the erase leaves what was behind it.
  lemma RestErased<T>(v: seq<T>, i: nat)
    requires i < |v|
    ensures multiset(SwapErased(v, i)[i..]) == multiset(v[i + 1..])
  {
    hide SwapErased;
    SuffixStep(v, i);
    SwapErasedTail(v, i);
    var rest := multiset(SwapErased(v, i)[i..]);
    assert rest == rest + multiset{v[i]} - multiset{v[i]} == multiset(v[i + 1..]);
  }

  // ---------------------------------------------------------------------------------------------------------------
  // The forward loop as a function of its inputs
  // ---------------------------------------------------------------------------------------------------------------

  /** How a forward loop ended: what it showed, what the array held then, and whether it had run past the end. */
  datatype Outcome<T> = Outcome(shown: seq<T>, rest: seq<T>, overran: bool)

  /** The forward loop from position `i` of `v` on, after the elements `shown`. */
  ghost function ForwardRun<T>(f: seq<T> -> Reply, v: seq<T>, i: nat, shown: seq<T>): Outcome<T>
    requires i <= |v|
    decreases |v| - i
  {
    if i == |v| then Outcome(shown, v, false)
    else
      var now := shown + [v[i]];
      match f(now)
      case Keep => ForwardRun(f, v, i + 1, now)
      case EraseByAccessor => ForwardRun(f, SwapErased(v, i), i, now)
      case EraseByArray =>
        if i == |v| - 1 then Outcome(now, SwapErased(v, i), true) else ForwardRun(f, SwapErased(v, i), i + 1, now)
  }

  /** The callback never erases through the array on the elements of `v` from `i` on, erasing by the accessor as it
    * goes. This depends on the inputs of the loop only. */
  ghost predicate NeverByArray<T>(f: seq<T> -> Reply, v: seq<T>, i: nat, shown: seq<T>)
    requires i <= |v|
    decreases |v| - i
  {
    i == |v|
    || var now := shown + [v[i]];
       match f(now)
       case Keep => NeverByArray(f, v, i + 1, now)
       case EraseByAccessor => NeverByArray(f, SwapErased(v, i), i, now)
       case EraseByArray => false
  }

  lemma RunStep<T>(f: seq<T> -> Reply, v: seq<T>, i: nat, shown: seq<T>)
    requires i < |v|
    ensures var now := shown + [v[i]];
            && (f(now).Keep? ==> ForwardRun(f, v, i, shown) == ForwardRun(f, v, i + 1, now)
                                 && NeverByArray(f, v, i, shown) == NeverByArray(f, v, i + 1, now))
            && (f(now).EraseByAccessor?
                ==> ForwardRun(f, v, i, shown) == ForwardRun(f, SwapErased(v, i), i, now)
                    && NeverByArray(f, v, i, shown) == NeverByArray(f, SwapErased(v, i), i, now))
            && (f(now).EraseByArray?
                ==> !NeverByArray(f, v, i, shown)
                    && ForwardRun(f, v, i, shown)
                       == if i == |v| - 1 then Outcome(now, SwapErased(v, i), true)
                          else ForwardRun(f, SwapErased(v, i), i + 1, now))
  {
    hide SwapErased;
  }

  lemma RunEnd<T>(f: seq<T> -> Reply, v: seq<T>, shown: seq<T>)
    ensures ForwardRun(f, v, |v|, shown) == Outcome(shown, v, false) && NeverByArray(f, v, |v|, shown)
  {
  }

  /** Replies 3 with an erasure through the array. */
  function EraseThree(shown: seq<int>): Reply {
    if shown != [] && shown[|shown| - 1] == 3 then EraseByArray else Keep
  }

  /** The documented example: erasing 3 through the array moves 5 into its place, and 5 is never shown. */
  lemma SkippedElement()
    ensures ForwardRun(EraseThree, [1, 2, 3, 4, 5], 0, []) == Outcome([1, 2, 3, 4], [1, 2, 5, 4], false)
  {
    var v := [1, 2, 3, 4, 5];
    assert SwapErased(v, 2) == [1, 2, 5, 4];
    assert [] + [1] == [1] && [1] + [2] == [1, 2] && [1, 2] + [3] == [1, 2, 3] && [1, 2, 3] + [4] == [1, 2, 3, 4];
    assert ForwardRun(EraseThree, [1, 2, 5, 4], 4, [1, 2, 3, 4]) == Outcome([1, 2, 3, 4], [1, 2, 5, 4], false);
    assert ForwardRun(EraseThree, [1, 2, 5, 4], 3, [1, 2, 3]) == Outcome([1, 2, 3, 4], [1, 2, 5, 4], false);
    assert ForwardRun(EraseThree, v, 2, [1, 2]) == Outcome([1, 2, 3, 4], [1, 2, 5, 4], false);
    assert ForwardRun(EraseThree, v, 1, [1]) == Outcome([1, 2, 3, 4], [1, 2, 5, 4], false);
  }

  /** Erasing the last element through the array leaves the loop past the end. */
  lemma OverrunLoop()
    ensures ForwardRun(EraseThree, [1, 3], 0, []) == Outcome([1, 3], [1], true)
  {
    assert SwapErased([1, 3], 1) == [1];
    assert [] + [1] == [1] && [1] + [3] == [1, 3];
    assert ForwardRun(EraseThree, [1, 3], 1, [1]) == Outcome([1, 3], [1], true);
  }

  class UnorderedArray<T(==)> {
    var v: seq<T>

    constructor ()
      ensures v == []
    {
      v := [];
    }

    method Add(x: T) returns (handle: nat)
      modifies this
      ensures v == old(v) + [x] && handle == old(|v|)
    {
      v := v + [x];
      handle := |v| - 1;
    }

    method PopBack() returns (x: T)
      requires v != []
      modifies this
      ensures old(v) == v + [x]
    {
      x := v[|v| - 1];
      v := v[..|v| - 1];
    }

    /** Overwrites the element with the last one and drops the last slot. */
    method Erase(handle: nat)
      requires handle < |v|
      modifies this
      ensures v == SwapErased(old(v), handle)
      ensures |v| == |old(v)| - 1 && forall k :: 0 <= k < |v| ==> v[k] == old(v)[if k == handle then |v| else k]
    {
      v := v[handle := v[|v| - 1]];
      ghost var filled := v;
      var last := PopBack();
      assert v == filled[..|filled| - 1];
    }

    /** The forward loop. An erasure through the loop's accessor keeps the loop in place; one through the array does
      * not, so that the element moved into the hole is skipped, or, when the last element was erased, the loop runs
      * past the end (`overran`; reading on from there is undefined). It shows each element once and stays in bounds if
      * and only if the callback never erases through the array. */
    method ForEach(f: seq<T> -> Reply) returns (shown: seq<T>, ghost skipped: multiset<T>, overran: bool)
      modifies this
      ensures Outcome(shown, v, overran) == ForwardRun(f, old(v), 0, [])
      ensures multiset(shown) + skipped == multiset(old(v))
      ensures multiset(v) == multiset(Kept(f, shown)) + skipped
      ensures multiset(shown) == multiset(old(v)) && !overran <==> NeverByArray(f, old(v), 0, [])
    {
      hide Accounted, Kept, ByAccessorOnly, SwapErased, ForwardRun, NeverByArray;
      shown, skipped, overran := [], multiset{}, false;
      AccountedStart(v, f);
      var handle: nat := 0;
      while handle != |v|
        invariant handle <= |v| && !overran
        invariant Accounted(old(v), v, handle, f, shown, skipped)
        invariant ByAccessorOnly(f, shown) <==> skipped == multiset{}
        invariant ForwardRun(f, old(v), 0, []) == ForwardRun(f, v, handle, shown)
        invariant NeverByArray(f, old(v), 0, []) <==> ByAccessorOnly(f, shown) && NeverByArray(f, v, handle, shown)
        decreases |v| - handle
      {
        var e := v[handle];
        var reply := f(shown + [e]);
        ShownSnoc(f, shown, e);
        RunStep(f, v, handle, shown);
        var justErased := false;
        if reply.Keep? {
          Kept1(old(v), v, handle, f, shown, skipped);
        } else {
          Erased1(old(v), v, handle, f, shown, skipped);
          Erase(handle);
          justErased := reply.EraseByAccessor?;
        }
        shown := shown + [e];
        if !justErased {
          if reply.EraseByArray? {
            if handle == |v| {
              overran := true;
              break;
            }
            Skipped1(old(v), v, handle, f, shown, skipped);
            skipped := skipped + multiset{v[handle]};
          }
          handle := handle + 1;
        }
      }
      AccountedEnd(old(v), v, f, shown, skipped);
      RunEnd(f, v, shown);
    }

    /** The backward loop: erasing the element shown, either way, only moves elements already shown. */
    method ForEachBackward(f: seq<T> -> Reply) returns (shown: seq<T>)
      modifies this
      ensures |shown| == |old(v)|
      ensures forall i :: 0 <= i < |shown| ==> shown[i] == old(v)[|shown| - 1 - i]
      ensures multiset(v) == multiset(Kept(f, shown))
    {
      hide Rewound, Kept, SwapErased;
      shown := [];
      var handle := |v| - 1;
      RewoundStart(v, f);
      while handle != -1
        invariant -1 <= handle < |v| && handle < |old(v)|
        invariant Rewound(old(v), v, handle + 1, f, shown)
        decreases handle
      {
        var e := v[handle];
        if f(shown + [e]).Keep? {
          RewoundKept(old(v), v, handle, f, shown);
        } else {
          RewoundErased(old(v), v, handle, f, shown);
          Erase(handle);
        }
        shown := shown + [e];
        handle := handle - 1;
      }
      RewoundAll(old(v), v, f, shown);
    }
  }

  lemma RewoundAll<T>(start: seq<T>, v: seq<T>, f: seq<T> -> Reply, shown: seq<T>)
    requires Rewound(start, v, 0, f, shown)
    ensures |shown| == |start| && multiset(v) == multiset(Kept(f, shown))
    ensures forall i :: 0 <= i < |shown| ==> shown[i] == start[|shown| - 1 - i]
  {
    assert v[0..] == v;
  }
}
