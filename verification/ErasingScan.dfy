/** The plain scan that loops over erasable elements stand for: the elements of a list get their turn in order, a
  * callback is given those that qualify and are un-erased at that moment, and it may erase any elements, also ones
  * whose turn is still to come. */
module ErasingScan {
  import opened Prelude

  /** What a callback answers: whether to stop, and the elements it erased, in order. */
  datatype Reply = Reply(stop: bool, erase: seq<nat>)

  /** The elements erased by the replies to the first `k` calls. */
  ghost function ErasedBy(f: seq<nat> -> Reply, calls: seq<nat>, k: nat): set<nat>
    requires k <= |calls|
  {
    if k == 0 then {} else ErasedBy(f, calls, k - 1) + Elements(f(calls[..k]).erase)
  }

  /** The number of erasures that the replies made after the first `from` calls. */
  ghost function Erasures(f: seq<nat> -> Reply, calls: seq<nat>, from: nat): nat
    decreases |calls|
  {
    if |calls| <= from then 0 else Erasures(f, calls[..|calls| - 1], from) + |f(calls).erase|
  }

  /** How a scan stands: the erased elements, the calls made, and whether a reply stopped it. */
  datatype Progress = Progress(erased: set<nat>, calls: seq<nat>, stop: bool)

  /** The scan of `s`, where those in `among` qualify. The callback sees all calls so far, the last one included. */
  ghost function Scanned(among: set<nat>, f: seq<nat> -> Reply, s: seq<nat>, erased: set<nat>,
                         calls: seq<nat>): Progress
    decreases |s|
  {
    if s == [] then Progress(erased, calls, false)
    else if s[0] !in among - erased then Scanned(among, f, s[1..], erased, calls)
    else
      var now, reply := calls + [s[0]], f(calls + [s[0]]);
      if reply.stop then Progress(erased + Elements(reply.erase), now, true)
      else Scanned(among, f, s[1..], erased + Elements(reply.erase), now)
  }

  /** Scanning two lists in a row is scanning both. */
  lemma {:induction false} ScannedConcat(among: set<nat>, f: seq<nat> -> Reply, s: seq<nat>, r: seq<nat>,
                                         erased: set<nat>, calls: seq<nat>)
    ensures var q := Scanned(among, f, s, erased, calls);
            Scanned(among, f, s + r, erased, calls) == if q.stop then q else Scanned(among, f, r, q.erased, q.calls)
    decreases |s|
  {
    if s == [] {
      assert s + r == r;
    } else {
      assert (s + r)[1..] == s[1..] + r;
      if s[0] !in among - erased {
        ScannedConcat(among, f, s[1..], r, erased, calls);
      } else {
        var now := calls + [s[0]];
        ScannedConcat(among, f, s[1..], r, erased + Elements(f(now).erase), now);
      }
    }
  }

  /** Where nothing qualifies, nothing happens. */
  lemma {:induction false} ScannedNone(among: set<nat>, f: seq<nat> -> Reply, s: seq<nat>, erased: set<nat>,
                                       calls: seq<nat>)
    requires forall x :: x in s ==> x !in among
    ensures Scanned(among, f, s, erased, calls) == Progress(erased, calls, false)
  {
    if s != [] { ScannedNone(among, f, s[1..], erased, calls); }
  }

  lemma ScannedOne(among: set<nat>, f: seq<nat> -> Reply, h: nat, erased: set<nat>, calls: seq<nat>)
    ensures var now := calls + [h];
            Scanned(among, f, [h], erased, calls)
            == if h in among - erased then Progress(erased + Elements(f(now).erase), now, f(now).stop)
               else Progress(erased, calls, false)
  {
    assert [h][1..] == [];
  }

  // ---------------------------------------------------------------------------------------------------------------
  // What a scan means
  // ---------------------------------------------------------------------------------------------------------------

  /** The element `s[j]` had its turn: the scan was not stopped before it. */
  ghost predicate HadTurn(s: seq<nat>, j: nat, calls: seq<nat>, stop: bool)
    requires j < |s|
  {
    stop ==> calls != [] && calls[|calls| - 1] in s[j..]
  }

  /** The element `s[j]` was called exactly if it qualifies and neither was erased at the start nor by a reply to one of
    * the calls before its turn. */
  ghost predicate RightlyCalled(among: set<nat>, f: seq<nat> -> Reply, s: seq<nat>, j: nat, erased: set<nat>,
                                calls: seq<nat>)
    requires j < |s|
  {
    var k := |Among(s[..j], Elements(calls))|;
    k <= |calls| && (s[j] in calls <==> s[j] in among && s[j] !in erased + ErasedBy(f, calls, k))
  }

  lemma ErasedByPrefix(f: seq<nat> -> Reply, calls: seq<nat>, h: nat, k: nat)
    requires k <= |calls|
    ensures ErasedBy(f, calls + [h], k) == ErasedBy(f, calls, k)
  {
    if k > 0 {
      ErasedByPrefix(f, calls, h, k - 1);
      assert (calls + [h])[..k] == calls[..k];
    }
  }

  // An element of `front` is rightly called whether or not `h` comes behind it.
  lemma RightlyBefore(among: set<nat>, f: seq<nat> -> Reply, front: seq<nat>, h: nat, j: nat, erased: set<nat>,
                      calls: seq<nat>, calls': seq<nat>)
    requires h !in front && j < |front| && (calls' == calls || calls' == calls + [h])
    requires RightlyCalled(among, f, front, j, erased, calls)
    ensures RightlyCalled(among, f, front + [h], j, erased, calls')
  {
    var s := front + [h];
    assert s[j] == front[j] && s[..j] == front[..j];
    AmongSame(s[..j], Elements(calls), Elements(calls'));
    var k := |Among(s[..j], Elements(calls))|;
    if calls' != calls { ErasedByPrefix(f, calls, h, k); }
    assert front[j] in calls' <==> front[j] in calls;
  }

  // The last element of the list.
  lemma RightlyLast(among: set<nat>, f: seq<nat> -> Reply, front: seq<nat>, h: nat, erased: set<nat>, calls: seq<nat>,
                    calls': seq<nat>)
    requires h !in front && calls == Among(front, Elements(calls)) && h !in calls
    requires calls' == if h in among - (erased + ErasedBy(f, calls, |calls|)) then calls + [h] else calls
    ensures RightlyCalled(among, f, front + [h], |front|, erased, calls')
  {
    var s := front + [h];
    assert s[..|front|] == front && s[|front|] == h;
    AmongSame(front, Elements(calls), Elements(calls'));
    if calls' != calls { ErasedByPrefix(f, calls, h, |calls|); }
  }

  lemma ScannedSnoc(among: set<nat>, f: seq<nat> -> Reply, front: seq<nat>, h: nat, erased: set<nat>)
    ensures var q := Scanned(among, f, front, erased, []);
            Scanned(among, f, front + [h], erased, [])
            == if q.stop || h !in among - q.erased then q
               else Progress(q.erased + Elements(f(q.calls + [h]).erase), q.calls + [h], f(q.calls + [h]).stop)
  {
    hide Scanned;
    var q := Scanned(among, f, front, erased, []);
    ScannedConcat(among, f, front, [h], erased, []);
    ScannedOne(among, f, h, q.erased, q.calls);
  }

  /** The calls are elements of the list in its order, none twice; an element that had its turn was called exactly if
    * it qualifies and was not erased at that moment; what was erased is what the replies erased; and the scan
    * stopped at the first reply that says so. */
  lemma {:induction false} ScanMeaning(among: set<nat>, f: seq<nat> -> Reply, s: seq<nat>, erased: set<nat>)
    requires Distinct(s)
    ensures var q := Scanned(among, f, s, erased, []);
            && q.calls == Among(s, Elements(q.calls)) && Distinct(q.calls)
            && (forall j :: 0 <= j < |s| && HadTurn(s, j, q.calls, q.stop)
                            ==> RightlyCalled(among, f, s, j, erased, q.calls))
            && q.erased == erased + ErasedBy(f, q.calls, |q.calls|)
            && (q.stop ==> q.calls != [] && f(q.calls).stop)
            && forall k :: 0 < k < |q.calls| + (if q.stop then 0 else 1) ==> !f(q.calls[..k]).stop
    decreases |s|
  {
    hide Scanned, RightlyCalled, HadTurn, Among, ErasedBy, Elements;
    MeaningOfNone(among, f, erased);
    if s == [] { return; }
    var n := |s| - 1;
    var front, h := s[..n], s[n];
    LastOf(s);
    var q, r := Scanned(among, f, front, erased, []), Scanned(among, f, s, erased, []);
    ScanMeaning(among, f, front, erased);
    ScannedSnoc(among, f, front, h, erased);
    AmongMembers(front, Elements(q.calls));
    assert h !in q.calls;
    CallsOrdered(front, h, q.calls);
    CallsRightly(among, f, front, h, erased, q.calls, q.stop, r.calls, r.stop);
    if r.calls != q.calls { CalledOnce(f, q.calls, h); }
  }

  lemma MeaningOfNone(among: set<nat>, f: seq<nat> -> Reply, erased: set<nat>)
    ensures Scanned(among, f, [], erased, []) == Progress(erased, [], false)
    ensures Among([], Elements<nat>([])) == [] && ErasedBy(f, [], 0) == {}
  {
  }

  lemma LastOf(s: seq<nat>)
    requires s != [] && Distinct(s)
    ensures var n := |s| - 1;
            && s[n] in Elements(s) && Elements(s[..n]) <= Elements(s) && s == s[..n] + [s[n]]
            && s[n] !in s[..n] && Distinct(s[..n])
  {
  }

  lemma CalledOnce(f: seq<nat> -> Reply, calls: seq<nat>, h: nat)
    ensures var now := calls + [h];
            && ErasedBy(f, now, |now|) == ErasedBy(f, calls, |calls|) + Elements(f(now).erase)
            && now[..|now|] == now && forall k :: 0 <= k <= |calls| ==> now[..k] == calls[..k]
  {
    var now := calls + [h];
    assert now[..|now|] == now;
    ErasedByPrefix(f, calls, h, |calls|);
  }

  lemma CallsOrdered(front: seq<nat>, h: nat, calls: seq<nat>)
    requires h !in front && calls == Among(front, Elements(calls)) && Distinct(calls) && h !in calls
    ensures calls == Among(front + [h], Elements(calls))
    ensures calls + [h] == Among(front + [h], Elements(calls + [h])) && Distinct(calls + [h])
  {
    assert (front + [h])[..|front|] == front;
    AmongSame(front, Elements(calls), Elements(calls + [h]));
  }

  lemma CallsRightly(among: set<nat>, f: seq<nat> -> Reply, front: seq<nat>, h: nat, erased: set<nat>, calls: seq<nat>,
                     stopped: bool, calls': seq<nat>, stop: bool)
    requires h !in front && h !in calls
    requires calls == Among(front, Elements(calls)) && (forall x :: x in calls ==> x in front)
    requires forall j :: 0 <= j < |front| && HadTurn(front, j, calls, stopped)
                         ==> RightlyCalled(among, f, front, j, erased, calls)
    requires if stopped then calls' == calls && stop && calls != []
             else calls' == if h in among - (erased + ErasedBy(f, calls, |calls|)) then calls + [h] else calls
    ensures forall j :: 0 <= j < |front + [h]| && HadTurn(front + [h], j, calls', stop)
                        ==> RightlyCalled(among, f, front + [h], j, erased, calls')
  {
    hide RightlyCalled, Among;
    var s := front + [h];
    forall j | 0 <= j < |s| && HadTurn(s, j, calls', stop) ensures RightlyCalled(among, f, s, j, erased, calls') {
      if j < |front| {
        assert s[j..] == front[j..] + [h];
        assert HadTurn(front, j, calls, stopped);
        RightlyBefore(among, f, front, h, j, erased, calls, calls');
      } else if stopped {
        assert false;
      } else {
        RightlyLast(among, f, front, h, erased, calls, calls');
      }
    }
  }

  /** What the replies to the first `k` calls erased, one by one. */
  lemma {:induction false} ErasedByMeans(f: seq<nat> -> Reply, calls: seq<nat>, k: nat, x: nat)
    requires k <= |calls|
    ensures x in ErasedBy(f, calls, k) <==> exists m :: 0 < m <= k && x in f(calls[..m]).erase
  {
    if k > 0 { ErasedByMeans(f, calls, k - 1, x); }
  }

  // The calls made before the turn of `s[j]` are those of elements before it.
  lemma EarlierCalls(s: seq<nat>, calls: seq<nat>, j: nat, m: nat)
    requires Distinct(s) && calls == Among(s, Elements(calls)) && j <= |s| && m < |calls|
    ensures |Among(s[..j], Elements(calls))| <= |calls|
    ensures m < |Among(s[..j], Elements(calls))| <==> calls[m] in s[..j]
  {
    hide Among, Elements, Distinct;
    var keep := Elements(calls);
    var before, after := Among(s[..j], keep), Among(s[j..], keep);
    assert s == s[..j] + s[j..];
    AmongConcat(s[..j], s[j..], keep);
    AmongMembers(s[..j], keep);
    AmongMembers(s[j..], keep);
    if m < |before| {
      assert calls[m] == before[m] && before[m] in before;
    } else {
      assert calls[m] == after[m - |before|] && after[m - |before|] in after;
      Apart(s, j, calls[m]);
    }
  }

  lemma Apart(s: seq<nat>, j: nat, x: nat)
    requires Distinct(s) && j <= |s| && x in s[j..]
    ensures x !in s[..j]
  {
  }

  lemma RightlyMeans(among: set<nat>, f: seq<nat> -> Reply, s: seq<nat>, j: nat, erased: set<nat>, calls: seq<nat>)
    requires Distinct(s) && calls == Among(s, Elements(calls)) && j < |s|
    requires RightlyCalled(among, f, s, j, erased, calls)
    ensures s[j] in calls
            <==> s[j] in among && s[j] !in erased
                 && forall m :: 0 <= m < |calls| && calls[m] in s[..j] ==> s[j] !in f(calls[..m + 1]).erase
  {
    hide Among, ErasedBy, Elements, Distinct;
    var k := |Among(s[..j], Elements(calls))|;
    ErasedByMeans(f, calls, k, s[j]);
    forall m | 0 <= m < |calls| ensures m < k <==> calls[m] in s[..j] { EarlierCalls(s, calls, j, m); }
    if s[j] in ErasedBy(f, calls, k) {
      var m :| 0 < m <= k && s[j] in f(calls[..m]).erase;
      assert calls[m - 1] in s[..j] && s[j] in f(calls[..m - 1 + 1]).erase;
    }
  }

  /** What a scan does, without auxiliary notions. An element has its turn unless the scan stopped at an earlier one.
    * It is called exactly if it qualifies, was not erased at the start, and no reply to a call of an earlier element
    * erased it. What is erased at the end was erased at the start or by some reply. */
  lemma ScanCalls(among: set<nat>, f: seq<nat> -> Reply, s: seq<nat>, erased: set<nat>)
    requires Distinct(s)
    ensures var q := Scanned(among, f, s, erased, []);
            && (forall j :: 0 <= j < |s| && (q.stop ==> q.calls != [] && q.calls[|q.calls| - 1] in s[j..]) ==>
                  (s[j] in q.calls
                   <==> s[j] in among && s[j] !in erased
                        && forall m :: 0 <= m < |q.calls| && q.calls[m] in s[..j] ==>
                             s[j] !in f(q.calls[..m + 1]).erase))
            && forall x :: x in q.erased
                           <==> x in erased || exists m :: 0 < m <= |q.calls| && x in f(q.calls[..m]).erase
  {
    hide Scanned, RightlyCalled, Among, ErasedBy, Elements;
    var q := Scanned(among, f, s, erased, []);
    ScanMeaning(among, f, s, erased);
    forall j | 0 <= j < |s| && (q.stop ==> q.calls != [] && q.calls[|q.calls| - 1] in s[j..])
      ensures s[j] in q.calls
              <==> s[j] in among && s[j] !in erased
                   && forall m :: 0 <= m < |q.calls| && q.calls[m] in s[..j] ==> s[j] !in f(q.calls[..m + 1]).erase
    {
      assert HadTurn(s, j, q.calls, q.stop);
      RightlyMeans(among, f, s, j, erased, q.calls);
    }
    forall x ensures x in q.erased
                     <==> x in erased || exists m :: 0 < m <= |q.calls| && x in f(q.calls[..m]).erase
    {
      ErasedByMeans(f, q.calls, |q.calls|, x);
    }
  }

  // ---------------------------------------------------------------------------------------------------------------
  // Callbacks that erase only what they have been given
  // ---------------------------------------------------------------------------------------------------------------

  /** Calling back on `s` in order until a reply says stop; `f` sees every call so far, the last one included. */
  ghost function Calls(f: seq<nat> -> Reply, calls: seq<nat>, s: seq<nat>): (seq<nat>, bool)
    decreases |s|
  {
    if s == [] then (calls, false)
    else if f(calls + [s[0]]).stop then (calls + [s[0]], true)
    else Calls(f, calls + [s[0]], s[1..])
  }

  /** The calls made are a prefix of the list, and all of it unless stopped. */
  lemma {:induction false} CallsPrefix(f: seq<nat> -> Reply, calls: seq<nat>, s: seq<nat>)
    ensures var (calls', stop) := Calls(f, calls, s);
            && |calls| <= |calls'| <= |calls| + |s|
            && calls' == calls + s[..|calls'| - |calls|]
            && (stop ==> |calls'| > |calls| && f(calls').stop)
            && (!stop ==> calls' == calls + s)
            && forall k :: |calls| < k < |calls'| ==> !f(calls'[..k]).stop
    decreases |s|
  {
    if s != [] && !f(calls + [s[0]]).stop {
      CallsPrefix(f, calls + [s[0]], s[1..]);
      var calls' := Calls(f, calls + [s[0]], s[1..]).0;
      assert calls' == calls + s[..|calls'| - |calls|];
      assert calls'[..|calls| + 1] == calls + [s[0]];
    }
  }

  /** Every reply erases only elements that the callback has been given so far. */
  ghost predicate ErasesGiven(f: seq<nat> -> Reply) {
    forall calls: seq<nat> :: Elements(f(calls).erase) <= Elements(calls)
  }

  /** For such a callback the calls are the elements that qualify and are un-erased at the start, cut after the first
    * stop. */
  lemma {:induction false} GivenIsPlain(among: set<nat>, f: seq<nat> -> Reply, s: seq<nat>, start: set<nat>,
                                        erased: set<nat>, calls: seq<nat>)
    requires Distinct(s) && ErasesGiven(f) && start <= erased <= start + Elements(calls)
    requires Elements(calls) !! Elements(s)
    ensures var q := Scanned(among, f, s, erased, calls);
            (q.calls, q.stop) == Calls(f, calls, Among(s, among - start))
    decreases |s|
  {
    if s != [] {
      hide Elements, Among, ErasesGiven;
      var h, rest := s[0], s[1..];
      FirstOf(s, among - start);
      if h in Elements(calls) { assert false; }
      if h in among - erased {
        var now := calls + [h];
        GivenGrows(f, calls, h, rest);
        GivenIsPlain(among, f, rest, start, erased + Elements(f(now).erase), now);
      } else {
        GivenIsPlain(among, f, rest, start, erased, calls);
      }
    }
  }

  lemma FirstOf(s: seq<nat>, keep: set<nat>)
    requires s != [] && Distinct(s)
    ensures var h, rest := s[0], s[1..];
            && h in Elements(s) && Elements(rest) <= Elements(s) && h !in rest && Distinct(rest)
            && (h in keep ==>
                  Among(s, keep) != [] && Among(s, keep)[0] == h && Among(s, keep)[1..] == Among(rest, keep))
            && (h !in keep ==> Among(s, keep) == Among(rest, keep))
  {
    var h, rest := s[0], s[1..];
    assert s == [h] + rest && forall i :: 0 <= i < |rest| ==> rest[i] == s[i + 1];
    AmongConcat([h], rest, keep);
    assert Among([h], keep) == if h in keep then [h] else [];
  }

  lemma GivenGrows(f: seq<nat> -> Reply, calls: seq<nat>, h: nat, rest: seq<nat>)
    requires ErasesGiven(f) && h !in rest
    ensures var now := calls + [h];
            && Elements(f(now).erase) <= Elements(now) && Elements(now) == Elements(calls) + {h}
            && (Elements(calls) !! Elements(rest) ==> Elements(now) !! Elements(rest))
  {
    ElementsSnoc(calls, h);
  }

  /** Every reply erases nothing or just the element that the callback is given. */
  ghost predicate ErasesOwn(f: seq<nat> -> Reply) {
    forall calls: seq<nat> :: f(calls).erase == [] || (calls != [] && f(calls).erase == [calls[|calls| - 1]])
  }

  lemma OwnIsGiven(f: seq<nat> -> Reply)
    requires ErasesOwn(f)
    ensures ErasesGiven(f)
  {
  }

  /** Then no element is erased twice. */
  lemma {:induction false} OwnErasedOnce(f: seq<nat> -> Reply, calls: seq<nat>, erased: set<nat>)
    requires ErasesOwn(f) && Distinct(calls) && forall x :: x in calls ==> x !in erased
    ensures var out := ErasedBy(f, calls, |calls|);
            out <= Elements(calls) && out !! erased && Erasures(f, calls, 0) == |out|
  {
    if calls != [] {
      hide ErasedBy, Erasures, Elements, ErasesOwn;
      LastOf(calls);
      var front, h := calls[..|calls| - 1], calls[|calls| - 1];
      OwnErasedOnce(f, front, erased);
      CalledOnce(f, front, h);
      OwnReply(f, front, h);
    }
  }

  lemma OwnReply(f: seq<nat> -> Reply, calls: seq<nat>, h: nat)
    requires ErasesOwn(f) && h !in calls
    ensures var now := calls + [h];
            && (f(now).erase == [] || f(now).erase == [h])
            && Elements(f(now).erase) == (if f(now).erase == [] then {} else {h})
            && Erasures(f, now, 0) == Erasures(f, calls, 0) + |f(now).erase|
            && Elements(now) == Elements(calls) + {h} && h !in Elements(calls)
  {
    ElementsSnoc(calls, h);
    assert (calls + [h])[..|calls|] == calls;
  }

  /** Every reply erases only elements of `keys`. */
  ghost predicate ErasesAmong(f: seq<nat> -> Reply, keys: set<nat>) {
    forall calls: seq<nat> :: Elements(f(calls).erase) <= keys
  }

  lemma {:induction false} ErasuresJoin(f: seq<nat> -> Reply, calls: seq<nat>, mid: seq<nat>, from: nat)
    requires from <= |mid| && mid <= calls
    ensures Erasures(f, calls, from) == Erasures(f, mid, from) + Erasures(f, calls, |mid|)
    decreases |calls|
  {
    if |mid| < |calls| {
      ErasuresJoin(f, calls[..|calls| - 1], mid, from);
    } else {
      assert mid == calls;
    }
  }

  lemma ErasuresOne(f: seq<nat> -> Reply, calls: seq<nat>, h: nat)
    ensures Erasures(f, calls, |calls|) == 0
    ensures Erasures(f, calls + [h], |calls|) == |f(calls + [h]).erase|
  {
    assert (calls + [h])[..|calls|] == calls;
  }
}
