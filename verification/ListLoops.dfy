/** A range-for over the list of list.hpp whose body erases any elements, through the accessor of the loop or through
  * the list. */
module ListLoops {
  import opened Prelude
  import opened LinkedList
  import opened ErasingScan

  /** One erasure in the body of the loop: `e.erase()`, or `list.erase(h)` for any handle. Erasing what is not there any
    * more is left out: the body must not do it. */
  datatype Erasure = Here | Other(h: nat)

  /** The first element from position `i` of `o` on that is alive. */
  ghost function FirstAlive(o: seq<nat>, i: nat, alive: set<nat>): Option<nat>
    requires i <= |o|
    decreases |o| - i
  {
    if i == |o| then None else if o[i] in alive then Some(o[i]) else FirstAlive(o, i + 1, alive)
  }

  lemma {:induction false} FirstAliveIs(o: seq<nat>, i: nat, alive: set<nat>)
    requires i <= |o|
    ensures FirstAlive(o, i, alive) == Ith(Among(o[i..], alive), 0)
    decreases |o| - i
  {
    if i < |o| {
      FirstAliveIs(o, i + 1, alive);
      assert o[i..] == [o[i]] + o[i + 1..];
      AmongConcat([o[i]], o[i + 1..], alive);
      assert Among([o[i]], alive) == if o[i] in alive then [o[i]] else [];
    }
  }

  /** Taking other elements out does not change the first one that is alive, as long as it stays. */
  lemma {:induction false} FirstAliveStays(o: seq<nat>, i: nat, alive: set<nat>, alive': set<nat>)
    requires i <= |o| && alive' <= alive
    requires FirstAlive(o, i, alive).Some? ==> FirstAlive(o, i, alive).value in alive'
    ensures FirstAlive(o, i, alive') == FirstAlive(o, i, alive)
    decreases |o| - i
  {
    if i < |o| && o[i] !in alive { FirstAliveStays(o, i + 1, alive, alive'); }
  }

  /** Where an element is in what is left of the list, what follows it, and what is left without it. */
  lemma AmongAt(o: seq<nat>, i: nat, alive: set<nat>)
    requires Distinct(o) && i < |o| && o[i] in alive
    ensures var at, left := |Among(o[..i], alive)|, Among(o, alive);
            && at < |left| && left[at] == o[i]
            && Ith(left, at + 1) == FirstAlive(o, i + 1, alive)
            && Without(left, at) == Among(o, alive - {o[i]})
  {
    hide Among, Without, Ith, FirstAlive;
    var front, rest, h := o[..i], o[i + 1..], o[i];
    AroundIt(o, i);
    AmongAround(front, h, rest, alive);
    AmongAround(front, h, rest, alive - {h});
    AmongSame(front, alive, alive - {h});
    AmongSame(rest, alive, alive - {h});
    SplitAround(Among(front, alive), h, Among(rest, alive));
    FirstAliveIs(o, i + 1, alive);
  }

  lemma AroundIt(o: seq<nat>, i: nat)
    requires Distinct(o) && i < |o|
    ensures o == o[..i] + ([o[i]] + o[i + 1..]) && o[i] !in o[..i] && o[i] !in o[i + 1..]
  {
  }

  lemma AmongAround(front: seq<nat>, h: nat, rest: seq<nat>, alive: set<nat>)
    ensures Among(front + ([h] + rest), alive)
            == if h in alive then Among(front, alive) + ([h] + Among(rest, alive))
               else Among(front, alive) + Among(rest, alive)
  {
    hide Among;
    AmongConcat(front, [h] + rest, alive);
    AmongConcat([h], rest, alive);
    AmongOne(h, alive);
    assert [] + Among(rest, alive) == Among(rest, alive);
  }

  lemma AmongOne(h: nat, alive: set<nat>)
    ensures Among([h], alive) == if h in alive then [h] else []
  {
    assert [h][..0] == [];
  }

  // ---------------------------------------------------------------------------------------------------------------
  // One turn
  // ---------------------------------------------------------------------------------------------------------------

  /** What a body has done so far: what is left alive, and the link that the accessor cached when it erased. */
  datatype Turn = Turn(alive: set<nat>, cached: Option<Option<nat>>)

  ghost function After(o: seq<nat>, i: nat, t: Turn, e: Erasure): Turn
    requires i < |o|
  {
    match e
    case Here => if o[i] in t.alive then Turn(t.alive - {o[i]}, Some(FirstAlive(o, i + 1, t.alive))) else t
    case Other(h) => Turn(t.alive - {h}, t.cached)
  }

  ghost function AfterAll(o: seq<nat>, i: nat, alive: set<nat>, es: seq<Erasure>): Turn
    requires i < |o|
  {
    if es == [] then Turn(alive, None) else After(o, i, AfterAll(o, i, alive, es[..|es| - 1]), es[|es| - 1])
  }

  /** Stepping on fails: the link is read from an erased node, or it leads to one. */
  ghost predicate LeftBehind(h: nat, t: Turn) {
    match t.cached
    case None => h !in t.alive
    case Some(link) => link.Some? && link.value !in t.alive
  }

  predicate Erases(e: Erasure, h: nat) {
    match e case Here => true case Other(g) => g == h
  }

  /** The erasure at `k` is the first one that erases the element `h` of this turn. */
  ghost predicate FirstErases(es: seq<Erasure>, h: nat, k: nat) {
    k < |es| && Erases(es[k], h) && forall j :: 0 <= j < k ==> !Erases(es[j], h)
  }

  /** What a body at position `i` may do: it erases the element it is at through the accessor only, and, having done
    * that, it does not erase the element that followed it then. */
  ghost predicate SafeBody(o: seq<nat>, i: nat, alive: set<nat>, es: seq<Erasure>)
    requires i < |o|
  {
    forall k: nat :: FirstErases(es, o[i], k) ==>
      && es[k].Here?
      && forall j :: k < j < |es| && es[j].Other? ==>
           FirstAlive(o, i + 1, AfterAll(o, i, alive, es[..k]).alive) != Some(es[j].h)
  }

  lemma AfterSnoc(o: seq<nat>, i: nat, alive: set<nat>, es: seq<Erasure>, e: Erasure)
    requires i < |o|
    ensures AfterAll(o, i, alive, es + [e]) == After(o, i, AfterAll(o, i, alive, es), e)
  {
    assert (es + [e])[..|es|] == es;
  }

  /** The handles a body erased, as a reply of the plain scan. */
  function HandlesOf(es: seq<Erasure>, h: nat): (hs: seq<nat>)
    ensures |hs| == |es|
  {
    seq(|es|, k requires 0 <= k < |es| => match es[k] case Here => h case Other(g) => g)
  }

  /** What a body does to the list is to take out what it erases. */
  lemma {:induction false} AfterTakesOut(o: seq<nat>, i: nat, alive: set<nat>, es: seq<Erasure>)
    requires i < |o|
    ensures AfterAll(o, i, alive, es).alive == alive - Elements(HandlesOf(es, o[i]))
  {
    if es != [] {
      var n := |es| - 1;
      AfterTakesOut(o, i, alive, es[..n]);
      var hs := HandlesOf(es, o[i]);
      assert hs == HandlesOf(es[..n], o[i]) + [hs[n]];
      ElementsSnoc(HandlesOf(es[..n], o[i]), hs[n]);
    }
  }

  /** Since the erasure at `k`, the first one of the element of this turn, what is cached is what followed then, and
    * that is alive until it is erased. */
  ghost predicate CachedSince(o: seq<nat>, i: nat, alive: set<nat>, es: seq<Erasure>, k: nat, t: Turn)
    requires i < |o|
  {
    FirstErases(es, o[i], k)
    && var before := AfterAll(o, i, alive, es[..k]).alive;
       var link := FirstAlive(o, i + 1, before);
       && t.alive <= before && o[i] !in t.alive
       && t.cached == (if es[k].Here? then Some(link) else None)
       && (link.Some? ==> (link.value in t.alive <==> NotErased(es, k, link.value)))
  }

  ghost predicate NotErased(es: seq<Erasure>, k: nat, h: nat) {
    forall j :: k < j < |es| && es[j].Other? ==> es[j].h != h
  }

  lemma {:induction false} FirstAliveIn(o: seq<nat>, i: nat, alive: set<nat>)
    requires i <= |o|
    ensures var h := FirstAlive(o, i, alive); h.Some? ==> h.value in alive && h.value in o[i..]
    decreases |o| - i
  {
    if i < |o| && o[i] !in alive { FirstAliveIn(o, i + 1, alive); }
  }

  // The erasure just made is the first one of the element of this turn.
  lemma CachedNow(o: seq<nat>, i: nat, alive: set<nat>, es: seq<Erasure>, e: Erasure)
    requires Distinct(o) && i < |o| && Erases(e, o[i]) && forall j :: 0 <= j < |es| ==> !Erases(es[j], o[i])
    requires var t := AfterAll(o, i, alive, es); o[i] in t.alive && t.cached == None
    ensures CachedSince(o, i, alive, es + [e], |es|, After(o, i, AfterAll(o, i, alive, es), e))
  {
    var now := es + [e];
    assert now[..|es|] == es && now[|es|] == e;
    FirstAliveIn(o, i + 1, AfterAll(o, i, alive, es).alive);
    hide FirstAlive, AfterAll;
  }

  // An erasure after that.
  lemma CachedStill(o: seq<nat>, i: nat, alive: set<nat>, es: seq<Erasure>, e: Erasure, k: nat, t: Turn)
    requires i < |o| && CachedSince(o, i, alive, es, k, t)
    ensures CachedSince(o, i, alive, es + [e], k, After(o, i, t, e))
  {
    hide FirstAlive, AfterAll;
    var now := es + [e];
    assert now[..k] == es[..k] && now[k] == es[k] && now[|es|] == e;
    assert forall j :: 0 <= j < |es| ==> now[j] == es[j];
  }

  /** As long as the body has not erased the element it is at, nothing is cached. */
  lemma {:induction false} TurnFacts(o: seq<nat>, i: nat, alive: set<nat>, es: seq<Erasure>)
    requires Distinct(o) && i < |o| && o[i] in alive
    ensures var t := AfterAll(o, i, alive, es);
            && t.alive <= alive
            && (o[i] in t.alive ==> t.cached == None && forall j :: 0 <= j < |es| ==> !Erases(es[j], o[i]))
            && (o[i] !in t.alive ==> exists k: nat :: CachedSince(o, i, alive, es, k, t))
  {
    if es != [] {
      hide CachedSince, FirstAlive;
      var front, e := es[..|es| - 1], es[|es| - 1];
      assert es == front + [e];
      TurnFacts(o, i, alive, front);
      var t := AfterAll(o, i, alive, front);
      if o[i] in t.alive {
        if Erases(e, o[i]) { CachedNow(o, i, alive, front, e); }
      } else {
        var k: nat :| CachedSince(o, i, alive, front, k, t);
        CachedStill(o, i, alive, front, e, k, t);
      }
    }
  }

  /** Stepping on fails exactly after a body that is not safe. */
  lemma SafeIff(o: seq<nat>, i: nat, alive: set<nat>, es: seq<Erasure>)
    requires Distinct(o) && i < |o| && o[i] in alive
    ensures SafeBody(o, i, alive, es) <==> !LeftBehind(o[i], AfterAll(o, i, alive, es))
  {
    hide FirstAlive, AfterAll;
    var t := AfterAll(o, i, alive, es);
    TurnFacts(o, i, alive, es);
    if o[i] !in t.alive {
      var k: nat :| CachedSince(o, i, alive, es, k, t);
      assert FirstErases(es, o[i], k);
      assert forall k': nat :: FirstErases(es, o[i], k') ==> k' == k;
    }
  }

  /** Where the loop steps to. */
  ghost function Step(o: seq<nat>, i: nat, t: Turn): Option<nat>
    requires i < |o|
  {
    match t.cached
    case Some(link) => link
    case None => FirstAlive(o, i + 1, t.alive)
  }

  /** After a safe body that is the next element still alive. */
  lemma StepIsNext(o: seq<nat>, i: nat, alive: set<nat>, es: seq<Erasure>)
    requires Distinct(o) && i < |o| && o[i] in alive && !LeftBehind(o[i], AfterAll(o, i, alive, es))
    ensures Step(o, i, AfterAll(o, i, alive, es)) == FirstAlive(o, i + 1, AfterAll(o, i, alive, es).alive)
  {
    hide AfterAll, FirstAlive;
    var t := AfterAll(o, i, alive, es);
    TurnFacts(o, i, alive, es);
    if o[i] !in t.alive {
      var k: nat :| CachedSince(o, i, alive, es, k, t);
      FirstAliveStays(o, i + 1, AfterAll(o, i, alive, es[..k]).alive, t.alive);
    }
  }

  // ---------------------------------------------------------------------------------------------------------------
  // The loop
  // ---------------------------------------------------------------------------------------------------------------

  /** How a loop ended: what it showed, what was left of the list, and whether it got stuck stepping on. */
  datatype Outcome = Outcome(shown: seq<nat>, alive: set<nat>, stuck: bool)

  /** The loop from position `i` on; the body is given the elements shown so far. */
  ghost function Run(f: seq<nat> -> seq<Erasure>, o: seq<nat>, i: nat, alive: set<nat>, shown: seq<nat>): Outcome
    requires i <= |o|
    decreases |o| - i
  {
    if i == |o| then Outcome(shown, alive, false)
    else if o[i] !in alive then Run(f, o, i + 1, alive, shown)
    else
      var now := shown + [o[i]];
      var t := AfterAll(o, i, alive, f(now));
      if LeftBehind(o[i], t) then Outcome(now, t.alive, true) else Run(f, o, i + 1, t.alive, now)
  }

  /** Every body is safe. */
  ghost predicate AllSafe(f: seq<nat> -> seq<Erasure>, o: seq<nat>, i: nat, alive: set<nat>, shown: seq<nat>)
    requires i <= |o|
    decreases |o| - i
  {
    i == |o|
    || if o[i] !in alive then AllSafe(f, o, i + 1, alive, shown)
       else
         var now := shown + [o[i]];
         SafeBody(o, i, alive, f(now)) && AllSafe(f, o, i + 1, AfterAll(o, i, alive, f(now)).alive, now)
  }

  lemma {:induction false} StuckIff(f: seq<nat> -> seq<Erasure>, o: seq<nat>, i: nat, alive: set<nat>, shown: seq<nat>)
    requires Distinct(o) && i <= |o|
    ensures Run(f, o, i, alive, shown).stuck <==> !AllSafe(f, o, i, alive, shown)
    decreases |o| - i
  {
    hide SafeBody, LeftBehind, AfterAll;
    if i < |o| {
      if o[i] !in alive {
        StuckIff(f, o, i + 1, alive, shown);
      } else {
        var now := shown + [o[i]];
        SafeIff(o, i, alive, f(now));
        StuckIff(f, o, i + 1, AfterAll(o, i, alive, f(now)).alive, now);
      }
    }
  }

  /** The bodies as replies of the plain scan. */
  ghost function Replies(f: seq<nat> -> seq<Erasure>): seq<nat> -> Reply {
    (calls: seq<nat>) => Reply(false, if calls == [] then [] else HandlesOf(f(calls), calls[|calls| - 1]))
  }

  /** A loop that does not get stuck does what the plain scan of the list does: it shows each element that is alive when
    * its turn comes, and takes out what the bodies erase. */
  lemma {:induction false} RunIsScan(f: seq<nat> -> seq<Erasure>, o: seq<nat>, i: nat, all: set<nat>, erased: set<nat>,
                                     shown: seq<nat>)
    requires i <= |o| && Elements(o) <= all && !Run(f, o, i, all - erased, shown).stuck
    ensures var r, q := Run(f, o, i, all - erased, shown), Scanned(all, Replies(f), o[i..], erased, shown);
            q == Progress(q.erased, r.shown, false) && r.alive == all - q.erased
    decreases |o| - i
  {
    hide LeftBehind, AfterAll, HandlesOf;
    if i < |o| {
      assert o[i] in Elements(o) && o[i..][1..] == o[i + 1..];
      if o[i] in erased {
        RunIsScan(f, o, i + 1, all, erased, shown);
      } else {
        var now := shown + [o[i]];
        var out := Elements(HandlesOf(f(now), o[i]));
        AfterTakesOut(o, i, all - erased, f(now));
        assert all - erased - out == all - (erased + out);
        RunIsScan(f, o, i + 1, all, erased + out, now);
      }
    }
  }

  /** The loop skips what is not alive. */
  lemma {:induction false} RunSkips(f: seq<nat> -> seq<Erasure>, o: seq<nat>, i: nat, alive: set<nat>, shown: seq<nat>)
    returns (j: nat)
    requires i <= |o|
    ensures i <= j <= |o| && Run(f, o, i, alive, shown) == Run(f, o, j, alive, shown)
    ensures FirstAlive(o, i, alive) == Ith(o, j) && (j < |o| ==> o[j] in alive)
    decreases |o| - i
  {
    if i < |o| && o[i] !in alive {
      j := RunSkips(f, o, i + 1, alive, shown);
    } else {
      j := i;
    }
  }

  // ---------------------------------------------------------------------------------------------------------------
  // The loop in place
  // ---------------------------------------------------------------------------------------------------------------

  /** The list is what is left alive of `o`, and its elements have the values they had in `start`. */
  ghost predicate LeftOf<T(!new)>(list: List<T>, o: seq<nat>, alive: set<nat>, start: map<nat, T>)
    reads list, list.alloc
  {
    && list.Valid() && Distinct(o) && alive <= Elements(o) && list.order == Among(o, alive)
    && Content(list.alloc.v) == start - (Elements(o) - alive)
  }

  /** Whether there is an element with this handle. */
  method Found<T(!new)>(list: List<T>, h: nat) returns (found: bool)
    requires list.Valid()
    ensures found <==> h in list.order
  {
    found := h < |list.alloc.v| && list.alloc.v[h].Some?;
    assert found <==> IsLive(list.alloc.v, h);
  }

  /** Erases the element if it is there, and returns the link that its accessor cached. */
  method EraseFound<T(!new)>(list: List<T>, h: nat, ghost o: seq<nat>, ghost alive: set<nat>, ghost start: map<nat, T>)
    returns (found: bool, next: Option<nat>)
    requires LeftOf(list, o, alive, start)
    modifies list, list.alloc
    ensures LeftOf(list, o, alive - {h}, start) && (found <==> h in alive)
    ensures found ==> forall i :: 0 <= i < |o| && o[i] == h ==> next == FirstAlive(o, i + 1, alive)
  {
    hide Among, Elements, Content, FirstAlive;
    LeftMembers(o, alive);
    found := Found(list, h);
    if !found {
      assert alive - {h} == alive;
      return found, None;
    }
    ghost var i :| 0 <= i < |o| && o[i] == h;
    AmongAt(o, i, alive);
    var prev: Option<nat>;
    next, prev := list.Erase(|Among(o[..i], alive)|, h);
    LeftLess(o, alive, h, start);
  }

  lemma LeftMembers(o: seq<nat>, alive: set<nat>)
    requires alive <= Elements(o)
    ensures forall h :: h in Among(o, alive) <==> h in alive
    ensures forall h :: h in alive ==> exists i :: 0 <= i < |o| && o[i] == h
  {
    AmongMembers(o, alive);
  }

  lemma LeftLess<T>(o: seq<nat>, alive: set<nat>, h: nat, start: map<nat, T>)
    requires alive <= Elements(o) && h in alive
    ensures start - (Elements(o) - alive) - {h} == start - (Elements(o) - (alive - {h}))
  {
  }

  /** One body: its erasures in order. */
  method Body<T(!new)>(list: List<T>, h: nat, es: seq<Erasure>, ghost o: seq<nat>, ghost i: nat, ghost alive: set<nat>,
                 ghost start: map<nat, T>)
    returns (cached: Option<Option<nat>>)
    requires LeftOf(list, o, alive, start) && i < |o| && o[i] == h
    modifies list, list.alloc
    ensures var t := AfterAll(o, i, alive, es); LeftOf(list, o, t.alive, start) && cached == t.cached
  {
    hide FirstAlive, LeftOf;
    cached := None;
    for k := 0 to |es|
      invariant var t := AfterAll(o, i, alive, es[..k]); LeftOf(list, o, t.alive, start) && cached == t.cached
    {
      ghost var t := AfterAll(o, i, alive, es[..k]);
      assert es[..k + 1] == es[..k] + [es[k]];
      AfterSnoc(o, i, alive, es[..k], es[k]);
      match es[k] {
        case Here =>
          var found, next := EraseFound(list, h, o, t.alive, start);
          if found { cached := Some(next); }
          assert !found ==> t.alive - {h} == t.alive;
        case Other(g) =>
          var _, _ := EraseFound(list, g, o, t.alive, start);
      }
    }
    assert es[..|es|] == es;
  }

  lemma LeftParts<T(!new)>(list: List<T>, o: seq<nat>, alive: set<nat>, start: map<nat, T>)
    requires LeftOf(list, o, alive, start)
    ensures list.Valid() && Distinct(o) && list.order == Among(o, alive) && alive == Elements(list.order)
    ensures Content(list.alloc.v) == start - (Elements(o) - alive)
    ensures forall h :: h in list.order <==> h in alive
  {
    hide Among, Content;
    AmongMembers(o, alive);
  }

  /** The link of an element that is there. */
  method LinkOf<T(!new)>(list: List<T>, ghost o: seq<nat>, ghost i: nat, ghost alive: set<nat>,
                         ghost start: map<nat, T>, h: nat)
    returns (next: Option<nat>)
    requires LeftOf(list, o, alive, start) && i < |o| && o[i] == h && h in alive
    ensures next == FirstAlive(o, i + 1, alive)
  {
    hide Among, Elements, Content, FirstAlive;
    AmongAt(o, i, alive);
    next := list.Next(|Among(o[..i], alive)|, h);
  }

  /** One turn: the body, and the step to where the cached link or the link of the element leads. */
  method Turned<T(!new)>(list: List<T>, h: nat, es: seq<Erasure>, ghost o: seq<nat>, ghost i: nat,
                         ghost alive: set<nat>, ghost start: map<nat, T>)
    returns (it: Option<nat>, stuck: bool)
    requires LeftOf(list, o, alive, start) && i < |o| && o[i] == h && h in alive
    modifies list, list.alloc
    ensures var t := AfterAll(o, i, alive, es);
            && LeftOf(list, o, t.alive, start)
            && (stuck <==> LeftBehind(h, t))
            && (!stuck ==> it == FirstAlive(o, i + 1, t.alive))
  {
    hide FirstAlive, LeftOf, AfterAll;
    var cached := Body(list, h, es, o, i, alive, start);
    ghost var t := AfterAll(o, i, alive, es);
    LeftParts(list, o, t.alive, start);
    it, stuck := None, false;
    if cached.Some? {
      it := cached.value;
      if it.Some? {
        var found := Found(list, it.value);
        stuck := !found;
      }
    } else {
      var found := Found(list, h);
      if found { it := LinkOf(list, o, i, t.alive, start, h); } else { stuck := true; }
    }
    if !stuck { StepIsNext(o, i, alive, es); }
  }

  /** A range-for whose bodies erase any elements of the list, by either route. It gets stuck stepping on if and only
    * if a body is not safe: it erases the element it is at through the list, or, after erasing it through the
    * accessor, the one that followed. Otherwise it does what the plain scan of the list does. */
  method ForEach<T(!new)>(list: List<T>, f: seq<nat> -> seq<Erasure>) returns (shown: seq<nat>, stuck: bool)
    requires list.Valid()
    modifies list, list.alloc
    ensures list.Valid()
    ensures Outcome(shown, Elements(list.order), stuck) == Run(f, old(list.order), 0, Elements(old(list.order)), [])
    ensures stuck <==> !AllSafe(f, old(list.order), 0, Elements(old(list.order)), [])
    ensures list.order == Among(old(list.order), Elements(list.order))
    ensures Content(list.alloc.v) == Content(old(list.alloc.v)) - (Elements(old(list.order)) - Elements(list.order))
    ensures !stuck ==>
              var all := Elements(old(list.order));
              var q := Scanned(all, Replies(f), old(list.order), {}, []);
              shown == q.calls && Elements(list.order) == all - q.erased && !q.stop
  {
    hide *;
    ghost var o, start, all := list.order, Content(list.alloc.v), Elements(list.order);
    ghost var alive, i := all, 0;
    var it := list.front;
    LoopStart(list, it);
    StuckIff(f, o, 0, all, []);
    shown, stuck := [], false;
    while it.Some?
      invariant LeftOf(list, o, alive, start) && i <= |o| && it == FirstAlive(o, i, alive)
      invariant Run(f, o, 0, all, []) == Run(f, o, i, alive, shown)
      decreases |o| - i
    {
      var h := it.value;
      i := RunSkips(f, o, i, alive, shown);
      IthIs(o, i);
      RunTurn(f, o, i, alive, shown);
      shown := shown + [h];
      ghost var t := AfterAll(o, i, alive, f(shown));
      it, stuck := Turned(list, h, f(shown), o, i, alive, start);
      alive := t.alive;
      if stuck { break; }
      i := i + 1;
    }
    LeftParts(list, o, alive, start);
    if !stuck {
      i := RunSkips(f, o, i, alive, shown);
      IthIs(o, i);
      RunEnd(f, o, alive, shown);
      LoopIsScan(f, o);
    }
  }

  lemma LoopStart<T(!new)>(list: List<T>, it: Option<nat>)
    requires list.Valid() && it == list.front
    ensures var o := list.order;
            && Distinct(o) && LeftOf(list, o, Elements(o), Content(list.alloc.v))
            && it == FirstAlive(o, 0, Elements(o))
  {
    hide Among, Content;
    var o := list.order;
    AmongAll(o, Elements(o));
    FirstAliveIs(o, 0, Elements(o));
    assert o[0..] == o;
    assert Elements(o) - Elements(o) == {};
    assert Content(list.alloc.v) - {} == Content(list.alloc.v);
  }

  lemma {:induction false} AmongAll(o: seq<nat>, keep: set<nat>)
    requires forall h :: h in o ==> h in keep
    ensures Among(o, keep) == o
  {
    if o != [] {
      AmongAll(o[..|o| - 1], keep);
    }
  }

  lemma RunTurn(f: seq<nat> -> seq<Erasure>, o: seq<nat>, i: nat, alive: set<nat>, shown: seq<nat>)
    requires i < |o| && o[i] in alive
    ensures var now := shown + [o[i]];
            var t := AfterAll(o, i, alive, f(now));
            Run(f, o, i, alive, shown)
            == if LeftBehind(o[i], t) then Outcome(now, t.alive, true) else Run(f, o, i + 1, t.alive, now)
  {
    hide AfterAll, LeftBehind;
  }

  lemma RunEnd(f: seq<nat> -> seq<Erasure>, o: seq<nat>, alive: set<nat>, shown: seq<nat>)
    ensures Run(f, o, |o|, alive, shown) == Outcome(shown, alive, false)
  {
  }

  lemma LoopIsScan(f: seq<nat> -> seq<Erasure>, o: seq<nat>)
    requires !Run(f, o, 0, Elements(o), []).stuck
    ensures var all := Elements(o);
            var r, q := Run(f, o, 0, all, []), Scanned(all, Replies(f), o, {}, []);
            r.shown == q.calls && r.alive == all - q.erased && !q.stop
  {
    hide Run, Scanned, Elements;
    assert Elements(o) - {} == Elements(o) && o[0..] == o;
    RunIsScan(f, o, 0, Elements(o), {}, []);
  }

  // ---------------------------------------------------------------------------------------------------------------
  // The two ways to get stuck
  // ---------------------------------------------------------------------------------------------------------------

  /** The body erases the element it is at through the list: its link is read from the erased node. */
  method StuckAtErased<T(!new)>(x: T, y: T) returns (list: List<T>, shown: seq<nat>, stuck: bool)
    ensures stuck && |shown| == 1 && shown[0] !in list.order && |list.order| == 1
  {
    hide LinkedList.List.Valid, Run, AllSafe, Scanned, Content, Among;
    var h0, h1;
    list, h0, h1 := TwoElements(x, y);
    var f: seq<nat> -> seq<Erasure> := calls => if calls == [] then [] else [Other(calls[|calls| - 1])];
    ghost var o := list.order;
    RunStuck(f, o, [Other(h0)], {h1});
    shown, stuck := ForEach(list, f);
    LeftOne(o, list.order);
  }

  /** The body erases the element it is at through the accessor and then the next one: the cached link leads to it. */
  method StuckAtNext<T(!new)>(x: T, y: T) returns (list: List<T>, shown: seq<nat>, stuck: bool)
    ensures stuck && |shown| == 1 && list.order == []
  {
    hide LinkedList.List.Valid, Run, AllSafe, Scanned, Content, Among;
    var h0, h1;
    list, h0, h1 := TwoElements(x, y);
    var f: seq<nat> -> seq<Erasure> := calls => [Here, Other(h1)];
    ghost var o := list.order;
    RunStuck(f, o, [Here, Other(h1)], {});
    shown, stuck := ForEach(list, f);
    AmongNone(o);
  }

  method TwoElements<T(!new)>(x: T, y: T) returns (list: List<T>, h0: nat, h1: nat)
    ensures fresh(list) && fresh(list.alloc) && list.Valid() && list.order == [h0, h1] && h0 != h1
  {
    list := new List();
    h0 := list.EmplaceBack(x);
    h1 := list.EmplaceBack(y);
  }

  lemma RunStuck(f: seq<nat> -> seq<Erasure>, o: seq<nat>, es: seq<Erasure>, left: set<nat>)
    requires |o| == 2 && o[0] != o[1] && f([o[0]]) == es
    requires (es == [Other(o[0])] && left == {o[1]}) || (es == [Here, Other(o[1])] && left == {})
    ensures Run(f, o, 0, Elements(o), []) == Outcome([o[0]], left, true)
  {
    assert Elements(o) == {o[0], o[1]} && [] + [o[0]] == [o[0]];
    if |es| == 1 {
      assert es[..0] == [] && {o[0], o[1]} - {o[0]} == {o[1]};
      assert AfterAll(o, 0, Elements(o), es) == Turn({o[1]}, None);
    } else {
      assert es[..1] == [Here] && [Here][..0] == [];
      assert FirstAlive(o, 1, {o[0], o[1]}) == Some(o[1]) && {o[0], o[1]} - {o[0]} == {o[1]};
      assert AfterAll(o, 0, Elements(o), [Here]) == Turn({o[1]}, Some(Some(o[1])));
      assert AfterAll(o, 0, Elements(o), es) == Turn({}, Some(Some(o[1])));
    }
  }

  lemma {:induction false} AmongNone(o: seq<nat>)
    ensures Among(o, {}) == []
  {
    if o != [] { AmongNone(o[..|o| - 1]); }
  }

  lemma LeftOne(o: seq<nat>, order: seq<nat>)
    requires |o| == 2 && o[0] != o[1] && Elements(order) == {o[1]} && order == Among(o, Elements(order))
    ensures order == [o[1]]
  {
    assert o == [o[0]] + [o[1]];
    AmongConcat([o[0]], [o[1]], Elements(order));
    AmongOne(o[0], Elements(order));
    AmongOne(o[1], Elements(order));
  }
}
