/** Vocabulary shared by the models. */
module Prelude {
  /** A handle that may be invalid, or a storage slot that may be unconstructed. */
  datatype Option<+T> = None | Some(value: T)

  ghost predicate Distinct<T>(s: seq<T>) {
    forall i, j :: 0 <= i < j < |s| ==> s[i] != s[j]
  }

  function Elements<T>(s: seq<T>): set<T> {
    set x | x in s
  }

  lemma ElementsSnoc<T>(s: seq<T>, x: T)
    ensures Elements(s + [x]) == Elements(s) + {x}
  {
  }

  lemma {:induction false} DistinctSize<T>(s: seq<T>)
    requires Distinct(s)
    ensures |Elements(s)| == |s|
  {
    if s != [] {
      var n := |s| - 1;
      DistinctSize(s[..n]);
      assert Elements(s) == Elements(s[..n]) + {s[n]};
    }
  }

  /** The index after `i` in a cycle of `n` elements. */
  function CyclicNext(i: nat, n: nat): nat
    requires i < n
  {
    if i + 1 < n then i + 1 else 0
  }

  /** The index before `i` in a cycle of `n` elements. */
  function CyclicPrev(i: nat, n: nat): nat
    requires i < n
  {
    if i > 0 then i - 1 else n - 1
  }

  /** `s` with the element at `i` and the one after it, in cyclic order, replaced by `e`. */
  function Shortened<T>(p: seq<T>, i: nat, e: T): seq<T>
    requires i < |p| && 2 <= |p|
  {
    if i + 1 < |p| then p[..i] + [e] + p[i + 2..] else p[1..i] + [e]
  }

  /** The elements of `s` that are in `keep`, in order. */
  function Among<T(==)>(s: seq<T>, keep: set<T>): seq<T> {
    if s == [] then []
    else Among(s[..|s| - 1], keep) + if s[|s| - 1] in keep then [s[|s| - 1]] else []
  }

  lemma {:induction false} AmongMembers<T>(s: seq<T>, keep: set<T>)
    ensures forall x :: x in Among(s, keep) <==> x in s && x in keep
    ensures Distinct(s) ==> Distinct(Among(s, keep))
  {
    if s != [] {
      AmongMembers(s[..|s| - 1], keep);
      assert s == s[..|s| - 1] + [s[|s| - 1]];
    }
  }

  lemma {:induction false} AmongSame<T>(s: seq<T>, keep: set<T>, keep': set<T>)
    requires forall x :: x in s ==> (x in keep <==> x in keep')
    ensures Among(s, keep) == Among(s, keep')
  {
    if s != [] {
      AmongSame(s[..|s| - 1], keep, keep');
    }
  }

  lemma {:induction false} AmongConcat<T>(s: seq<T>, r: seq<T>, keep: set<T>)
    ensures Among(s + r, keep) == Among(s, keep) + Among(r, keep)
    decreases |r|
  {
    if r == [] {
      assert s + r == s;
    } else {
      assert (s + r)[..|s + r| - 1] == s + r[..|r| - 1];
      AmongConcat(s, r[..|r| - 1], keep);
    }
  }
}
