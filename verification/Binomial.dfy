/** `Binomial`: a cursor in Pascal's triangle that moves one step at a time, multiplying
    and dividing the value it stands on. */
module Binomial {
  import opened NumberTheory

  class Binomial {
    var n: nat
    var k: nat
    var val: nat

    /** The cursor is inside the triangle and holds the value there. */
    ghost predicate Valid()
      reads this
    {
      k <= n && val == C(n, k)
    }

    constructor ()
      ensures Valid() && n == 0 && k == 0
    {
      n, k, val := 0, 0, 1;
    }

    /** `operator()`: the binomial coefficient, 0 outside the triangle. */
    method Get(nn: int, kk: int) returns (r: nat)
      requires Valid()
      modifies this
      ensures Valid()
      ensures r == if 0 <= kk <= nn then C(nn, kk) else 0
      ensures if 0 <= kk <= nn then n == nn && k == kk else n == old(n) && k == old(k)
    {
      if nn < 0 || kk < 0 || kk > nn {
        return 0;
      }
      while k > kk
        invariant Valid()
      {
        MoveL();
      }
      while n > nn
        invariant Valid() && k <= kk
        decreases n - nn
      {
        MoveU();
      }
      while n < nn
        invariant Valid() && n <= nn && k <= kk
      {
        MoveD();
      }
      while k < kk
        invariant Valid() && n == nn && k <= kk
      {
        MoveR();
      }
      r := val;
    }

    method MoveL()
      requires Valid() && k > 0
      modifies this`k, this`val
      ensures Valid() && k == old(k) - 1
    {
      k := k - 1;
      CRow(n, k);
      val := val * (k + 1);
      val := ExactDiv(val, n - k, C(n, k));
    }

    method MoveR()
      requires Valid() && k < n
      modifies this`k, this`val
      ensures Valid() && k == old(k) + 1
    {
      k := k + 1;
      CRow(n, k - 1);
      val := val * (n - k + 1);
      val := ExactDiv(val, k, C(n, k));
    }

    method MoveD()
      requires Valid()
      modifies this`n, this`val
      ensures Valid() && n == old(n) + 1
    {
      n := n + 1;
      CColumn(n, k);
      val := val * n;
      val := ExactDiv(val, n - k, C(n, k));
    }

    method MoveU()
      requires Valid() && k < n
      modifies this`n, this`val
      ensures Valid() && n == old(n) - 1
    {
      n := n - 1;
      CColumn(n + 1, k);
      val := val * (n - k + 1);
      val := ExactDiv(val, n + 1, C(n, k));
    }
  }

  /** The division `x /= d` of a move; it must leave no remainder. */
  method ExactDiv(x: nat, d: nat, ghost q: nat) returns (r: nat)
    requires d > 0 && x == d * q
    ensures r == q && x % d == 0
  {
    DivModUnique(x, d, q, 0);
    r := x / d;
  }
}
