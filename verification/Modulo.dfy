/** `Modulo`: integers modulo m held in an unsigned 32-bit word, with the in-place
    operators and the division that multiplies by a power. */
module Modulo {
  import opened NumberTheory
  import opened MultAndMod

  /** The result of an unsigned 32-bit operation whose exact result is `x`. */
  function Wrap32(x: int): (w: int)
    ensures 0 <= w < W32
    ensures 0 <= x < W32 ==> w == x
    ensures -W32 <= x < 0 ==> w == x + W32
    ensures W32 <= x < 2 * W32 ==> w == x - W32
  {
    x % W32
  }

  /** The remainder of C++, which truncates towards zero. */
  function TruncMod(x: int, m: int): int
    requires m > 0
  {
    if x >= 0 then x % m else -((-x) % m)
  }

  /** `_fix_range`: reduces any machine integer, with a shortcut for values near [0, m). */
  function FixRange(x: int, m: int): int
    requires m > 0
  {
    if x >= m then
      var y := x - m;
      if y < m then y else TruncMod(y, m)
    else if x < 0 then
      var y := x + m;
      if y >= 0 then y
      else
        var r := Wrap32(TruncMod(y, m));
        if r != 0 then Wrap32(m + r) else 0
    else x
  }

  /** It is the mathematical remainder, also for negative values. */
  lemma FixRangeIs(x: int, m: int)
    requires 0 < m < W32
    ensures FixRange(x, m) == x % m && 0 <= FixRange(x, m) < m
  {
    if x >= m {
      ModMultiple(x - m, 1, m);
      if x - m < m { DivModUnique(x - m, m, 0, x - m); }
    } else if x < 0 {
      var y := x + m;
      ModMultiple(x, 1, m);
      if y >= 0 {
        DivModUnique(y, m, 0, y);
      } else {
        var q, s := (-y) / m, (-y) % m;
        assert y == (-q) * m - s;
        if s == 0 {
          DivModUnique(y, m, -q, 0);
        } else {
          assert y == (-q - 1) * m + (m - s);
          DivModUnique(y, m, -q - 1, m - s);
        }
      }
    } else {
      DivModUnique(x, m, 0, x);
    }
  }

  /** `int_pow` with multiplication modulo m: equal to the repeated product. */
  method IntPow(a0: nat, exp0: nat, m: nat) returns (r: nat)
    requires 0 < m < W32 && a0 < m
    ensures r == Pow(a0, exp0) % m
  {
    var a, exp := a0, exp0;
    FixRangeIs(1, m);
    r := FixRange(1, m);
    ModMulLeft(1, Pow(a, exp), m);
    assert 1 * Pow(a, exp) == Pow(a, exp);
    while exp != 0
      invariant r < m && a < m
      invariant (r * Pow(a, exp)) % m == Pow(a0, exp0) % m
    {
      if exp % 2 != 0 {
        PowOddStep(r, a, exp, m);
        r := (r * a) % m;
        exp := exp - 1;
      } else {
        PowEvenStep(r, a, exp, m);
        exp := exp / 2;
        a := (a * a) % m;
      }
    }
    assert r * Pow(a, 0) == r;
    DivModUnique(r, m, 0, r);
  }

  class Modulo {
    const m: nat
    var h: nat

    ghost predicate Valid()
      reads this
    {
      0 < m < W32 && h < m
    }

    constructor (x: int, m: nat)
      requires 0 < m < W32
      ensures Valid() && this.m == m && h == x % m
    {
      FixRangeIs(x, m);
      this.m := m;
      h := FixRange(x, m);
    }

    /** `+=`. The sum is right exactly when it fits the word; every sum fits when m is at
        most 2^31 (see AddAlwaysRight). `o` may be this object. */
    method AddAssign(o: Modulo)
      requires Valid() && o.Valid() && o.m == m
      modifies this`h
      ensures Valid() && h == Added(old(h), old(o.h), m)
      ensures h == (old(h) + old(o.h)) % m <==> old(h) + old(o.h) < W32
      ensures old(h) + old(o.h) >= W32 ==> h == old(h) + old(o.h) - W32
    {
      AddRight(h, o.h, m);
      h := Wrap32(h + o.h);
      if h >= m {
        h := Wrap32(h - m);
      }
    }

    /** `-=`, right exactly when m + h - o.h fits the word. */
    method SubAssign(o: Modulo)
      requires Valid() && o.Valid() && o.m == m
      modifies this`h
      ensures Valid() && h == Subtracted(old(h), old(o.h), m)
      ensures h == (old(h) - old(o.h)) % m <==> m + old(h) - old(o.h) < W32
      ensures m + old(h) - old(o.h) >= W32 ==> h == m + old(h) - old(o.h) - W32
    {
      SubRight(h, o.h, m);
      h := Wrap32(m + h - o.h);
      if h >= m {
        h := Wrap32(h - m);
      }
    }

    /** `*=`: the product is taken in 64 bits, so it is right for every m. */
    method MulAssign(o: Modulo)
      requires Valid() && o.Valid() && o.m == m
      modifies this`h
      ensures Valid() && h == (old(h) * old(o.h)) % m
    {
      Below64(h, o.h);
      h := Wrap64(h * o.h) % m;
    }

    /** `/=` multiplies by the power totient - 1; for a prime modulus this undoes a
        multiplication by any nonzero `o`. */
    method DivAssign(o: Modulo, totient: nat)
      requires Valid() && o.Valid() && o.m == m && totient >= 1
      modifies this`h
      ensures Valid() && h == (old(h) * (Pow(old(o.h), totient - 1) % m)) % m
      ensures IsPrime(m) && totient == m - 1 && old(o.h) != 0 ==> (h * old(o.h)) % m == old(h)
    {
      ghost var a, b := h, o.h;
      var p := IntPow(o.h, totient - 1, m);
      var inverse := new Modulo(p, m);
      DivModUnique(p, m, 0, p);
      MulAssign(inverse);
      if IsPrime(m) && totient == m - 1 && b != 0 {
        DivUndoes(a, b, m);
      }
    }
  }

  /** The value `+=` leaves in `h`. */
  function Added(h: int, g: int, m: int): int {
    var s := Wrap32(h + g);
    if s >= m then Wrap32(s - m) else s
  }

  function Subtracted(h: int, g: int, m: int): int {
    var s := Wrap32(m + h - g);
    if s >= m then Wrap32(s - m) else s
  }

  lemma AddRight(h: int, g: int, m: int)
    requires 0 <= h < m && 0 <= g < m && m < W32
    ensures 0 <= Added(h, g, m) < m && (Added(h, g, m) == (h + g) % m <==> h + g < W32)
  {
    DivModUnique(h + g, m, if h + g < m then 0 else 1, if h + g < m then h + g else h + g - m);
  }

  lemma SubRight(h: int, g: int, m: int)
    requires 0 <= h < m && 0 <= g < m && m < W32
    ensures 0 <= Subtracted(h, g, m) < m && (Subtracted(h, g, m) == (h - g) % m <==> m + h - g < W32)
  {
    DivModUnique(h - g, m, if h < g then -1 else 0, if h < g then h - g + m else h - g);
  }

  /** All sums and differences modulo m are right if and only if m is at most 2^31. */
  lemma AddAlwaysRight(m: int)
    requires 0 < m < W32
    ensures (forall h, g :: 0 <= h < m && 0 <= g < m ==> Added(h, g, m) == (h + g) % m) <==> m <= 0x8000_0000
    ensures (forall h, g :: 0 <= h < m && 0 <= g < m ==> Subtracted(h, g, m) == (h - g) % m) <==> m <= 0x8000_0000
  {
    forall h, g | 0 <= h < m && 0 <= g < m
      ensures Added(h, g, m) == (h + g) % m <==> h + g < W32
      ensures Subtracted(h, g, m) == (h - g) % m <==> m + h - g < W32
    {
      AddRight(h, g, m);
      SubRight(h, g, m);
    }
    AddRight(m - 1, m - 1, m);
    SubRight(m - 1, 0, m);
  }

  lemma DivUndoes(a: int, b: int, m: int)
    requires IsPrime(m) && 0 <= a < m && 0 < b < m
    ensures (((a * (Pow(b, m - 2) % m)) % m) * b) % m == a
  {
    var q := Pow(b, m - 2);
    DivModUnique(b, m, 0, b);
    FermatUnit(m, b);
    ModMulRight(a, q, m);
    ModMulLeft(a * q, b, m);
    Regroup(a, q, b);
    ModMulRight(a, b * q, m);
    assert a * 1 == a;
    DivModUnique(a, m, 0, a);
  }

  lemma Regroup(a: int, q: int, b: int)
    ensures (a * q) * b == a * (b * q)
  {
  }
}
