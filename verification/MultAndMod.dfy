/** The two `mult_and_mod` functions: multiplication modulo n on 64-bit words. Every
    machine operation of the fallback is written out with its wrap-around. */
module MultAndMod {
  import opened NumberTheory

  const W64: int := 0x1_0000_0000_0000_0000
  const W63: int := 0x8000_0000_0000_0000
  const W32: int := 0x1_0000_0000

  /** The result of an unsigned 64-bit operation whose exact result is `x`. */
  function Wrap64(x: int): (w: int)
    ensures 0 <= w < W64
    ensures 0 <= x < W64 ==> w == x
    ensures -W64 <= x < 0 ==> w == x + W64
    ensures W64 <= x < 2 * W64 ==> w == x - W64
  {
    x % W64
  }

  /** With a 128-bit product the result is immediate. */
  function MultAndModWide(a: nat, b: nat, m: nat): (r: nat)
    requires 0 < m < W64
    ensures r < m
  {
    (a * b) % m
  }

  /** Bitwise or. */
  function Or(a: nat, b: nat): nat {
    if a == 0 && b == 0 then 0
    else 2 * Or(a / 2, b / 2) + if a % 2 == 1 || b % 2 == 1 then 1 else 0
  }

  lemma {:induction false} OrZero(a: nat, b: nat)
    ensures Or(a, b) == 0 <==> a == 0 && b == 0
  {
    if a != 0 || b != 0 { OrZero(a / 2, b / 2); }
  }

  /** The or of two numbers fits k bits exactly when both do. */
  lemma {:induction false} OrBelow(a: nat, b: nat, k: nat)
    ensures Or(a, b) < Pow2(k) <==> a < Pow2(k) && b < Pow2(k)
  {
    if k == 0 {
      OrZero(a, b);
    } else if a != 0 || b != 0 {
      OrBelow(a / 2, b / 2, k - 1);
      Pow2Step(k);
    }
  }

  lemma Pow2Is32()
    ensures Pow2(32) == W32
  {
    assert Pow2(8) == 256;
    Pow2Add(8, 8);
    Pow2Add(16, 16);
  }

  /** One step of the loop for n <= 2^63: no sum wraps around. */
  function AddSmall(x: int, y: int, n: int): int {
    var s := Wrap64(x + y);
    if s >= n then Wrap64(s - n) else s
  }

  /** One step of the loop for n > 2^63: the sum in the second branch may wrap around 2^64,
      and the subtraction of n wraps it back. */
  function AddLarge(x: int, y: int, n: int): int {
    if Wrap64(n - x) > y then Wrap64(x + y) else Wrap64(Wrap64(x + y) - n)
  }

  lemma AddSmallIs(x: int, y: int, n: int)
    requires 0 <= x < n && 0 <= y < n && n <= W63
    ensures AddSmall(x, y, n) == (x + y) % n && 0 <= AddSmall(x, y, n) < n
  {
    DivModUnique(x + y, n, if x + y < n then 0 else 1, if x + y < n then x + y else x + y - n);
  }

  lemma AddLargeIs(x: int, y: int, n: int)
    requires 0 <= x < n && 0 <= y < n && n < W64
    ensures AddLarge(x, y, n) == (x + y) % n && 0 <= AddLarge(x, y, n) < n
  {
    DivModUnique(x + y, n, if x + y < n then 0 else 1, if x + y < n then x + y else x + y - n);
  }

  /** The loop invariant r + a * b == product (mod n) survives one round. */
  lemma Round(r: int, a: int, b: int, n: int, r': int, a': int, b': int)
    requires n > 0 && b > 0 && b' == b / 2
    requires r' == if b % 2 == 1 then (r + a) % n else r
    requires b' > 0 ==> a' == (a + a) % n
    ensures (r' + a' * b') % n == (r + a * b) % n
  {
    var x := if b % 2 == 1 then r + a else r;
    Halves(r, a, b, b');
    if b % 2 == 1 {
      AddMod(x, a' * b', n);
    }
    if b' > 0 {
      DoubleMod(x, a + a, b', n);
    }
  }

  lemma Halves(r: int, a: int, b: int, b': int)
    requires b' == b / 2
    ensures r + a * b == (if b % 2 == 1 then r + a else r) + (a + a) * b'
  {
    assert b == 2 * b' + b % 2;
    assert a * b == a * (2 * b') + a * (b % 2);
    assert a * (2 * b') == (a + a) * b';
  }

  lemma AddMod(x: int, z: int, n: int)
    requires n > 0
    ensures (x % n + z) % n == (x + z) % n
  {
    var q := x / n;
    assert x + z == (x % n + z) + q * n;
    ModMultiple(x % n + z, q, n);
  }

  lemma DoubleMod(x: int, y: int, k: int, n: int)
    requires n > 0
    ensures (x + (y % n) * k) % n == (x + y * k) % n
  {
    var q := y / n;
    assert y * k == (y % n) * k + (q * k) * n;
    ModMultiple(x + (y % n) * k, q * k, n);
  }

  /** The fallback without 128-bit integers: exact for all 64-bit a, b and every n >= 1. */
  method MultAndModNarrow(a0: int, b0: int, n: int) returns (r: int)
    requires 0 <= a0 < W64 && 0 <= b0 < W64 && 0 < n < W64
    ensures r == (a0 * b0) % n
  {
    var a, b := a0, b0;
    r := 0;
    if a >= n { a := a % n; }
    if b >= n { b := b % n; }
    Reduced(a0, b0, a, b, n);
    OrBelow(a, b, 32);
    Pow2Is32();
    if Or(a, b) < W32 {
      Below64(a, b);
      return Wrap64(a * b) % n;
    }
    if a < b {
      a, b := b, a;
    }
    ghost var product := a * b;
    DivModUnique(0, n, 0, 0);
    if n <= W63 {
      while b > 0
        invariant 0 <= r < n && 0 <= a < n && 0 <= b
        invariant (r + a * b) % n == product % n
      {
        ghost var r', a', b' := r, a, b;
        if b % 2 == 1 {
          AddSmallIs(r, a, n);
          r := AddSmall(r, a, n);
        }
        b := b / 2;
        if b > 0 {
          AddSmallIs(a, a, n);
          a := AddSmall(a, a, n);
        }
        Round(r', a', b', n, r, a, b);
      }
    } else {
      while b > 0
        invariant 0 <= r < n && 0 <= a < n && 0 <= b
        invariant (r + a * b) % n == product % n
      {
        ghost var r', a', b' := r, a, b;
        if b % 2 == 1 {
          AddLargeIs(r, a, n);
          r := AddLarge(r, a, n);
        }
        b := b / 2;
        if b > 0 {
          AddLargeIs(a, a, n);
          a := AddLarge(a, a, n);
        }
        Round(r', a', b', n, r, a, b);
      }
    }
    DivModUnique(r, n, 0, r);
  }

  lemma Reduced(a0: int, b0: int, a: int, b: int, n: int)
    requires 0 <= a0 && 0 <= b0 && n > 0
    requires a == (if a0 >= n then a0 % n else a0) && b == (if b0 >= n then b0 % n else b0)
    ensures 0 <= a < n && 0 <= b < n && (a * b) % n == (a0 * b0) % n && a * b == b * a
  {
    if a0 < n { DivModUnique(a0, n, 0, a0); }
    if b0 < n { DivModUnique(b0, n, 0, b0); }
    ModMul(a0, b0, n);
  }

  lemma Below64(a: int, b: int)
    requires 0 <= a < W32 && 0 <= b < W32
    ensures 0 <= a * b < W64
  {
    MulMono(a, W32, b);
    MulMono(0, a, b);
    MulMono(b, W32, W32);
  }
}
