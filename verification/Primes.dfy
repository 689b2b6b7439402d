/** Miller-Rabin as in `primes.hpp`, for an unsigned word type of at most 64 bits. */
module Primes {
  import opened NumberTheory
  import opened MultAndMod

  // ---- counting trailing zeros -------------------------------------------------------

  function TrailingZeros(n: nat): nat
    requires n > 0
  {
    if n % 2 == 1 then 0 else 1 + TrailingZeros(n / 2)
  }

  /** `__builtin_ctz` takes a 32-bit word: it sees the low word only, and is undefined when
      that is zero. */
  function BuiltinCtz(n: nat): nat
    requires n % W32 != 0
  {
    TrailingZeros(n % W32)
  }

  lemma {:induction false} LowWord(n: nat, w: nat)
    requires n % Pow2(w) != 0
    ensures n > 0 && n % Pow2(w) > 0 && TrailingZeros(n % Pow2(w)) == TrailingZeros(n)
  {
    if w == 0 {
      DivModUnique(n, 1, n, 0);
    } else {
      var m := Pow2(w - 1);
      var q, r := n / Pow2(w), n % Pow2(w);
      assert Pow2(w) == 2 * m;
      assert n == q * (2 * m) + r;
      assert q * (2 * m) == 2 * (q * m);
      assert n % 2 == r % 2;
      if n % 2 == 0 {
        assert n / 2 == q * m + r / 2;
        DivModUnique(n / 2, m, q, r / 2);
        LowWord(n / 2, w - 1);
      }
    }
  }

  lemma HalfPart(n: nat, d: nat, q: nat)
    requires n % 2 == 0 && n / 2 == d * q
    ensures n == d * (2 * q)
  {
  }

  /** n = d * 2^r with d odd. */
  lemma {:induction false} OddPart(n: nat)
    requires n > 0
    ensures var r := TrailingZeros(n);
            (n / Pow2(r)) % 2 == 1 && n == (n / Pow2(r)) * Pow2(r)
  {
    if n % 2 == 1 {
      DivModUnique(n, 1, n, 0);
    } else {
      OddPart(n / 2);
      var r := TrailingZeros(n / 2);
      var d := (n / 2) / Pow2(r);
      Pow2Step(r + 1);
      HalfPart(n, d, Pow2(r));
      DivModUnique(n, Pow2(r + 1), d, 0);
    }
  }

  // ---- square and multiply -----------------------------------------------------------

  /** `_mr_pow`: the base to the d-th power modulo p. */
  method MrPow(base: nat, d: nat, p: nat) returns (x: nat)
    requires 1 < p < W64
    ensures x == Pow(base, d) % p
  {
    x := 1;
    var exp, tp := d, base;
    DivModUnique(1, p, 0, 1);
    assert 1 * Pow(base, d) == Pow(base, d);
    while exp > 0
      invariant 0 <= x < p
      invariant (x * Pow(tp, exp)) % p == Pow(base, d) % p
    {
      if exp % 2 == 1 {
        PowOddStep(x, tp, exp, p);
        x := MultAndModWide(x, tp, p);
        exp := exp - 1;
      } else {
        PowEvenStep(x, tp, exp, p);
        tp := MultAndModWide(tp, tp, p);
        exp := exp / 2;
      }
    }
    assert x * Pow(tp, 0) == x;
    DivModUnique(x, p, 0, x);
  }

  // ---- the squaring chain ------------------------------------------------------------

  /** x squared j times modulo p. */
  function Squared(x: nat, j: nat, p: nat): nat
    requires p > 0
  {
    if j == 0 then x else var y := Squared(x, j - 1, p); (y * y) % p
  }

  /** Once the chain is at 1 it stays there. */
  lemma {:induction false} SquaredOne(x: nat, i: nat, j: nat, p: nat)
    requires p > 1 && i <= j && Squared(x, i, p) == 1
    ensures Squared(x, j, p) == 1
    decreases j - i
  {
    if i < j {
      DivModUnique(1, p, 0, 1);
      SquaredOne(x, i + 1, j, p);
    }
  }

  lemma TwiceExponent(d: nat, m: nat)
    ensures d * (2 * m) == d * m + d * m
  {
  }

  lemma {:induction false} SquaredPow(b: nat, d: nat, j: nat, p: nat)
    requires p > 0
    ensures Squared(Pow(b, d) % p, j, p) == Pow(b, d * Pow2(j)) % p
  {
    if j == 0 {
      assert d * 1 == d;
    } else {
      SquaredPow(b, d, j - 1, p);
      var e: nat := d * Pow2(j - 1);
      TwiceExponent(d, Pow2(j - 1));
      PowAdd(b, e, e);
      var y := Pow(b, e);
      ModMul(y, y, p);
    }
  }

  /** One of the first r - 1 squares after x is p - 1. */
  ghost predicate MeetsMinusOne(x: nat, r: int, p: nat)
    requires p > 0
  {
    exists j :: 1 <= j < r && Squared(x, j, p) == p - 1
  }

  /** `_mr_check`: true exactly when one of the squares in the chain is p - 1. */
  method MrCheck(x0: nat, r: int, p: nat) returns (ok: bool)
    requires 2 < p < W64
    ensures ok <==> MeetsMinusOne(x0, r, p)
  {
    var x, j, did_break := x0, 0, false;
    while j < r - 1
      invariant 0 <= j && (j <= r - 1 || j == 0) && x == Squared(x0, j, p)
      invariant forall i :: 1 <= i <= j ==> Squared(x0, i, p) != p - 1
    {
      x := MultAndModWide(x, x, p);
      j := j + 1;
      if x == 1 {
        forall i | j <= i < r ensures Squared(x0, i, p) != p - 1 {
          SquaredOne(x0, j, i, p);
        }
        return false;
      }
      if x == p - 1 {
        did_break := true;
        break;
      }
    }
    ok := did_break;
  }

  // ---- the test ----------------------------------------------------------------------

  /** p passes the test to base b. */
  ghost predicate PassesBase(p: nat, b: nat)
    requires p > 2
  {
    var r := TrailingZeros(p - 1);
    var x := Pow(b, (p - 1) / Pow2(r)) % p;
    x == 1 || x == p - 1 || MeetsMinusOne(x, r, p)
  }

  /** The exponents that the test looks at: `d`, doubled up to `r` - 1 times. */
  ghost function Exponents(d: nat, r: nat): (es: seq<nat>)
    ensures |es| == r && forall j :: 0 <= j < r ==> es[j] == d * Pow2(j)
  {
    seq(r, j requires 0 <= j < r => var e: nat := d * Pow2(j); e)
  }

  /** The odd power `d` of the base is 1, or one of the first `r` squares of it, itself included, is p - 1. */
  ghost predicate Strong(p: nat, b: nat, d: nat, r: nat)
    requires p > 0
  {
    Pow(b, d) % p == 1 || exists e :: e in Exponents(d, r) && Pow(b, e) % p == p - 1
  }

  lemma PassesMeans(p: nat, b: nat)
    requires p > 2 && p % 2 == 1
    ensures var r := TrailingZeros(p - 1); PassesBase(p, b) <==> Strong(p, b, (p - 1) / Pow2(r), r)
  {
    hide Pow, Pow2, TrailingZeros, Squared;
    var r := TrailingZeros(p - 1);
    EvenZeros(p - 1);
    var d := (p - 1) / Pow2(r);
    var x := Pow(b, d) % p;
    SquaredStart(x, p);
    if Strong(p, b, d, r) && x != 1 {
      var e :| e in Exponents(d, r) && Pow(b, e) % p == p - 1;
      var j :| 0 <= j < r && Exponents(d, r)[j] == e;
      SquaredPow(b, d, j, p);
      assert Squared(x, j, p) == p - 1;
    }
    if x == p - 1 {
      SquaredPow(b, d, 0, p);
    } else if MeetsMinusOne(x, r, p) {
      var j :| 1 <= j < r && Squared(x, j, p) == p - 1;
      SquaredPow(b, d, j, p);
    }
  }

  lemma EvenZeros(n: nat)
    requires n > 0 && n % 2 == 0
    ensures TrailingZeros(n) > 0
  {
  }

  /** Such a base also passes Fermat's test. */
  lemma PassesFermat(p: nat, b: nat, d: nat, r: nat)
    requires p > 2 && p - 1 == d * Pow2(r) && Strong(p, b, d, r)
    ensures Pow(b, p - 1) % p == 1
  {
    hide Pow, Pow2;
    SquaredPow(b, d, r, p);
    if Pow(b, d) % p == 1 {
      SquaredStart(1, p);
      SquaredOne(1, 0, r, p);
    } else {
      var e :| e in Exponents(d, r) && Pow(b, e) % p == p - 1;
      var j :| 0 <= j < r && Exponents(d, r)[j] == e;
      SquaredPow(b, d, j, p);
      MinusOneSquared(Pow(b, d) % p, j, p);
      SquaredOne(Pow(b, d) % p, j + 1, r, p);
    }
  }

  lemma SquaredStart(x: nat, p: nat)
    requires p > 0
    ensures Squared(x, 0, p) == x
  {
  }

  lemma MinusOneSquared(x: nat, j: nat, p: nat)
    requires p > 2 && Squared(x, j, p) == p - 1
    ensures Squared(x, j + 1, p) == 1
  {
    assert (p - 1) * (p - 1) == (p - 2) * p + 1;
    DivModUnique((p - 1) * (p - 1), p, p - 2, 1);
  }

  /** The exponent and the number of squares that the test of an odd p uses. */
  ghost function OddExponent(p: nat): (d: nat)
    requires p > 2
  {
    (p - 1) / Pow2(TrailingZeros(p - 1))
  }

  lemma PassesAll(p: nat, bases: seq<nat>)
    requires p > 2 && p % 2 == 1
    ensures var d, r := OddExponent(p), TrailingZeros(p - 1);
            && p - 1 == d * Pow2(r) && d % 2 == 1
            && (forall b :: b in bases && b < p ==> (PassesBase(p, b) <==> Strong(p, b, d, r)))
            && forall b :: b in bases && b < p && Strong(p, b, d, r) ==> Pow(b, p - 1) % p == 1
  {
    hide PassesBase, Strong, Pow, Pow2, TrailingZeros;
    OddPart(p - 1);
    var d, r := OddExponent(p), TrailingZeros(p - 1);
    forall b | b in bases && b < p ensures PassesBase(p, b) <==> Strong(p, b, d, r) { PassesMeans(p, b); }
    forall b | b in bases && b < p && Strong(p, b, d, r) ensures Pow(b, p - 1) % p == 1 { PassesFermat(p, b, d, r); }
  }

  lemma StrongAll(p: nat, bases: seq<nat>, d: nat, r: nat)
    requires p > 0
    ensures (forall b :: b in bases && b < p ==> Strong(p, b, d, r))
            <==> forall b :: b in bases && b < p ==>
                   Pow(b, d) % p == 1
                   || exists e :: e in Exponents(d, r) && Pow(b, e) % p == p - 1
  {
    hide Pow, Pow2;
  }

  /** `miller_rabin`: an odd p >= 3 with p - 1 = d * 2^r, d odd, is accepted when every base below p has its d-th power
    * at 1 or one of the first r squares of that at p - 1; bases that are not below p are skipped. An accepted p passes
    * Fermat's test to every such base. */
  method MillerRabin(p: nat, bases: seq<nat>) returns (ok: bool, ghost d: nat, ghost r: nat)
    requires p < W64 && (p > 2 && p % 2 == 1 ==> (p - 1) % W32 != 0)
    ensures p > 2 && p % 2 == 1 ==> p - 1 == d * Pow2(r) && d % 2 == 1
    ensures ok <==> p > 2 && p % 2 == 1
                    && forall b :: b in bases && b < p ==>
                         Pow(b, d) % p == 1 || exists e :: e in Exponents(d, r) && Pow(b, e) % p == p - 1
    ensures ok ==> forall b :: b in bases && b < p ==> Pow(b, p - 1) % p == 1
    ensures ok <==> p > 2 && p % 2 == 1 && forall b :: b in bases && b < p ==> PassesBase(p, b)
  {
    hide PassesBase, Strong, Pow, Pow2, TrailingZeros, BuiltinCtz, OddExponent;
    d, r := 0, 0;
    if p % 2 == 0 {
      return false, d, r;
    }
    if p < 2 {
      return false, d, r;
    }
    PassesAll(p, bases);
    d, r := OddExponent(p), TrailingZeros(p - 1);
    StrongAll(p, bases, d, r);
    var twos := BuiltinCtz(p - 1);
    LowWord32(p - 1);
    OddExponentIs(p);
    var odd := (p - 1) / Pow2(twos);
    var i := 0;
    while i < |bases|
      invariant i <= |bases|
      invariant forall k :: 0 <= k < i && bases[k] < p ==> PassesBase(p, bases[k])
    {
      if bases[i] < p {
        var passed := TestBase(p, bases[i], odd, twos);
        if !passed {
          return false, d, r;
        }
      }
      i := i + 1;
    }
    ok := true;
  }

  lemma OddExponentIs(p: nat)
    requires p > 2
    ensures OddExponent(p) == (p - 1) / Pow2(TrailingZeros(p - 1))
  {
  }

  /** The body of the loop over the bases. */
  method TestBase(p: nat, b: nat, d: nat, r: nat) returns (ok: bool)
    requires 2 < p < W64 && r == TrailingZeros(p - 1) && d == (p - 1) / Pow2(r)
    ensures ok <==> PassesBase(p, b)
  {
    hide Pow, Pow2, Squared, TrailingZeros, MeetsMinusOne;
    var x := MrPow(b, d, p);
    if x == 1 || x == p - 1 {
      return true;
    }
    ok := MrCheck(x, r, p);
  }

  lemma LowWord32(n: nat)
    requires n % W32 != 0
    ensures n > 0 && BuiltinCtz(n) == TrailingZeros(n)
  {
    Pow2Is32();
    LowWord(n, 32);
  }

  /** With p prime and p not dividing x0, a chain that ends in 1 after r squarings starts in
      1 or meets p - 1 before the end. */
  lemma {:induction false} ChainMeetsMinusOne(p: nat, x0: nat, r: nat)
    requires IsPrime(p) && p > 2 && x0 < p && Squared(x0, r, p) == 1
    ensures x0 == 1 || x0 == p - 1 || MeetsMinusOne(x0, r, p)
  {
    if r > 0 {
      var y := Squared(x0, r - 1, p);
      SquaredBelow(x0, r - 1, p);
      SquareRootsOfOne(p, y);
      if y == 1 {
        ChainMeetsMinusOne(p, x0, r - 1);
      }
    }
  }

  lemma SquaredBelow(x: nat, j: nat, p: nat)
    requires x < p
    ensures Squared(x, j, p) < p
  {
  }

  /** A prime above 2 passes exactly the bases it does not divide. */
  lemma PrimePasses(p: nat, b: nat)
    requires IsPrime(p) && p > 2
    ensures PassesBase(p, b) <==> b % p != 0
  {
    OddPart(p - 1);
    var r := TrailingZeros(p - 1);
    var d := (p - 1) / Pow2(r);
    var x := Pow(b, d) % p;
    SquaredPow(b, d, r, p);
    if b % p != 0 {
      FermatUnit(p, b);
      ChainMeetsMinusOne(p, x, r);
    } else {
      PowMod(b, d, p);
      assert d > 0 && Pow(0, d) == 0;
      DivModUnique(0, p, 0, 0);
      forall j | 1 <= j < r ensures Squared(x, j, p) == 0 {
        SquaredZero(j, p);
      }
    }
  }

  lemma {:induction false} SquaredZero(j: nat, p: nat)
    requires p > 0
    ensures Squared(0, j, p) == 0
  {
    if j > 0 {
      SquaredZero(j - 1, p);
      DivModUnique(0, p, 0, 0);
    }
  }

  /** What the test says about a prime: `ok` is the answer that the contract of
      `MillerRabin` determines. It is wrong for 2 whatever the bases, and for another prime
      exactly when 0 is among the bases. */
  lemma PrimeVerdict(p: nat, bases: seq<nat>)
    requires IsPrime(p)
    ensures (p > 2 && p % 2 == 1 && forall b :: b in bases && b < p ==> PassesBase(p, b))
            <==> p != 2 && 0 !in bases
  {
    if p > 2 {
      assert p % 2 != 0;
      forall b | b in bases && b < p ensures PassesBase(p, b) <==> b != 0 {
        PrimePasses(p, b);
        DivModUnique(b, p, 0, b);
      }
    }
  }

  /** `is_prime` on 32-bit words: the test to the bases 2, 7 and 61. It never rejects a prime but 2, which it rejects as
    * even. */
  method IsPrime32(p: nat) returns (ok: bool, ghost d: nat, ghost r: nat)
    requires p < W32
    ensures p > 2 && p % 2 == 1 ==> p - 1 == d * Pow2(r) && d % 2 == 1
    ensures ok <==> p > 2 && p % 2 == 1
                    && forall b :: b in [2, 7, 61] && b < p ==>
                         Pow(b, d) % p == 1 || exists e :: e in Exponents(d, r) && Pow(b, e) % p == p - 1
    ensures ok ==> forall b :: b in [2, 7, 61] && b < p ==> Pow(b, p - 1) % p == 1
    ensures IsPrime(p) ==> (ok <==> p != 2)
  {
    hide PassesBase, Pow, Pow2;
    if p > 2 && p % 2 == 1 {
      DivModUnique(p - 1, W32, 0, p - 1);
    }
    ok, d, r := MillerRabin(p, [2, 7, 61]);
    if IsPrime(p) {
      PrimeVerdict(p, [2, 7, 61]);
    }
  }

  /** `is_prime` on 64-bit words, where the low word of p - 1 is not zero: the test to the first twelve primes. */
  method IsPrime64(p: nat) returns (ok: bool, ghost d: nat, ghost r: nat)
    requires p < W64 && (p > 2 && p % 2 == 1 ==> (p - 1) % W32 != 0)
    ensures p > 2 && p % 2 == 1 ==> p - 1 == d * Pow2(r) && d % 2 == 1
    ensures ok <==> p > 2 && p % 2 == 1
                    && forall b :: b in [2, 3, 5, 7, 11, 13, 17, 19, 23, 29, 31, 37] && b < p ==>
                         Pow(b, d) % p == 1 || exists e :: e in Exponents(d, r) && Pow(b, e) % p == p - 1
    ensures ok ==> forall b :: b in [2, 3, 5, 7, 11, 13, 17, 19, 23, 29, 31, 37] && b < p ==> Pow(b, p - 1) % p == 1
    ensures IsPrime(p) ==> (ok <==> p != 2)
  {
    hide PassesBase, Pow, Pow2;
    var bases := [2, 3, 5, 7, 11, 13, 17, 19, 23, 29, 31, 37];
    ok, d, r := MillerRabin(p, bases);
    if IsPrime(p) {
      PrimeVerdict(p, bases);
    }
  }
}
