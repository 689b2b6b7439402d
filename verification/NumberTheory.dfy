/** Arithmetic behind the `discr` part of the library: powers, division, binomial
    coefficients, and Fermat's little theorem. */
module NumberTheory {
  function Pow(b: int, e: nat): int {
    if e == 0 then 1 else b * Pow(b, e - 1)
  }

  function Pow2(e: nat): (r: nat)
    ensures r > 0
  {
    if e == 0 then 1 else 2 * Pow2(e - 1)
  }

  lemma Pow2Step(e: nat)
    requires e > 0
    ensures Pow2(e) == 2 * Pow2(e - 1)
  {
  }

  lemma DoubleProduct(x: int, y: int)
    ensures 2 * (x * y) == (2 * x) * y
  {
  }

  lemma {:induction false} Pow2Add(d: nat, e: nat)
    ensures Pow2(d + e) == Pow2(d) * Pow2(e)
  {
    if d > 0 {
      Pow2Add(d - 1, e);
      Pow2Step(d);
      Pow2Step(d + e);
      DoubleProduct(Pow2(d - 1), Pow2(e));
    }
  }

  ghost predicate IsPrime(p: int) {
    2 <= p && forall m :: 2 <= m < p ==> p % m != 0
  }

  // ---- division ----------------------------------------------------------------------

  lemma DivModUnique(n: int, m: int, q: int, r: int)
    requires 0 <= r < m && n == q * m + r
    ensures n % m == r && n / m == q
  {
    var q', r' := n / m, n % m;
    assert n == q' * m + r';
    assert (q - q') * m == r' - r;
    if q > q' {
      assert (q - q') * m >= m by { MulMono(1, q - q', m); }
    } else if q < q' {
      assert (q' - q) * m >= m by { MulMono(1, q' - q, m); }
    }
  }

  lemma MulMono(a: int, b: int, c: int)
    requires a <= b && 0 <= c
    ensures a * c <= b * c
  {
  }

  lemma ModMultiple(x: int, k: int, m: int)
    requires m > 0
    ensures (x + k * m) % m == x % m
  {
    DivModUnique(x + k * m, m, x / m + k, x % m);
  }

  lemma ModMulLeft(a: int, b: int, m: int)
    requires m > 0
    ensures (a * b) % m == ((a % m) * b) % m
  {
    var q, r := a / m, a % m;
    assert a * b == r * b + (q * b) * m;
    ModMultiple(r * b, q * b, m);
  }

  lemma ModMulRight(a: int, b: int, m: int)
    requires m > 0
    ensures (a * b) % m == (a * (b % m)) % m
  {
    var q, r := b / m, b % m;
    assert a * b == a * r + (a * q) * m;
    ModMultiple(a * r, a * q, m);
  }

  lemma ModMul(a: int, b: int, m: int)
    requires m > 0
    ensures (a * b) % m == ((a % m) * (b % m)) % m
  {
    var r := a % m;
    ModMulLeft(a, b, m);
    ModMulRight(r, b, m);
  }

  lemma ModAdd(a: int, b: int, m: int)
    requires m > 0
    ensures (a + b) % m == ((a % m) + (b % m)) % m
  {
    var q, r := a / m, b / m;
    assert a + b == (a % m + b % m) + (q + r) * m;
    ModMultiple(a % m + b % m, q + r, m);
  }

  // ---- powers ------------------------------------------------------------------------

  lemma {:induction false} PowMod(a: int, e: nat, m: int)
    requires m > 0
    ensures Pow(a % m, e) % m == Pow(a, e) % m
  {
    if e > 0 {
      PowMod(a, e - 1, m);
      var x, y := Pow(a, e - 1), Pow(a % m, e - 1);
      ModMul(a, x, m);
      ModMulRight(a % m, y, m);
    }
  }

  lemma {:induction false} PowAdd(a: int, d: nat, e: nat)
    ensures Pow(a, d + e) == Pow(a, d) * Pow(a, e)
  {
    if d > 0 {
      PowAdd(a, d - 1, e);
      assert a * (Pow(a, d - 1) * Pow(a, e)) == (a * Pow(a, d - 1)) * Pow(a, e);
    }
  }

  lemma PowSquare(a: int, e: nat)
    ensures Pow(a * a, e) == Pow(a, 2 * e)
  {
    if e > 0 {
      PowSquare(a, e - 1);
      assert Pow(a, 2 * e) == a * (a * Pow(a, 2 * e - 2));
    }
  }

  /** The two steps of square-and-multiply keep x * tp^exp modulo p. */
  lemma PowOddStep(x: int, tp: int, exp: nat, p: int)
    requires exp > 0 && p > 0
    ensures (((x * tp) % p) * Pow(tp, exp - 1)) % p == (x * Pow(tp, exp)) % p
  {
    var q := Pow(tp, exp - 1);
    ModMulLeft(x * tp, q, p);
    assert (x * tp) * q == x * (tp * q);
  }

  lemma PowEvenStep(x: int, tp: int, exp: nat, p: int)
    requires exp % 2 == 0 && p > 0
    ensures (x * Pow((tp * tp) % p, exp / 2)) % p == (x * Pow(tp, exp)) % p
  {
    PowSquare(tp, exp / 2);
    PowMod(tp * tp, exp / 2, p);
    var y, z := Pow((tp * tp) % p, exp / 2), Pow(tp * tp, exp / 2);
    ModMulRight(x, y, p);
    ModMulRight(x, z, p);
  }

  // ---- Euclid's lemma ----------------------------------------------------------------

  lemma {:induction false} EuclidSmall(p: int, r: int, b: int)
    requires IsPrime(p) && 0 < r < p && (r * b) % p == 0
    ensures b % p == 0
    decreases r
  {
    if r > 1 {
      var q, s := p / r, p % r;
      assert s != 0;
      // s * b == p * b - q * (r * b)
      var k := (r * b) / p;
      assert r * b == k * p;
      assert s * b == (b - q * k) * p by {
        assert s == p - q * r;
        assert (p - q * r) * b == p * b - q * (r * b);
        assert q * (k * p) == (q * k) * p;
      }
      DivModUnique(s * b, p, b - q * k, 0);
      EuclidSmall(p, s, b);
    }
  }

  /** A prime that divides a product divides one of the factors. */
  lemma Euclid(p: int, a: int, b: int)
    requires IsPrime(p) && (a * b) % p == 0
    ensures a % p == 0 || b % p == 0
  {
    if a % p != 0 {
      ModMulLeft(a, b, p);
      EuclidSmall(p, a % p, b);
    }
  }

  // ---- binomial coefficients ---------------------------------------------------------

  /** Pascal's triangle, with zeros outside. */
  function C(n: nat, k: nat): nat {
    if k == 0 then 1 else if n == 0 then 0 else C(n - 1, k - 1) + C(n - 1, k)
  }

  lemma {:induction false} COutside(n: nat, k: nat)
    requires k > n
    ensures C(n, k) == 0
  {
    if n > 0 {
      COutside(n - 1, k - 1);
      COutside(n - 1, k);
    }
  }

  lemma AbsorbStep(n: int, k: int, x: int, y: int, z: int, w: int)
    requires k * y == (n - 1) * z && (k - 1) * x == (n - 1) * w && x == w + z
    ensures k * (x + y) == n * x
  {
    assert k * (x + y) == x + (k - 1) * x + k * y;
    assert (n - 1) * w + (n - 1) * z == (n - 1) * x;
    assert x + (n - 1) * x == n * x;
  }

  lemma {:induction false} CAbsorb(n: nat, k: nat)
    requires n >= 1 && k >= 1
    ensures k * C(n, k) == n * C(n - 1, k - 1)
  {
    if n == 1 {
      if k > 1 { COutside(1, k); COutside(0, k - 1); }
    } else {
      CAbsorb(n - 1, k);
      if k > 1 {
        CAbsorb(n - 1, k - 1);
        AbsorbStep(n, k, C(n - 1, k - 1), C(n - 1, k), C(n - 2, k - 1), C(n - 2, k - 2));
      } else {
        AbsorbStep(n, k, C(n - 1, k - 1), C(n - 1, k), C(n - 2, k - 1), 0);
      }
    }
  }

  lemma CColumn(n: nat, k: nat)
    requires n >= 1 && k <= n
    ensures (n - k) * C(n, k) == n * C(n - 1, k)
  {
    if k > 0 {
      CAbsorb(n, k);
      var x, y := C(n - 1, k - 1), C(n - 1, k);
      assert n * (x + y) == n * x + n * y;
      assert (n - k) * C(n, k) == n * C(n, k) - k * C(n, k);
    }
  }

  lemma CRow(n: nat, k: nat)
    requires k <= n
    ensures (k + 1) * C(n, k + 1) == (n - k) * C(n, k)
  {
    if n == 0 {
      COutside(0, 1);
    } else {
      CAbsorb(n, k + 1);
      CColumn(n, k);
    }
  }

  /** The first j + 1 terms of the binomial expansion of (a + 1)^n. */
  function Terms(n: nat, j: nat, a: int): int {
    C(n, j) * Pow(a, j) + if j == 0 then 0 else Terms(n, j - 1, a)
  }

  lemma TermsStep(x: int, y: int, q: int, a: int, t: int)
    ensures (x + y) * (a * q) + a * t == y * (a * q) + a * (x * q + t)
  {
    assert (x + y) * (a * q) == y * (a * q) + x * (a * q);
    assert x * (a * q) == a * (x * q);
  }

  lemma {:induction false} TermsNextRow(n: nat, j: nat, a: int)
    ensures Terms(n + 1, j, a) == Terms(n, j, a) + if j == 0 then 0 else a * Terms(n, j - 1, a)
  {
    if j > 0 {
      TermsNextRow(n, j - 1, a);
      TermsStep(C(n, j - 1), C(n, j), Pow(a, j - 1), a, if j == 1 then 0 else Terms(n, j - 2, a));
    }
  }

  lemma {:induction false} BinomialTheorem(n: nat, a: int)
    ensures Terms(n, n, a) == Pow(a + 1, n)
  {
    if n > 0 {
      BinomialTheorem(n - 1, a);
      TermsNextRow(n - 1, n, a);
      COutside(n - 1, n);
      var t := Terms(n - 1, n - 1, a);
      assert 0 * Pow(a, n) == 0;
      assert t + a * t == (a + 1) * t;
    }
  }

  // ---- Fermat's little theorem -------------------------------------------------------

  lemma MultipleOf(n: int, d: int, p: int)
    requires p > 0 && n == p * d
    ensures n % p == 0
  {
    DivModUnique(n, p, d, 0);
  }

  lemma CDivisible(p: int, k: nat)
    requires IsPrime(p) && 0 < k < p
    ensures C(p, k) % p == 0
  {
    hide C, IsPrime;
    CAbsorb(p, k);
    var c, d := C(p, k), C(p - 1, k - 1);
    MultipleOf(k * c, d, p);
    DivModUnique(k, p, 0, k);
    Euclid(p, k, c);
  }

  lemma MultipleTerm(p: int, c: int, x: int, t: int)
    requires p > 0 && c % p == 0
    ensures (c * x + t) % p == t % p
  {
    var k := c / p;
    assert c * x == (k * x) * p;
    ModMultiple(t, k * x, p);
  }

  lemma {:induction false} TermsMod(p: int, j: nat, a: int)
    requires IsPrime(p) && j < p
    ensures Terms(p, j, a) % p == 1
  {
    if j == 0 {
      DivModUnique(1, p, 0, 1);
    } else {
      TermsMod(p, j - 1, a);
      CDivisible(p, j);
      MultipleTerm(p, C(p, j), Pow(a, j), Terms(p, j - 1, a));
    }
  }

  lemma {:induction false} CFull(n: nat)
    ensures C(n, n) == 1
  {
    if n > 0 {
      CFull(n - 1);
      COutside(n - 1, n);
    }
  }

  lemma TermsTop(p: nat, a: int)
    requires p > 0 && C(p, p) == 1
    ensures Terms(p, p, a) == Pow(a, p) + Terms(p, p - 1, a)
  {
    hide Pow, C;
  }

  lemma PowZero(p: int)
    requires p > 0
    ensures Pow(0, p) == 0
  {
  }

  /** a^p is congruent to a modulo a prime p. */
  lemma {:induction false} Fermat(p: int, a: nat)
    requires IsPrime(p)
    ensures Pow(a, p) % p == a % p
  {
    hide Pow, Terms, C;
    if a == 0 {
      PowZero(p);
    } else {
      Fermat(p, a - 1);
      BinomialTheorem(p, a - 1);
      TermsMod(p, p - 1, a - 1);
      CFull(p);
      TermsTop(p, a - 1);
      var t, q := Terms(p, p - 1, a - 1), Pow(a - 1, p);
      assert Pow(a, p) == q + t;
      ModAdd(q, t, p);
      ModAdd(a - 1, 1, p);
      DivModUnique(1, p, 0, 1);
    }
  }

  /** a^(p-1) is congruent to 1 when the prime p does not divide a. */
  lemma FermatUnit(p: int, a: nat)
    requires IsPrime(p) && a % p != 0
    ensures Pow(a, p - 1) % p == 1
  {
    Fermat(p, a);
    var q := Pow(a, p - 1);
    SameMod(a * q, a, p);
    assert a * q - a == a * (q - 1);
    Euclid(p, a, q - 1);
    var k := (q - 1) / p;
    assert q == 1 + k * p;
    ModMultiple(1, k, p);
    DivModUnique(1, p, 0, 1);
  }

  lemma SameMod(a: int, b: int, m: int)
    requires m > 0
    ensures a % m == b % m <==> (a - b) % m == 0
  {
    if a % m == b % m {
      DivModUnique(a - b, m, a / m - b / m, 0);
    }
    if (a - b) % m == 0 {
      var k := (a - b) / m;
      assert a == b + k * m;
      ModMultiple(b, k, m);
    }
  }

  /** Modulo a prime, 1 has no square roots but 1 and p - 1. */
  lemma SquareRootsOfOne(p: int, x: int)
    requires IsPrime(p) && 0 <= x < p && (x * x) % p == 1
    ensures x == 1 || x == p - 1
  {
    DivModUnique(1, p, 0, 1);
    SameMod(x * x, 1, p);
    assert x * x - 1 == (x - 1) * (x + 1);
    Euclid(p, x - 1, x + 1);
    if x == 0 {
      DivModUnique(0, p, 0, 0);
    } else {
      DivModUnique(x - 1, p, 0, x - 1);
      if x + 1 < p {
        DivModUnique(x + 1, p, 0, x + 1);
      }
    }
  }
}
