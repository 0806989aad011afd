/** Elementary number theory over unbounded integers: powers, divisibility,
    the greatest common divisor and its Bezout coefficients, primes, binomial
    coefficients and Fermat's little theorem. These are the mathematical
    definitions the RSA engine is specified against. */
module NumberTheory {

  /** b raised to the power e */
  function Pow(b: int, e: nat): (r: int)
    ensures b > 0 ==> r > 0
  {
    if e == 0 then 1 else b * Pow(b, e - 1)
  }

  /** d is a positive divisor of n */
  predicate Divides(d: int, n: int)
  {
    d > 0 && n % d == 0
  }

  /** g is the greatest common divisor of a and b: a positive common divisor
      that every common divisor divides */
  ghost predicate IsGcd(g: int, a: int, b: int)
  {
    Divides(g, a) && Divides(g, b) &&
    forall d :: Divides(d, a) && Divides(d, b) ==> Divides(d, g)
  }

  ghost predicate IsPrime(p: int)
  {
    p >= 2 && forall d :: Divides(d, p) ==> d == 1 || d == p
  }

  // ---------------------------------------------------------------------
  // Division and remainder

  lemma Distribute(a: int, x: int, y: int)
    ensures a * (x + y) == a * x + a * y
  {
  }

  lemma MulAtLeast(n: int, t: int)
    requires n > 0 && t >= 1
    ensures n * t >= n
  {
    assert n * t == n + n * (t - 1);
  }

  /** the quotient and remainder of Euclidean division are unique */
  lemma DivModUnique(x: int, n: int, q: int, r: int)
    requires n > 0 && 0 <= r < n && x == n * q + r
    ensures x / n == q && x % n == r
  {
    var q0, r0 := x / n, x % n;
    assert n * (q0 - q) == r - r0;
    if q0 > q {
      MulAtLeast(n, q0 - q);
    } else if q0 < q {
      MulAtLeast(n, q - q0);
    }
  }

  lemma ModAddMultiple(n: int, k: int, r: int)
    requires n > 0
    ensures (n * k + r) % n == r % n
  {
    assert n * k + r == n * (k + r / n) + r % n;
    DivModUnique(n * k + r, n, k + r / n, r % n);
  }

  lemma MulDivExact(n: int, k: int)
    requires n > 0
    ensures (n * k) / n == k && (n * k) % n == 0
  {
    DivModUnique(n * k, n, k, 0);
  }

  lemma MulMod(x: int, y: int, n: int)
    requires n > 0
    ensures (x * y) % n == ((x % n) * (y % n)) % n
  {
    var qx, rx, qy, ry := x / n, x % n, y / n, y % n;
    calc {
      x * y;
      (n * qx + rx) * (n * qy + ry);
      n * (qx * (n * qy + ry) + rx * qy) + rx * ry;
    }
    ModAddMultiple(n, qx * (n * qy + ry) + rx * qy, rx * ry);
  }

  /** congruence modulo n is divisibility of the difference */
  lemma ModEqDivides(x: int, y: int, n: int)
    requires n > 0
    ensures x % n == y % n <==> Divides(n, x - y)
  {
    assert x - y == n * (x / n - y / n) + (x % n - y % n);
    if x % n == y % n {
      MulDivExact(n, x / n - y / n);
    } else if x % n > y % n {
      DivModUnique(x - y, n, x / n - y / n, x % n - y % n);
    } else {
      assert x - y == n * (x / n - y / n - 1) + (n + x % n - y % n);
      DivModUnique(x - y, n, x / n - y / n - 1, n + x % n - y % n);
    }
  }

  // ---------------------------------------------------------------------
  // Powers

  lemma {:induction false} PowAdd(b: int, m: nat, n: nat)
    ensures Pow(b, m + n) == Pow(b, m) * Pow(b, n)
    decreases m
  {
    if m > 0 {
      PowAdd(b, m - 1, n);
      calc {
        Pow(b, m + n);
        b * Pow(b, m - 1 + n);
        b * (Pow(b, m - 1) * Pow(b, n));
        (b * Pow(b, m - 1)) * Pow(b, n);
      }
    }
  }

  lemma {:induction false} PowMul(b: int, m: nat, n: nat)
    ensures Pow(b, m * n) == Pow(Pow(b, m), n)
    decreases n
  {
    if n > 0 {
      PowMul(b, m, n - 1);
      assert m * n == m + m * (n - 1);
      PowAdd(b, m, m * (n - 1));
    }
  }

  lemma PowSquare(b: int, n: nat)
    ensures Pow(b * b, n) == Pow(b, 2 * n)
  {
    PowMul(b, 2, n);
  }

  lemma {:induction false} PowOne(n: nat)
    ensures Pow(1, n) == 1
  {
    if n > 0 { PowOne(n - 1); }
  }

  /** the base of a power may be reduced modulo n first */
  lemma {:induction false} PowMod(b: int, e: nat, n: int)
    requires n > 0
    ensures Pow(b % n, e) % n == Pow(b, e) % n
  {
    if e > 0 {
      var r, x, y := b % n, Pow(b % n, e - 1), Pow(b, e - 1);
      PowMod(b, e - 1, n);
      assert x % n == y % n;
      assert r % n == b % n by { DivModUnique(r, n, 0, r); }
      MulMod(r, x, n);
      MulMod(b, y, n);
      assert (r * x) % n == (b * y) % n;
    }
  }

  /** a multiple of d stays a multiple of d when raised to a positive power */
  lemma PowDivides(d: int, b: int, e: nat)
    requires Divides(d, b) && e >= 1
    ensures Divides(d, Pow(b, e))
  {
    assert Pow(b, e) == d * ((b / d) * Pow(b, e - 1));
    MulDivExact(d, (b / d) * Pow(b, e - 1));
  }

  // ---------------------------------------------------------------------
  // Divisibility

  lemma DividesLinear(d: int, x: int, y: int, u: int, v: int)
    requires Divides(d, x) && Divides(d, y)
    ensures Divides(d, x * u + y * v)
  {
    var kx, ky := x / d, y / d;
    assert x == d * kx && y == d * ky;
    assert x * u + y * v == d * (kx * u + ky * v);
    MulDivExact(d, kx * u + ky * v);
  }

  lemma DividesLe(d: int, n: int)
    requires Divides(d, n) && n > 0
    ensures d <= n
  {
    var k := n / d;
    assert n == d * k;
    MulAtLeast(d, k);
  }

  lemma DividesAntisym(x: int, y: int)
    requires Divides(x, y) && Divides(y, x)
    ensures x == y
  {
    DividesLe(x, y);
    DividesLe(y, x);
  }

  // ---------------------------------------------------------------------
  // Greatest common divisor and Bezout coefficients

  lemma GcdUnique(g1: int, g2: int, a: int, b: int)
    requires IsGcd(g1, a, b) && IsGcd(g2, a, b)
    ensures g1 == g2
  {
    DividesAntisym(g1, g2);
  }

  /** one step of Euclid's algorithm: the gcd of (b, a mod b) is that of (a, b) */
  lemma GcdStep(g: int, a: int, b: int)
    requires b > 0 && IsGcd(g, b, a % b)
    ensures IsGcd(g, a, b)
  {
    var q, r := a / b, a % b;
    assert a == b * q + r * 1;
    DividesLinear(g, b, r, q, 1);
    forall d | Divides(d, a) && Divides(d, b)
      ensures Divides(d, g)
    {
      assert a * 1 + b * (-q) == r;
      DividesLinear(d, a, b, 1, -q);
    }
  }

  lemma GcdOfMultiple(a: int, b: int)
    requires b > 0 && a % b == 0
    ensures IsGcd(b, a, b)
  {
  }

  /** every pair (a, b) with b > 0 has a gcd, and it is an integer
      combination of a and b */
  lemma {:induction false} Bezout(a: int, b: int) returns (g: int, u: int, v: int)
    requires b > 0
    ensures IsGcd(g, a, b) && a * u + b * v == g
    decreases b
  {
    if a % b == 0 {
      g, u, v := b, 0, 1;
      GcdOfMultiple(a, b);
    } else {
      var g', u', v' := Bezout(b, a % b);
      g, u, v := g', v', u' - (a / b) * v';
      assert a % b == a - b * (a / b);
      GcdStep(g, a, b);
    }
  }

  lemma GcdExists(a: int, b: int)
    requires b > 0
    ensures exists g :: IsGcd(g, a, b)
  {
    var g, u, v := Bezout(a, b);
  }

  /** the greatest common divisor of a and b */
  ghost function Gcd(a: int, b: int): (g: int)
    requires b > 0
    ensures IsGcd(g, a, b)
  {
    GcdExists(a, b);
    var g :| IsGcd(g, a, b); g
  }

  /** the recursion Euclid's algorithm follows */
  lemma GcdRec(a: int, b: int)
    requires b > 0
    ensures a % b == 0 ==> Gcd(a, b) == b
    ensures a % b != 0 ==> Gcd(a, b) == Gcd(b, a % b)
  {
    if a % b == 0 {
      GcdOfMultiple(a, b);
      GcdUnique(Gcd(a, b), b, a, b);
    } else {
      GcdStep(Gcd(b, a % b), a, b);
      GcdUnique(Gcd(a, b), Gcd(b, a % b), a, b);
    }
  }

  /** a number is coprime to a prime it is not a multiple of */
  lemma CoprimeToPrime(a: int, p: int)
    requires IsPrime(p) && !Divides(p, a)
    ensures Gcd(a, p) == 1
  {
  }

  // ---------------------------------------------------------------------
  // Primes

  /** Euclid's lemma: a prime dividing a product divides one of its factors */
  lemma EuclidLemma(p: int, x: int, y: int)
    requires IsPrime(p) && Divides(p, x * y)
    ensures Divides(p, x) || Divides(p, y)
  {
    if !Divides(p, x) {
      var g, u, v := Bezout(x, p);
      assert g == 1 by { CoprimeToPrime(x, p); GcdUnique(g, Gcd(x, p), x, p); }
      assert (x * y) * u + p * (y * v) == y * (x * u + p * v);
      DividesLinear(p, x * y, p, u, y * v);
    }
  }

  /** the only square roots of 1 modulo a prime are 1 and -1 */
  lemma SquareRootOfOne(p: int, x: int)
    requires IsPrime(p) && (x * x) % p == 1
    ensures x % p == 1 || x % p == p - 1
  {
    assert 1 % p == 1 by { DivModUnique(1, p, 0, 1); }
    assert Divides(p, (x - 1) * (x + 1)) by {
      ModEqDivides(x * x, 1, p);
      assert x * x - 1 == (x - 1) * (x + 1);
    }
    EuclidLemma(p, x - 1, x + 1);
    if Divides(p, x - 1) {
      ModEqDivides(x, 1, p);
    } else {
      assert (p - 1) % p == p - 1 by { DivModUnique(p - 1, p, 0, p - 1); }
      assert Divides(p, x - (p - 1)) by {
        DividesLinear(p, x + 1, p, 1, -1);
      }
      ModEqDivides(x, p - 1, p);
    }
  }

  /** two distinct primes that both divide x: their product divides x */
  lemma DistinctPrimesDivide(p: int, q: int, x: int)
    requires IsPrime(p) && IsPrime(q) && p != q
    requires Divides(p, x) && Divides(q, x)
    ensures Divides(p * q, x)
  {
    var k := x / p;
    assert x == p * k;
    assert !Divides(q, p);
    EuclidLemma(q, p, k);
    var j := k / q;
    assert x == (p * q) * j;
    MulDivExact(p * q, j);
  }

  // ---------------------------------------------------------------------
  // Binomial coefficients and Fermat's little theorem

  /** n choose k, by Pascal's rule */
  function Binom(n: nat, k: nat): nat
  {
    if k == 0 then 1 else if n == 0 then 0 else Binom(n - 1, k - 1) + Binom(n - 1, k)
  }

  lemma {:induction false} BinomAbove(n: nat, k: nat)
    requires k > n
    ensures Binom(n, k) == 0
  {
    if n > 0 { BinomAbove(n - 1, k - 1); BinomAbove(n - 1, k); }
  }

  lemma {:induction false} BinomDiagonal(n: nat)
    ensures Binom(n, n) == 1
  {
    if n > 0 { BinomDiagonal(n - 1); BinomAbove(n - 1, n); }
  }

  lemma {:induction false} BinomOne(n: nat)
    ensures Binom(n, 1) == n
  {
    if n > 0 { BinomOne(n - 1); }
  }

  /** the absorption identity k * C(n, k) == n * C(n - 1, k - 1) */
  lemma {:induction false} BinomAbsorb(n: nat, k: nat)
    requires n >= 1 && k >= 1
    ensures k * Binom(n, k) == n * Binom(n - 1, k - 1)
  {
    if k == 1 {
      BinomOne(n);
    } else if n == 1 {
      BinomAbove(0, k - 1);
      BinomAbove(0, k);
    } else {
      BinomAbsorb(n - 1, k - 1);
      BinomAbsorb(n - 1, k);
      var a, b := Binom(n - 1, k - 1), Binom(n - 1, k);
      var c0, c1 := Binom(n - 2, k - 2), Binom(n - 2, k - 1);
      assert Binom(n, k) == a + b;
      assert a == c0 + c1;
      AbsorbAlgebra(n, k, a, b, c0, c1);
    }
  }

  lemma AbsorbAlgebra(n: int, k: int, a: int, b: int, c0: int, c1: int)
    requires a == c0 + c1 && (k - 1) * a == (n - 1) * c0 && k * b == (n - 1) * c1
    ensures k * (a + b) == n * a
  {
    assert k * (a + b) == (k - 1) * a + a + k * b;
    assert (n - 1) * c0 + (n - 1) * c1 == (n - 1) * a;
  }

  /** a prime divides every binomial coefficient C(p, k) with 0 < k < p */
  lemma PrimeDividesBinom(p: nat, k: nat)
    requires IsPrime(p) && 0 < k < p
    ensures Divides(p, Binom(p, k))
  {
    BinomAbsorb(p, k);
    assert Divides(p, k * Binom(p, k)) by {
      MulDivExact(p, Binom(p - 1, k - 1));
    }
    EuclidLemma(p, k, Binom(p, k));
    if Divides(p, k) {
      DividesLe(p, k);
    }
  }

  /** the first k terms of the binomial expansion of (a + 1)^n */
  function BinomSum(n: nat, a: int, k: nat): int
  {
    if k == 0 then 0 else BinomSum(n, a, k - 1) + Binom(n, k - 1) * Pow(a, k - 1)
  }

  lemma {:induction false} BinomSumPascal(n: nat, a: int, k: nat)
    ensures BinomSum(n + 1, a, k + 1) == BinomSum(n, a, k + 1) + a * BinomSum(n, a, k)
  {
    if k > 0 {
      BinomSumPascal(n, a, k - 1);
      var pk, pk1 := Pow(a, k), Pow(a, k - 1);
      var s0, s1 := BinomSum(n, a, k - 1), BinomSum(n, a, k);
      var b0, b1 := Binom(n, k - 1), Binom(n, k);
      assert Binom(n + 1, k) == b0 + b1;
      PascalAlgebra(a, s0, s1, b0, b1, pk, pk1);
    }
  }

  lemma PascalAlgebra(a: int, s0: int, s1: int, b0: int, b1: int, pk: int, pk1: int)
    requires pk == a * pk1 && s1 == s0 + b0 * pk1
    ensures s1 + a * s0 + (b0 + b1) * pk == (s1 + b1 * pk) + a * s1
  {
    assert (b0 + b1) * pk == b0 * pk + b1 * pk;
    assert b0 * pk == a * (b0 * pk1);
    Distribute(a, s0, b0 * pk1);
  }

  /** the binomial theorem for (a + 1)^n */
  lemma {:induction false} Binomial(n: nat, a: int)
    ensures Pow(a + 1, n) == BinomSum(n, a, n + 1)
  {
    if n > 0 {
      Binomial(n - 1, a);
      BinomSumPascal(n - 1, a, n);
      BinomAbove(n - 1, n);
      var s := BinomSum(n - 1, a, n);
      assert BinomSum(n - 1, a, n + 1) == s;
      assert Pow(a + 1, n) == (a + 1) * s;
      assert (a + 1) * s == s + a * s;
    }
  }

  lemma {:induction false} BinomSumModPrime(p: nat, a: int, k: nat)
    requires IsPrime(p) && 1 <= k <= p
    ensures BinomSum(p, a, k) % p == 1
  {
    if k == 1 {
      DivModUnique(1, p, 0, 1);
    } else {
      BinomSumModPrime(p, a, k - 1);
      PrimeDividesBinom(p, k - 1);
      var c := Binom(p, k - 1) / p;
      assert Binom(p, k - 1) * Pow(a, k - 1) == p * (c * Pow(a, k - 1));
      ModAddMultiple(p, c * Pow(a, k - 1), BinomSum(p, a, k - 1));
    }
  }

  /** (a + 1)^p == a^p + 1 modulo a prime p */
  lemma FreshmansDream(p: nat, a: int)
    requires IsPrime(p)
    ensures Pow(a + 1, p) % p == (Pow(a, p) + 1) % p
  {
    Binomial(p, a);
    BinomDiagonal(p);
    BinomSumModPrime(p, a, p);
    var s := BinomSum(p, a, p);
    assert Pow(a + 1, p) == s + Pow(a, p);
    assert s == p * (s / p) + 1;
    ModAddMultiple(p, s / p, Pow(a, p) + 1);
  }

  lemma {:induction false} FermatNat(p: nat, a: nat)
    requires IsPrime(p)
    ensures Pow(a, p) % p == a % p
  {
    if a == 0 {
      assert Pow(0, p) == 0 * Pow(0, p - 1);
    } else {
      FermatNat(p, a - 1);
      FreshmansDream(p, a - 1);
      ModSucc(Pow(a - 1, p), a - 1, p);
    }
  }

  /** congruence is preserved by adding 1 to both sides */
  lemma ModSucc(x: int, y: int, n: int)
    requires n > 0 && x % n == y % n
    ensures (x + 1) % n == (y + 1) % n
  {
    ModEqDivides(x, y, n);
    assert (x + 1) - (y + 1) == x - y;
    ModEqDivides(x + 1, y + 1, n);
  }

  /** Fermat's little theorem: a^p == a modulo a prime p */
  lemma Fermat(p: int, a: int)
    requires IsPrime(p)
    ensures Pow(a, p) % p == a % p
  {
    PowMod(a, p, p);
    FermatNat(p, a % p);
    DivModUnique(a % p, p, 0, a % p);
  }

  /** a^(p-1) == 1 modulo a prime p that does not divide a */
  lemma FermatCoprime(p: int, a: int)
    requires IsPrime(p) && !Divides(p, a)
    ensures Pow(a, p - 1) % p == 1
  {
    Fermat(p, a);
    ModEqDivides(Pow(a, p), a, p);
    assert Pow(a, p) - a == a * (Pow(a, p - 1) - 1);
    EuclidLemma(p, a, Pow(a, p - 1) - 1);
    ModEqDivides(Pow(a, p - 1), 1, p);
    DivModUnique(1, p, 0, 1);
  }
}
