/** The number-theoretic primitives of src/math_utils.py: iterative extended
    Euclid, square-and-multiply modular power, the power-of-two split, the
    Miller-Rabin witness test, the 20-round probable-prime driver and the
    rejection-sampling prime search. Random draws are inputs (see
    Reference.RandRange). */
module MathUtils {
  import opened NumberTheory
  import opened Reference

  /** Extended Euclid. For b > 0, g is gcd(a, b) and (u, v) are Bezout
      coefficients, so u is an inverse of a modulo b when g == 1. For b < 0
      the loop never runs and (a, 1, 0) comes back. */
  method ExtendedGcd(a: int, b: int) returns (g: int, u: int, v: int)
    requires b != 0
    ensures (g, u, v) == ExtendedGcdResult(a, b)
    ensures a * u + b * v == g
    ensures b > 0 ==> g == Gcd(a, b)
    ensures b > 0 && g == 1 ==> (a * u) % b == 1 % b
    ensures b < 0 ==> g == a && u == 1 && v == 0
  {
    u, g := 1, a;
    var x, y := 0, b;
    ghost var gv, yv := 0, 1;
    while y > 0
      invariant g == a * u + b * gv && y == a * x + b * yv
      invariant b > 0 ==> y >= 0 && if y > 0 then Gcd(g, y) == Gcd(a, b) else g == Gcd(a, b)
      invariant b < 0 ==> g == a && u == 1 && y == b && gv == 0
      invariant EuclidLoop(g, u, x, y) == EuclidLoop(a, 1, 0, b)
      decreases y
    {
      ExtendedEuclidStep(a, b, g, y, u, x, gv, yv);
      var q, t := g / y, g % y;
      var s := u - q * x;
      u, g := x, y;
      x, y := s, t;
      gv, yv := yv, gv - q * yv;
    }
    v := (g - a * u) / b;
    if b > 0 {
      BezoutExit(a, b, g, u, gv);
      if g == 1 {
        InverseFromBezout(a, b, u, v);
      }
    }
  }

  /** Square-and-multiply: g^l mod n for l > 0, and 1 for l <= 0 whatever
      the modulus, since the loop never runs */
  method FastPower(g: int, l: int, n: int) returns (b: int)
    requires n > 0 || l <= 0
    ensures l <= 0 ==> b == 1
    ensures n > 0 ==> b == ModPow(g, l, n)
  {
    var a := g;
    b := 1;
    var e := l;
    while e > 0
      invariant l <= 0 ==> e == l && b == 1
      invariant l > 0 ==> n > 0 && e >= 0 && (b * Pow(a, e)) % n == Pow(g, l) % n
      invariant l > 0 && e == 0 ==> 0 <= b < n
      decreases e
    {
      SquareAndMultiplyStep(b, a, e, n);
      if e % 2 == 1 {
        b := b * a % n;
      }
      e := e / 2;
      a := a * a % n;
    }
    if l > 0 {
      DivModUnique(b, n, 0, b);
    }
  }

  /** Writes m == 2^k * q with q odd, the split TwoAdic defines; k >= 1
      exactly when m is even.
      (The source loops forever on m == 0.) */
  method CountPowersTwo(m: int) returns (k: nat, q: int)
    requires m != 0
    ensures (k, q) == TwoAdic(m)
    ensures m == Pow(2, k) * q && q % 2 == 1
    ensures m % 2 == 0 <==> k >= 1
  {
    k, q := 0, m;
    while q % 2 == 0
      invariant q != 0 && m == Pow(2, k) * q
      invariant k == 0 ==> q == m
      decreases if q < 0 then -q else q
    {
      HalveStep(k, q);
      k := k + 1;
      q := q / 2;
    }
    if k >= 1 {
      ShiftedIsEven(k, q);
    }
    TwoAdicUnique(m, k, q);
  }

  /** Miller-Rabin test of n with witness a. true means "composite proven":
      n is even, or a shares a nontrivial factor with n, or neither a^q == 1
      nor any a^(2^i q) == n - 1 (i < k) modulo n, where n - 1 == 2^k q */
  method MillerRabin(a: int, n: int) returns (composite: bool)
    requires n % 2 == 0 || n >= 3
    ensures composite == ProvesComposite(a, n)
  {
    if n % 2 == 0 {
      return true;
    }
    var g, _, _ := ExtendedGcd(a, n);
    if 1 < g < n {
      return true;
    }
    var k, q := CountPowersTwo(n - 1);
    ProvesCompositeOdd(a, n, k, q);
    var x := FastPower(a, q, n);
    assert x % n == x by { DivModUnique(x, n, 0, x); }
    if x % n == 1 {
      return false;
    }
    for i := 0 to k
      invariant x == Squaring(a, q, n, i)
      invariant forall j: nat :: j < i ==> Squaring(a, q, n, j) != n - 1
    {
      assert x % n == x by { DivModUnique(x, n, 0, x); }
      if x % n == n - 1 {
        return false;
      }
      SquaringStep(a, q, n, i);
      x := x * x % n;
    }
    return true;
  }

  /** Draws 20 witnesses in [2, n) and rejects n as soon as one proves it
      composite. randrange(2, n) raises for n < 3. */
  method ProbablyPrime(n: int, draws: seq<int>) returns (r: Result<bool>)
    requires |draws| == WitnessRounds
    ensures n < 3 ==> r == Err(EmptyRange)
    ensures n >= 3 ==> r == Ok(PassesAll(n, draws))
  {
    for i := 0 to WitnessRounds
      invariant n >= 3 ==> forall j :: 0 <= j < i ==> !ProvesComposite(RandRange(2, n, draws[j]), n)
    {
      if n <= 2 {
        return Err(EmptyRange);
      }
      var a := RandRange(2, n, draws[i]);
      var composite := MillerRabin(a, n);
      if composite {
        return Ok(false);
      }
    }
    if n <= 2 {
      return Err(EmptyRange);
    }
    return Ok(true);
  }

  /** Samples candidates in [lower, upper) until one passes ProbablyPrime, in
      the source's order: the loop condition tests the current candidate; if
      it fails, the body draws the next candidate and returns it if it
      passes, and otherwise the loop condition retests it with fresh
      witnesses. Candidate draws and witness rounds are consumed in order;
      running out of either ends the search with Exhausted. */
  method FindPrime(lower: int, upper: int, candidates: seq<int>, rounds: seq<seq<int>>)
    returns (r: Result<int>)
    requires WellFormedRounds(rounds)
    ensures r == Search(lower, upper, candidates, rounds)
    ensures lower >= upper ==> r == Err(EmptyRange)
    ensures 3 <= lower < upper && r.Err? ==> r.failure == Exhausted
    ensures r.Ok? ==> lower <= r.value < upper && r.value >= 3 &&
                      (exists j :: 0 <= j < |rounds| && PassesAll(r.value, rounds[j])) &&
                      (exists i :: 0 <= i < |candidates| && r.value == RandRange(lower, upper, candidates[i]))
    ensures lower < upper && |candidates| > 0 && RandRange(lower, upper, candidates[0]) < 3 ==>
              r == Err(EmptyRange)
    ensures r == Err(EmptyRange) ==>
              lower >= upper || exists i :: 0 <= i < |candidates| && RandRange(lower, upper, candidates[i]) < 3
    ensures lower < upper && |candidates| > 0 && |rounds| > 0 &&
            RandRange(lower, upper, candidates[0]) >= 3 && IsPrime(RandRange(lower, upper, candidates[0]))
            ==> r == Ok(RandRange(lower, upper, candidates[0]))
    ensures 3 <= lower < upper && |rounds| >= 2 * |candidates| ==>
              forall i :: 0 <= i < |candidates| && IsPrime(RandRange(lower, upper, candidates[i])) ==>
                r.Ok? && exists j :: 0 <= j <= i && r.value == RandRange(lower, upper, candidates[j])
  {
    SearchProperties(lower, upper, candidates, rounds);
    if lower >= upper {
      return Err(EmptyRange);
    }
    if |candidates| == 0 {
      return Err(Exhausted);
    }
    var k := 0;
    var n := RandRange(lower, upper, candidates[0]);
    var used := 0;
    // A candidate below 3 makes randrange(2, n) inside probably_prime raise
    // before any witness is drawn, so it is tested ahead of the round supply.
    while true
      invariant 0 <= k < |candidates| && used == 2 * k && used <= |rounds|
      invariant n == Candidate(lower, upper, candidates, k)
      invariant Search(lower, upper, candidates, rounds) == SearchFrom(lower, upper, candidates, rounds, k)
      decreases |rounds| - used
    {
      if n < 3 {
        return Err(EmptyRange);
      }
      if used == |rounds| {
        return Err(Exhausted);
      }
      var pp := ProbablyPrime(n, rounds[used]);
      used := used + 1;
      if pp == Ok(true) {
        return Ok(n);
      }
      if k + 1 == |candidates| {
        return Err(Exhausted);
      }
      n := RandRange(lower, upper, candidates[k + 1]);
      k := k + 1;
      if n < 3 {
        return Err(EmptyRange);
      }
      if used == |rounds| {
        return Err(Exhausted);
      }
      pp := ProbablyPrime(n, rounds[used]);
      used := used + 1;
      if pp == Ok(true) {
        return Ok(n);
      }
    }
  }
}
