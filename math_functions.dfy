/** src/math_functions.py: the recursive Euclidean gcd and the camelCase
    twins of the primitives in src/math_utils.py. Each twin runs the same
    loop as its counterpart and is proved against the same reference
    definition, so the two agree on every input; millerRabin differs only in
    computing the gcd with EuclideanAlgo. */
module MathFunctions {
  import opened NumberTheory
  import opened Reference

  /** Recursive Euclid: the gcd of a and b for b > 0 (b itself when b
      divides a). Recursion ends because a % b < b. */
  function EuclideanAlgo(a: int, b: int): (g: int)
    requires b > 0
    ensures g == Gcd(a, b)
    decreases b
  {
    GcdRec(a, b);
    if a % b == 0 then b else EuclideanAlgo(b, a % b)
  }

  /** Extended Euclid returning the list [g, u, v]: g is gcd(a, b) and
      a*u + b*v == g for b > 0; [a, 1, 0] for b < 0 */
  method ExtendedGcd(a: int, b: int) returns (r: seq<int>)
    requires b != 0
    ensures var (g, u, v) := ExtendedGcdResult(a, b); r == [g, u, v]
    ensures |r| == 3 && a * r[1] + b * r[2] == r[0]
    ensures b > 0 ==> r[0] == Gcd(a, b)
    ensures b > 0 && r[0] == 1 ==> (a * r[1]) % b == 1 % b
    ensures b < 0 ==> r == [a, 1, 0]
  {
    var u, g := 1, a;
    var x, y := 0, b;
    ghost var gv, yv := 0, 1;
    while y > 0
      invariant g == a * u + b * gv && y == a * x + b * yv
      invariant b > 0 ==> y >= 0 && if y > 0 then Gcd(g, y) == Gcd(a, b) else g == Gcd(a, b)
      invariant b < 0 ==> g == a && u == 1 && y == b && gv == 0
      invariant EuclidLoop(g, u, x, y) == EuclidLoop(a, 1, 0, b)
      decreases y
    {
      ExtendedEuclidStep(a, b, g, y, u, x, gv, yv);
      var q, t := g / y, g % y;
      var s := u - q * x;
      u, g := x, y;
      x, y := s, t;
      gv, yv := yv, gv - q * yv;
    }
    var v := (g - a * u) / b;
    if b > 0 {
      BezoutExit(a, b, g, u, gv);
      if g == 1 {
        InverseFromBezout(a, b, u, v);
      }
    }
    r := [g, u, v];
  }

  /** Square-and-multiply: g^l mod n for l > 0, and 1 for l <= 0 whatever
      the modulus, since the loop never runs */
  method FastPowerSmall(g: int, A: int, N: int) returns (b: int)
    requires N > 0 || A <= 0
    ensures A <= 0 ==> b == 1
    ensures N > 0 ==> b == ModPow(g, A, N)
  {
    var a := g;
    b := 1;
    var e := A;
    while e > 0
      invariant A <= 0 ==> e == A && b == 1
      invariant A > 0 ==> N > 0 && e >= 0 && (b * Pow(a, e)) % N == Pow(g, A) % N
      invariant A > 0 && e == 0 ==> 0 <= b < N
      decreases e
    {
      SquareAndMultiplyStep(b, a, e, N);
      if e % 2 == 1 {
        b := b * a % N;
      }
      e := e / 2;
      a := a * a % N;
    }
    if A > 0 {
      DivModUnique(b, N, 0, b);
    }
  }

  /** Writes m == 2^k * q with q odd, the split TwoAdic defines; k >= 1
      exactly when m is even.
      (The source loops forever on m == 0.) */
  method Pow2TimesOdd(m: int) returns (k: nat, q: int)
    requires m != 0
    ensures (k, q) == TwoAdic(m)
    ensures m == Pow(2, k) * q && q % 2 == 1
    ensures m % 2 == 0 <==> k >= 1
  {
    k, q := 0, m;
    while q % 2 == 0
      invariant q != 0 && m == Pow(2, k) * q
      invariant k == 0 ==> q == m
      decreases if q < 0 then -q else q
    {
      HalveStep(k, q);
      k := k + 1;
      q := q / 2;
    }
    if k >= 1 {
      ShiftedIsEven(k, q);
    }
    TwoAdicUnique(m, k, q);
  }

  /** Miller-Rabin test of n with witness a. true means "composite proven":
      n is even, or a shares a nontrivial factor with n, or neither a^q == 1
      nor any a^(2^i q) == n - 1 (i < k) modulo n, where n - 1 == 2^k q */
  method MillerRabin(a: int, n: int) returns (composite: bool)
    requires n % 2 == 0 || n >= 3
    ensures composite == ProvesComposite(a, n)
  {
    if n % 2 == 0 {
      return true;
    }
    if 1 < EuclideanAlgo(a, n) < n {
      return true;
    }
    var k, q := Pow2TimesOdd(n - 1);
    ProvesCompositeOdd(a, n, k, q);
    var x := FastPowerSmall(a, q, n);
    assert x % n == x by { DivModUnique(x, n, 0, x); }
    if x % n == 1 {
      return false;
    }
    for i := 0 to k
      invariant x == Squaring(a, q, n, i)
      invariant forall j: nat :: j < i ==> Squaring(a, q, n, j) != n - 1
    {
      assert x % n == x by { DivModUnique(x, n, 0, x); }
      if x % n == n - 1 {
        return false;
      }
      SquaringStep(a, q, n, i);
      x := x * x % n;
    }
    return true;
  }

  /** Draws 20 witnesses in [2, n) and rejects n as soon as one proves it
      composite. randrange(2, n) raises for n < 3. */
  method ProbablyPrime(n: int, draws: seq<int>) returns (r: Result<bool>)
    requires |draws| == WitnessRounds
    ensures n < 3 ==> r == Err(EmptyRange)
    ensures n >= 3 ==> r == Ok(PassesAll(n, draws))
  {
    for i := 0 to WitnessRounds
      invariant n >= 3 ==> forall j :: 0 <= j < i ==> !ProvesComposite(RandRange(2, n, draws[j]), n)
    {
      if n <= 2 {
        return Err(EmptyRange);
      }
      var a := RandRange(2, n, draws[i]);
      var composite := MillerRabin(a, n);
      if composite {
        return Ok(false);
      }
    }
    if n <= 2 {
      return Err(EmptyRange);
    }
    return Ok(true);
  }

  /** Samples candidates in [lowerBound, upperBound) until one passes ProbablyPrime, in
      the source's order: the loop condition tests the current candidate; if
      it fails, the body draws the next candidate and returns it if it
      passes, and otherwise the loop condition retests it with fresh
      witnesses. Candidate draws and witness rounds are consumed in order;
      running out of either ends the search with Exhausted. */
  method FindPrime(lowerBound: int, upperBound: int, candidates: seq<int>, rounds: seq<seq<int>>)
    returns (r: Result<int>)
    requires WellFormedRounds(rounds)
    ensures r == Search(lowerBound, upperBound, candidates, rounds)
    ensures lowerBound >= upperBound ==> r == Err(EmptyRange)
    ensures 3 <= lowerBound < upperBound && r.Err? ==> r.failure == Exhausted
    ensures r.Ok? ==> lowerBound <= r.value < upperBound && r.value >= 3 &&
                      (exists j :: 0 <= j < |rounds| && PassesAll(r.value, rounds[j])) &&
                      (exists i :: 0 <= i < |candidates| && r.value == RandRange(lowerBound, upperBound, candidates[i]))
    ensures lowerBound < upperBound && |candidates| > 0 && RandRange(lowerBound, upperBound, candidates[0]) < 3 ==>
              r == Err(EmptyRange)
    ensures r == Err(EmptyRange) ==>
              lowerBound >= upperBound || exists i :: 0 <= i < |candidates| && RandRange(lowerBound, upperBound, candidates[i]) < 3
    ensures lowerBound < upperBound && |candidates| > 0 && |rounds| > 0 &&
            RandRange(lowerBound, upperBound, candidates[0]) >= 3 && IsPrime(RandRange(lowerBound, upperBound, candidates[0]))
            ==> r == Ok(RandRange(lowerBound, upperBound, candidates[0]))
    ensures 3 <= lowerBound < upperBound && |rounds| >= 2 * |candidates| ==>
              forall i :: 0 <= i < |candidates| && IsPrime(RandRange(lowerBound, upperBound, candidates[i])) ==>
                r.Ok? && exists j :: 0 <= j <= i && r.value == RandRange(lowerBound, upperBound, candidates[j])
  {
    SearchProperties(lowerBound, upperBound, candidates, rounds);
    if lowerBound >= upperBound {
      return Err(EmptyRange);
    }
    if |candidates| == 0 {
      return Err(Exhausted);
    }
    var k := 0;
    var n := RandRange(lowerBound, upperBound, candidates[0]);
    var used := 0;
    // A candidate below 3 makes randrange(2, n) inside probably_prime raise
    // before any witness is drawn, so it is tested ahead of the round supply.
    while true
      invariant 0 <= k < |candidates| && used == 2 * k && used <= |rounds|
      invariant n == Candidate(lowerBound, upperBound, candidates, k)
      invariant Search(lowerBound, upperBound, candidates, rounds) == SearchFrom(lowerBound, upperBound, candidates, rounds, k)
      decreases |rounds| - used
    {
      if n < 3 {
        return Err(EmptyRange);
      }
      if used == |rounds| {
        return Err(Exhausted);
      }
      var pp := ProbablyPrime(n, rounds[used]);
      used := used + 1;
      if pp == Ok(true) {
        return Ok(n);
      }
      if k + 1 == |candidates| {
        return Err(Exhausted);
      }
      n := RandRange(lowerBound, upperBound, candidates[k + 1]);
      k := k + 1;
      if n < 3 {
        return Err(EmptyRange);
      }
      if used == |rounds| {
        return Err(Exhausted);
      }
      pp := ProbablyPrime(n, rounds[used]);
      used := used + 1;
      if pp == Ok(true) {
        return Ok(n);
      }
    }
  }
}
