/** Reference definitions the engine's loops are proved against: the value
    square-and-multiply computes, the power-of-two split of an integer, the
    Miller-Rabin verdict for one witness, and the draws of the random
    generator. Also the outcome type for the errors the engine can raise. */
module Reference {
  import opened NumberTheory

  /** Why an operation produced no value. EmptyRange is the ValueError that
      random.randrange raises for an empty range; Exhausted means that the
      draws supplied to the model ran out before a rejection loop ended. */
  datatype Failure = EmptyRange | Exhausted

  datatype Result<T> = Ok(value: T) | Err(failure: Failure)

  /** number of Miller-Rabin witnesses drawn per primality test */
  const WitnessRounds: nat := 20

  // ---------------------------------------------------------------------
  // Random draws

  /** The value random.randrange(lo, hi) yields when the generator's raw
      output is raw. Every value of [lo, hi) is reachable (RandRangeReaches). */
  function RandRange(lo: int, hi: int, raw: int): (r: int)
    requires lo < hi
    ensures lo <= r < hi
  {
    lo + raw % (hi - lo)
  }

  lemma RandRangeReaches(lo: int, hi: int, r: int)
    requires lo <= r < hi
    ensures RandRange(lo, hi, r - lo) == r
  {
    DivModUnique(r - lo, hi - lo, 0, r - lo);
  }

  // ---------------------------------------------------------------------
  // Extended Euclid

  /** the running coefficients of extended Euclid stay Bezout coefficients */
  lemma BezoutUpdate(a: int, b: int, g: int, y: int, u: int, x: int, gv: int, yv: int, q: int)
    requires g == a * u + b * gv && y == a * x + b * yv
    ensures g - y * q == a * (u - q * x) + b * (gv - q * yv)
  {
    assert y * q == a * (x * q) + b * (yv * q);
  }

  /** one iteration of extended Euclid on (g, y) with tracked coefficients:
      the remainder is again a combination of a and b, and the gcd carries
      over to the new pair (or is y when the remainder is 0) */
  lemma ExtendedEuclidStep(a: int, b: int, g: int, y: int, u: int, x: int, gv: int, yv: int)
    requires y > 0 && g == a * u + b * gv && y == a * x + b * yv
    ensures g % y == a * (u - (g / y) * x) + b * (gv - (g / y) * yv)
    ensures g % y > 0 ==> Gcd(y, g % y) == Gcd(g, y)
    ensures g % y == 0 ==> y == Gcd(g, y)
  {
    var q := g / y;
    assert g % y == g - y * q;
    BezoutUpdate(a, b, g, y, u, x, gv, yv, q);
    GcdRec(g, y);
  }

  /** The (g, u) at which the extended Euclid loop stops when it starts from
      the state (g, u, x, y): while y > 0 it moves to
      (y, x, u - (g // y) * x, g % y). */
  function EuclidLoop(g: int, u: int, x: int, y: int): (int, int)
    decreases if y > 0 then y else 0
  {
    if y <= 0 then (g, u) else EuclidLoop(y, x, u - (g / y) * x, g % y)
  }

  /** the triple (g, u, v) extended Euclid returns for (a, b) */
  function ExtendedGcdResult(a: int, b: int): (int, int, int)
    requires b != 0
  {
    var (g, u) := EuclidLoop(a, 1, 0, b);
    (g, u, (g - a * u) / b)
  }

  /** after the loop, (g - a*u) // b is exactly the tracked coefficient of b */
  lemma BezoutExit(a: int, b: int, g: int, u: int, gv: int)
    requires b > 0 && g == a * u + b * gv
    ensures (g - a * u) / b == gv
  {
    assert g - a * u == b * gv;
    MulDivExact(b, gv);
  }

  /** a Bezout identity equal to 1 makes u an inverse of a modulo b */
  lemma InverseFromBezout(a: int, b: int, u: int, v: int)
    requires b > 0 && a * u + b * v == 1
    ensures (a * u) % b == 1 % b
  {
    assert a * u == b * (-v) + 1;
    ModAddMultiple(b, -v, 1);
  }

  // ---------------------------------------------------------------------
  // Modular exponentiation

  /** g^l mod n for a positive exponent; for l <= 0 square-and-multiply
      returns its initial accumulator 1 without reducing it */
  function ModPow(g: int, l: int, n: int): (r: int)
    requires n > 0
    ensures l > 0 ==> 0 <= r < n
  {
    if l <= 0 then 1 else Pow(g, l) % n
  }

  /** reducing the base first does not change the result */
  lemma ModPowReduceBase(g: int, l: int, n: int)
    requires n > 0
    ensures ModPow(g % n, l, n) == ModPow(g, l, n)
  {
    if l > 0 { PowMod(g, l, n); }
  }

  /** powers of 0 are 0 */
  lemma {:induction false} ModPowOfZero(l: int, n: int)
    requires n > 0 && l >= 1
    ensures ModPow(0, l, n) == 0
  {
    assert Pow(0, l) == 0 * Pow(0, l - 1);
  }

  /** raising to e and then to d is raising to e * d */
  lemma ModPowCompose(m: int, e: int, d: int, n: int)
    requires n > 0 && e >= 1 && d >= 1
    ensures ModPow(ModPow(m, e, n), d, n) == ModPow(m, e * d, n)
  {
    PowMod(Pow(m, e), d, n);
    PowMul(m, e, d);
  }

  /** One round of square-and-multiply keeps b * a^e modulo n: when e is odd
      the accumulator absorbs a; then a is squared and e halved. */
  lemma SquareAndMultiplyStep(b: int, a: int, e: nat, n: int)
    requires n > 0 && e > 0
    ensures ((if e % 2 == 1 then b * a % n else b) * Pow(a * a % n, e / 2)) % n
            == (b * Pow(a, e)) % n
  {
    var h := e / 2;
    var p := Pow(a * a, h);
    PowSquare(a, h);
    PowMod(a * a, h, n);
    var p' := Pow(a * a % n, h);
    if e % 2 == 1 {
      assert Pow(a, e) == a * Pow(a, 2 * h);
      OddStep(b, a, p, p', n);
    } else {
      assert Pow(a, e) == p;
      MulMod(b, p', n);
      MulMod(b, p, n);
    }
  }

  /** the odd case of SquareAndMultiplyStep, on named values */
  lemma OddStep(b: int, a: int, p: int, p': int, n: int)
    requires n > 0 && p' % n == p % n
    ensures ((b * a % n) * p') % n == (b * (a * p)) % n
  {
    var b' := b * a % n;
    MulMod(b', p', n);
    DivModUnique(b', n, 0, b');
    MulMod(b * a, p, n);
    DivModUnique(p % n, n, 0, p % n);
    assert (b * a) * p == b * (a * p);
  }

  // ---------------------------------------------------------------------
  // Power-of-two split

  /** the unique (k, q) with m == 2^k * q and q odd */
  function TwoAdic(m: int): (r: (nat, int))
    requires m != 0
    ensures m == Pow(2, r.0) * r.1 && r.1 % 2 == 1
    ensures m > 0 ==> r.1 > 0
    decreases if m < 0 then -m else m
  {
    if m % 2 == 1 then (0, m)
    else
      var r := TwoAdic(m / 2);
      (r.0 + 1, r.1)
  }

  /** halving an even factor moves one 2 into the power */
  lemma HalveStep(k: nat, q: int)
    requires q % 2 == 0
    ensures Pow(2, k + 1) * (q / 2) == Pow(2, k) * q
  {
    var p := Pow(2, k);
    assert q == 2 * (q / 2);
    assert (2 * p) * (q / 2) == p * (2 * (q / 2));
  }

  /** 2^k * q with k >= 1 is even */
  lemma ShiftedIsEven(k: nat, q: int)
    requires k >= 1
    ensures (Pow(2, k) * q) % 2 == 0
  {
    var h := Pow(2, k - 1) * q;
    assert Pow(2, k) * q == 2 * h by {
      assert (2 * Pow(2, k - 1)) * q == 2 * (Pow(2, k - 1) * q);
    }
    MulDivExact(2, h);
  }

  lemma {:induction false} TwoAdicUnique(m: int, k: nat, q: int)
    requires m == Pow(2, k) * q && q % 2 == 1
    ensures m != 0 && TwoAdic(m) == (k, q)
    decreases k
  {
    if k > 0 {
      var h := Pow(2, k - 1) * q;
      assert m == 2 * h by {
        assert (2 * Pow(2, k - 1)) * q == 2 * (Pow(2, k - 1) * q);
      }
      MulDivExact(2, h);
      TwoAdicUnique(h, k - 1, q);
      assert m % 2 == 0 && m / 2 == h;
      assert TwoAdic(m) == (TwoAdic(h).0 + 1, TwoAdic(h).1);
    } else {
      assert m == q;
    }
  }

  // ---------------------------------------------------------------------
  // Miller-Rabin

  /** the value Miller-Rabin inspects after i squarings: a^(2^i * q) mod n */
  function Squaring(a: int, q: nat, n: int, i: nat): int
    requires n > 0
  {
    Pow(a, Pow(2, i) * q) % n
  }

  /** Miller-Rabin's verdict on candidate n for witness a; true means that n
      is even or that a proves n composite */
  ghost predicate ProvesComposite(a: int, n: int)
    requires n % 2 == 0 || n >= 3
  {
    n % 2 == 0 || 1 < Gcd(a, n) < n ||
    (var (k, q) := TwoAdic(n - 1);
     Squaring(a, q, n, 0) != 1 &&
     forall i: nat :: i < k ==> Squaring(a, q, n, i) != n - 1)
  }

  /** for odd n >= 3 the verdict reads off any split n - 1 == 2^k q with q odd */
  lemma ProvesCompositeOdd(a: int, n: int, k: nat, q: int)
    requires n >= 3 && n % 2 == 1 && n - 1 == Pow(2, k) * q && q % 2 == 1
    ensures q > 0
    ensures ProvesComposite(a, n) <==>
              1 < Gcd(a, n) < n ||
              (Squaring(a, q, n, 0) != 1 && forall i: nat :: i < k ==> Squaring(a, q, n, i) != n - 1)
  {
    TwoAdicUnique(n - 1, k, q);
    assert TwoAdic(n - 1) == (k, q);
    assert n % 2 != 0;
  }

  /** one more squaring squares the inspected value modulo n */
  lemma SquaringStep(a: int, q: nat, n: int, i: nat)
    requires n > 0
    ensures Squaring(a, q, n, i + 1) == (Squaring(a, q, n, i) * Squaring(a, q, n, i)) % n
  {
    var e := Pow(2, i) * q;
    assert Pow(2, i + 1) * q == e + e;
    PowAdd(a, e, e);
    MulMod(Pow(a, e), Pow(a, e), n);
  }

  /** for a prime n, if a^(2^i q) == 1 then a^q == 1 or some earlier
      squaring gave n - 1 */
  lemma {:induction false} SquaringChainBack(a: int, q: nat, n: int, i: nat)
    requires IsPrime(n) && Squaring(a, q, n, i) == 1
    ensures Squaring(a, q, n, 0) == 1 ||
            exists j: nat :: j < i && Squaring(a, q, n, j) == n - 1
  {
    if i > 0 {
      var x := Squaring(a, q, n, i - 1);
      SquaringStep(a, q, n, i - 1);
      SquareRootOfOne(n, x);
      DivModUnique(x, n, 0, x);
      if x != n - 1 {
        SquaringChainBack(a, q, n, i - 1);
      }
    }
  }

  lemma PrimeIsOdd(n: int)
    requires IsPrime(n) && n >= 3
    ensures n % 2 == 1
  {
    assert !Divides(2, n);
  }

  /** Miller-Rabin never declares an odd prime composite for a witness in [2, n) */
  lemma PrimeHasNoWitness(a: int, n: int)
    requires IsPrime(n) && n >= 3 && 2 <= a < n
    ensures !ProvesComposite(a, n)
  {
    PrimeIsOdd(n);
    assert !Divides(n, a) by {
      if Divides(n, a) {
        DividesLe(n, a);
        assert false;
      }
    }
    CoprimeToPrime(a, n);
    var (k, q) := TwoAdic(n - 1);
    FermatCoprime(n, a);
    assert Squaring(a, q, n, k) == 1;
    SquaringChainBack(a, q, n, k);
  }

  /** an even candidate is always declared composite */
  lemma EvenProvesComposite(a: int, n: int)
    requires n % 2 == 0
    ensures ProvesComposite(a, n)
  {
  }

  /** the probable-prime verdict for candidate n >= 3 and raw witness draws:
      no drawn witness proves n composite */
  ghost predicate PassesAll(n: int, draws: seq<int>)
    requires n >= 3
  {
    forall i :: 0 <= i < |draws| ==> !ProvesComposite(RandRange(2, n, draws[i]), n)
  }

  /** every prime n >= 3 passes, whatever the witnesses drawn */
  lemma PrimePassesAll(n: int, draws: seq<int>)
    requires IsPrime(n) && n >= 3
    ensures PassesAll(n, draws)
  {
    forall i | 0 <= i < |draws|
      ensures !ProvesComposite(RandRange(2, n, draws[i]), n)
    {
      PrimeHasNoWitness(RandRange(2, n, draws[i]), n);
    }
  }

  // ---------------------------------------------------------------------
  // Prime search

  predicate WellFormedRounds(rounds: seq<seq<int>>)
  {
    forall j :: 0 <= j < |rounds| ==> |rounds[j]| == WitnessRounds
  }

  /** the k-th candidate the prime search draws */
  function Candidate(lower: int, upper: int, candidates: seq<int>, k: nat): int
    requires lower < upper && k < |candidates|
  {
    RandRange(lower, upper, candidates[k])
  }

  /** The outcome of find_prime once candidate k is about to be tested by
      the loop condition. The loop condition uses witness round 2k; if it
      fails, the body draws candidate k + 1 and tests it with round 2k + 1;
      if that fails too, the loop condition retests candidate k + 1. A
      candidate below 3 fails with EmptyRange before any witness is drawn,
      since randrange(2, n) raises at once. */
  ghost function SearchFrom(lower: int, upper: int, candidates: seq<int>, rounds: seq<seq<int>>, k: nat): Result<int>
    requires lower < upper && k < |candidates|
    decreases |candidates| - k
  {
    var n := Candidate(lower, upper, candidates, k);
    if n < 3 then Err(EmptyRange)
    else if 2 * k >= |rounds| then Err(Exhausted)
    else if PassesAll(n, rounds[2 * k]) then Ok(n)
    else if k + 1 == |candidates| then Err(Exhausted)
    else
      var m := Candidate(lower, upper, candidates, k + 1);
      if m < 3 then Err(EmptyRange)
      else if 2 * k + 1 == |rounds| then Err(Exhausted)
      else if PassesAll(m, rounds[2 * k + 1]) then Ok(m)
      else SearchFrom(lower, upper, candidates, rounds, k + 1)
  }

  /** the outcome of find_prime(lower, upper) for the given draws */
  ghost function Search(lower: int, upper: int, candidates: seq<int>, rounds: seq<seq<int>>): Result<int>
  {
    if lower >= upper then Err(EmptyRange)
    else if |candidates| == 0 then Err(Exhausted)
    else SearchFrom(lower, upper, candidates, rounds, 0)
  }

  /** What the search from candidate k can return: a drawn candidate in
      range that passed a test; with lower >= 3 only Exhausted as an error;
      and, given two witness rounds per candidate, a candidate no later than
      the first prime one whenever a prime is drawn at all. */
  lemma {:induction false} SearchFromProperties(lower: int, upper: int, candidates: seq<int>, rounds: seq<seq<int>>, k: nat)
    requires lower < upper && k < |candidates|
    ensures var r := SearchFrom(lower, upper, candidates, rounds, k);
            r.Ok? ==> lower <= r.value < upper && r.value >= 3 &&
                      (exists j :: 2 * k <= j < |rounds| && PassesAll(r.value, rounds[j])) &&
                      (exists i :: k <= i < |candidates| && r.value == RandRange(lower, upper, candidates[i]))
    ensures lower >= 3 && SearchFrom(lower, upper, candidates, rounds, k).Err? ==>
              SearchFrom(lower, upper, candidates, rounds, k).failure == Exhausted
    ensures RandRange(lower, upper, candidates[k]) < 3 ==>
              SearchFrom(lower, upper, candidates, rounds, k) == Err(EmptyRange)
    ensures SearchFrom(lower, upper, candidates, rounds, k) == Err(EmptyRange) ==>
              exists i :: k <= i < |candidates| && RandRange(lower, upper, candidates[i]) < 3
    decreases |candidates| - k
  {
    var n := Candidate(lower, upper, candidates, k);
    if n >= 3 && 2 * k < |rounds| && !PassesAll(n, rounds[2 * k]) && k + 1 < |candidates| {
      var m := Candidate(lower, upper, candidates, k + 1);
      if m >= 3 && 2 * k + 1 < |rounds| && !PassesAll(m, rounds[2 * k + 1]) {
        SearchFromProperties(lower, upper, candidates, rounds, k + 1);
      }
    }
  }

  /** a prime candidate i >= k, with lower >= 3 and two rounds per candidate,
      makes the search succeed with a candidate drawn no later than i */
  lemma {:induction false} SearchFindsPrime(lower: int, upper: int, candidates: seq<int>, rounds: seq<seq<int>>, k: nat, i: nat)
    requires 3 <= lower < upper && k <= i < |candidates| && |rounds| >= 2 * |candidates|
    requires IsPrime(Candidate(lower, upper, candidates, i))
    ensures SearchFrom(lower, upper, candidates, rounds, k).Ok?
    ensures exists j :: k <= j <= i &&
              SearchFrom(lower, upper, candidates, rounds, k).value == Candidate(lower, upper, candidates, j)
    decreases i - k
  {
    var n := Candidate(lower, upper, candidates, k);
    if i == k {
      PrimePassesAll(n, rounds[2 * k]);
    } else if !PassesAll(n, rounds[2 * k]) {
      var m := Candidate(lower, upper, candidates, k + 1);
      if i == k + 1 {
        PrimePassesAll(m, rounds[2 * k + 1]);
      } else if !PassesAll(m, rounds[2 * k + 1]) {
        SearchFindsPrime(lower, upper, candidates, rounds, k + 1, i);
      }
    }
  }

  /** find_prime(2, 3) draws 2, and probably_prime(2) raises at its first
      witness draw: EmptyRange even with no witness round to spare */
  lemma TwoIsRejectedFirst(rounds: seq<seq<int>>)
    ensures Search(2, 3, [0], rounds) == Err(EmptyRange)
  {
    assert Candidate(2, 3, [0], 0) == 2;
  }

  /** find_prime's guarantees, stated on its outcome */
  lemma SearchProperties(lower: int, upper: int, candidates: seq<int>, rounds: seq<seq<int>>)
    ensures lower >= upper ==> Search(lower, upper, candidates, rounds) == Err(EmptyRange)
    ensures 3 <= lower < upper && Search(lower, upper, candidates, rounds).Err? ==>
              Search(lower, upper, candidates, rounds).failure == Exhausted
    ensures var r := Search(lower, upper, candidates, rounds);
            r.Ok? ==> lower <= r.value < upper && r.value >= 3 &&
                      (exists j :: 0 <= j < |rounds| && PassesAll(r.value, rounds[j])) &&
                      (exists i :: 0 <= i < |candidates| && r.value == RandRange(lower, upper, candidates[i]))
    ensures lower < upper && |candidates| > 0 && RandRange(lower, upper, candidates[0]) < 3 ==>
              Search(lower, upper, candidates, rounds) == Err(EmptyRange)
    ensures Search(lower, upper, candidates, rounds) == Err(EmptyRange) ==>
              lower >= upper || exists i :: 0 <= i < |candidates| && RandRange(lower, upper, candidates[i]) < 3
    ensures lower < upper && |candidates| > 0 && |rounds| > 0 &&
            RandRange(lower, upper, candidates[0]) >= 3 && IsPrime(RandRange(lower, upper, candidates[0]))
            ==> Search(lower, upper, candidates, rounds) == Ok(RandRange(lower, upper, candidates[0]))
    ensures 3 <= lower < upper && |rounds| >= 2 * |candidates| ==>
              forall i :: 0 <= i < |candidates| && IsPrime(RandRange(lower, upper, candidates[i])) ==>
                Search(lower, upper, candidates, rounds).Ok? &&
                exists j :: 0 <= j <= i && Search(lower, upper, candidates, rounds).value == RandRange(lower, upper, candidates[j])
  {
    if lower < upper && |candidates| > 0 {
      SearchFromProperties(lower, upper, candidates, rounds, 0);
      var n := Candidate(lower, upper, candidates, 0);
      if |rounds| > 0 && n >= 3 && IsPrime(n) {
        PrimePassesAll(n, rounds[0]);
      }
      if 3 <= lower && |rounds| >= 2 * |candidates| {
        forall i | 0 <= i < |candidates| && IsPrime(RandRange(lower, upper, candidates[i]))
          ensures Search(lower, upper, candidates, rounds).Ok? &&
                  exists j :: 0 <= j <= i && Search(lower, upper, candidates, rounds).value == RandRange(lower, upper, candidates[j])
        {
          SearchFindsPrime(lower, upper, candidates, rounds, 0, i);
        }
      }
    }
  }
}
