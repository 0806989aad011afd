/** src/rsa_utils.py: textbook RSA without padding. Key generation searches
    two primes, picks a public exponent e coprime to (p-1)(q-1) and derives
    the private exponent d as the inverse of e modulo
    lambda = (p-1)(q-1) / gcd(p-1, q-1). Encryption and decryption are both
    one modular power. */
module RsaUtils {
  import opened NumberTheory
  import opened Reference
  import MathUtils
  import MathFunctions

  /** a key: the shared modulus p*q and an exponent (e or d) */
  datatype Key = Key(modulus: int, exponent: int)

  datatype KeyPair = KeyPair(publicKey: Key, privateKey: Key)

  /** the raw draws one call of find_prime consumes: candidate draws and
      rounds of 20 witness draws */
  datatype PrimeDraws = PrimeDraws(candidates: seq<int>, rounds: seq<seq<int>>)

  predicate WellFormedDraws(s: PrimeDraws)
  {
    WellFormedRounds(s.rounds)
  }

  /** the outcome of the find_prime call generate_RSA_Key makes for b bits */
  ghost function PrimeSearch(b: int, s: PrimeDraws): Result<int>
    requires b >= 1
  {
    Search(Pow(2, b - 1), Pow(2, b) - 1, s.candidates, s.rounds)
  }

  /** the modulus the private exponent is inverted against */
  function Lambda(p: int, q: int): int
    requires p >= 2 && q >= 2
  {
    (p - 1) * (q - 1) / MathFunctions.EuclideanAlgo(p - 1, q - 1)
  }

  /** the arithmetic behind lambda: for a == g*ca and b == g*cb, the
      quotient a*b / g is a*cb == ca*b */
  lemma LcmAlgebra(a: int, b: int, g: int, ca: int, cb: int)
    requires g > 0 && a == g * ca && b == g * cb
    ensures (a * b) / g == a * cb && a * cb == ca * b
  {
    assert a * b == g * (a * cb);
    MulDivExact(g, a * cb);
    assert a * cb == ca * (g * cb);
  }

  /** lambda is a common multiple of p-1 and q-1: the division is exact,
      both p-1 and q-1 divide it, and it divides (p-1)(q-1) */
  lemma LambdaIsCommonMultiple(p: int, q: int)
    requires p >= 2 && q >= 2
    ensures Lambda(p, q) * Gcd(p - 1, q - 1) == (p - 1) * (q - 1)
    ensures Divides(p - 1, Lambda(p, q)) && Divides(q - 1, Lambda(p, q))
    ensures Divides(Lambda(p, q), (p - 1) * (q - 1))
  {
    var g := Gcd(p - 1, q - 1);
    var cp, cq := (p - 1) / g, (q - 1) / g;
    DivModUnique(p - 1, g, cp, 0);
    DivModUnique(q - 1, g, cq, 0);
    LcmAlgebra(p - 1, q - 1, g, cp, cq);
    var lam := Lambda(p, q);
    assert lam == (p - 1) * cq == cp * (q - 1);
    assert cq >= 1 by {
      if cq <= 0 { MulAtLeast(g, -cq + 1); }
    }
    MulAtLeast(p - 1, cq);
    MulDivExact(p - 1, cq);
    MulDivExact(q - 1, cp);
    assert lam * g == (p - 1) * (q - 1) by {
      assert (p - 1) * (q - 1) == g * lam;
    }
    MulDivExact(lam, g);
  }

  /** a number coprime to x is coprime to every divisor of x */
  lemma CoprimeToDivisor(e: int, x: int, m: int)
    requires x > 0 && m > 0 && Divides(m, x) && Gcd(e, x) == 1
    ensures Gcd(e, m) == 1
  {
    var g := Gcd(e, m);
    assert Divides(g, x) by {
      var k, j := m / g, x / m;
      assert x == g * (k * j);
      MulDivExact(g, k * j);
    }
    DividesLe(g, 1);
  }

  /** what generate_RSA_Key guarantees of the keys it derives from p and q */
  ghost predicate ValidKeyPair(kp: KeyPair, p: int, q: int)
    requires p >= 2 && q >= 2
  {
    var phi := (p - 1) * (q - 1);
    var e, d := kp.publicKey.exponent, kp.privateKey.exponent;
    kp.publicKey.modulus == p * q && kp.privateKey.modulus == p * q &&
    2 <= e && (e == 2 || e < phi - 1) && Gcd(e, phi) == 1 &&
    0 <= d < Lambda(p, q) && (e * d) % Lambda(p, q) == 1 % Lambda(p, q)
  }

  // ---------------------------------------------------------------------
  // Choice of the public exponent

  /** The outcome of the resampling loop of generate_RSA_Key from draw i on:
      the first draw in [2, phi - 1) coprime to phi. */
  ghost function PickExponent(phi: int, eDraws: seq<int>, i: nat): Result<int>
    requires phi > 0 && i <= |eDraws|
    decreases |eDraws| - i
  {
    if phi - 1 <= 2 then Err(EmptyRange)
    else if i == |eDraws| then Err(Exhausted)
    else
      var e := RandRange(2, phi - 1, eDraws[i]);
      if Gcd(e, phi) == 1 then Ok(e) else PickExponent(phi, eDraws, i + 1)
  }

  /** the public exponent generate_RSA_Key settles on: 2 if it is already
      coprime to phi, otherwise the first coprime draw */
  ghost function ChooseExponent(phi: int, eDraws: seq<int>): Result<int>
    requires phi > 0
  {
    if Gcd(2, phi) == 1 then Ok(2) else PickExponent(phi, eDraws, 0)
  }

  /** Euler's totient of p * q for distinct primes p and q */
  function Totient(p: int, q: int): (phi: int)
    requires p >= 2 && q >= 2
    ensures phi > 0
  {
    (p - 1) * (q - 1)
  }

  /** the public exponent of a key-generation outcome */
  function PublicExponent(r: Result<KeyPair>): Result<int>
  {
    if r.Ok? then Ok(r.value.publicKey.exponent) else Err(r.failure)
  }

  /** The resampling loop returns the first coprime draw from i on; it runs
      out of draws only when no draw from i on is coprime; the range is
      empty only when phi <= 3. */
  lemma {:induction false} PickExponentProperties(phi: int, eDraws: seq<int>, i: nat)
    requires phi > 0 && i <= |eDraws|
    ensures var r := PickExponent(phi, eDraws, i);
            r.Ok? ==> phi > 3 && Gcd(r.value, phi) == 1 &&
                      exists k :: i <= k < |eDraws| && r.value == RandRange(2, phi - 1, eDraws[k]) &&
                        forall j :: i <= j < k ==> Gcd(RandRange(2, phi - 1, eDraws[j]), phi) != 1
    ensures PickExponent(phi, eDraws, i) == Err(Exhausted) ==>
              phi > 3 && forall j :: i <= j < |eDraws| ==> Gcd(RandRange(2, phi - 1, eDraws[j]), phi) != 1
    ensures PickExponent(phi, eDraws, i) == Err(EmptyRange) <==> phi <= 3
    decreases |eDraws| - i
  {
    if phi > 3 && i < |eDraws| && Gcd(RandRange(2, phi - 1, eDraws[i]), phi) != 1 {
      PickExponentProperties(phi, eDraws, i + 1);
    }
  }

  /** With p = 3 and q = 5 (phi = 8) and the single draw 1, the exponent is
      3: gcd(2, 8) == 2 forces a draw, and randrange(2, 7) yields 3, which is
      coprime to 8. */
  lemma SmallPrimesGetExponent()
    ensures ChooseExponent(8, [1]) == Ok(3)
  {
    GcdRec(2, 8);
    GcdRec(8, 2);
    GcdRec(3, 8);
    GcdRec(8, 3);
    GcdRec(3, 2);
    GcdRec(2, 1);
    assert RandRange(2, 7, 1) == 3;
  }

  // ---------------------------------------------------------------------
  // Key generation

  /** generate_RSA_Key after the two primes are drawn: try e = 2, resample e
      in [2, (p-1)(q-1) - 1) until it is coprime to (p-1)(q-1), then set
      d = u mod lambda for the Bezout coefficient u of e against lambda */
  method KeyPairFromPrimes(p: int, q: int, eDraws: seq<int>) returns (r: Result<KeyPair>)
    requires p >= 2 && q >= 2
    ensures PublicExponent(r) == ChooseExponent(Totient(p, q), eDraws)
    ensures r.Ok? ==> ValidKeyPair(r.value, p, q)
    ensures Gcd(2, (p - 1) * (q - 1)) == 1 ==> r.Ok? && r.value.publicKey.exponent == 2
    ensures r.Ok? && r.value.publicKey.exponent != 2 ==>
              (p - 1) * (q - 1) > 3 &&
              exists k :: 0 <= k < |eDraws| &&
                r.value.publicKey.exponent == RandRange(2, (p - 1) * (q - 1) - 1, eDraws[k]) &&
                forall j :: 0 <= j < k ==> Gcd(RandRange(2, (p - 1) * (q - 1) - 1, eDraws[j]), (p - 1) * (q - 1)) != 1
    ensures r == Err(Exhausted) ==>
              Gcd(2, (p - 1) * (q - 1)) != 1 && (p - 1) * (q - 1) > 3 &&
              forall j :: 0 <= j < |eDraws| ==> Gcd(RandRange(2, (p - 1) * (q - 1) - 1, eDraws[j]), (p - 1) * (q - 1)) != 1
    ensures r == Err(EmptyRange) <==> Gcd(2, (p - 1) * (q - 1)) != 1 && (p - 1) * (q - 1) <= 3
  {
    var phi := (p - 1) * (q - 1);
    PickExponentProperties(phi, eDraws, 0);
    var e := 2;
    var next := 0;
    while MathFunctions.EuclideanAlgo(e, phi) != 1
      invariant 0 <= next <= |eDraws|
      invariant next == 0 ==> e == 2
      invariant next > 0 ==> phi > 3 && 2 <= e < phi - 1
      invariant Gcd(e, phi) == 1 ==> ChooseExponent(phi, eDraws) == Ok(e)
      invariant Gcd(e, phi) != 1 ==> ChooseExponent(phi, eDraws) == PickExponent(phi, eDraws, next)
      decreases |eDraws| - next
    {
      if phi - 1 <= 2 {
        return Err(EmptyRange);
      }
      if next == |eDraws| {
        return Err(Exhausted);
      }
      e := RandRange(2, phi - 1, eDraws[next]);
      next := next + 1;
    }
    var g := MathFunctions.EuclideanAlgo(p - 1, q - 1);
    var m := phi / g;
    LambdaIsCommonMultiple(p, q);
    assert m == Lambda(p, q) && m > 0;
    CoprimeToDivisor(e, phi, m);
    var _, u, _ := MathUtils.ExtendedGcd(e, m);
    var d := u % m;
    MulMod(e, u, m);
    MulMod(e, d, m);
    DivModUnique(d, m, 0, d);
    r := Ok(KeyPair(Key(p * q, e), Key(p * q, d)));
  }

  /** generate_RSA_Key(b): p and q are each found by find_prime in
      [2^(b-1), 2^b - 1), then the keys are derived from them. The primes
      are returned beside the keys so that the contract can speak of them;
      they are 0 when the search that would have produced them failed. */
  method GenerateRsaKey(b: int, pDraws: PrimeDraws, qDraws: PrimeDraws, eDraws: seq<int>)
    returns (r: Result<KeyPair>, p: int, q: int)
    requires b >= 1 && WellFormedDraws(pDraws) && WellFormedDraws(qDraws)
    ensures PrimeSearch(b, pDraws).Err? ==> r == Err(PrimeSearch(b, pDraws).failure)
    ensures PrimeSearch(b, pDraws).Ok? ==> p == PrimeSearch(b, pDraws).value
    ensures PrimeSearch(b, pDraws).Ok? && PrimeSearch(b, qDraws).Err? ==>
              r == Err(PrimeSearch(b, qDraws).failure)
    ensures PrimeSearch(b, pDraws).Ok? && PrimeSearch(b, qDraws).Ok? ==>
              q == PrimeSearch(b, qDraws).value && p >= 3 && q >= 3 &&
              PublicExponent(r) == ChooseExponent(Totient(p, q), eDraws)
    ensures r.Ok? ==> Pow(2, b - 1) <= p < Pow(2, b) - 1 && Pow(2, b - 1) <= q < Pow(2, b) - 1
    ensures r.Ok? ==> p >= 3 && q >= 3 &&
                      (exists j :: 0 <= j < |pDraws.rounds| && PassesAll(p, pDraws.rounds[j])) &&
                      (exists j :: 0 <= j < |qDraws.rounds| && PassesAll(q, qDraws.rounds[j]))
    ensures r.Ok? ==> ValidKeyPair(r.value, p, q)
    ensures b <= 2 ==> r.Err?
  {
    p, q := 0, 0;
    var lower, upper := Pow(2, b - 1), Pow(2, b) - 1;
    assert b <= 2 ==> upper <= 3;
    var pr := MathUtils.FindPrime(lower, upper, pDraws.candidates, pDraws.rounds);
    assert pr == PrimeSearch(b, pDraws);
    if pr.Err? {
      return Err(pr.failure), p, q;
    }
    p := pr.value;
    var qr := MathUtils.FindPrime(lower, upper, qDraws.candidates, qDraws.rounds);
    assert qr == PrimeSearch(b, qDraws);
    if qr.Err? {
      return Err(qr.failure), p, q;
    }
    q := qr.value;
    r := KeyPairFromPrimes(p, q, eDraws);
  }

  /** RSA_encrypt: message^e mod n */
  method Encrypt(message: int, publicKey: Key) returns (cipher: int)
    requires publicKey.modulus > 0 || publicKey.exponent <= 0
    ensures publicKey.exponent <= 0 ==> cipher == 1
    ensures publicKey.modulus > 0 ==> cipher == ModPow(message, publicKey.exponent, publicKey.modulus)
  {
    cipher := MathUtils.FastPower(message, publicKey.exponent, publicKey.modulus);
  }

  /** RSA_decrypt: cipher^d mod n */
  method Decrypt(cipher: int, privateKey: Key) returns (message: int)
    requires privateKey.modulus > 0 || privateKey.exponent <= 0
    ensures privateKey.exponent <= 0 ==> message == 1
    ensures privateKey.modulus > 0 ==> message == ModPow(cipher, privateKey.exponent, privateKey.modulus)
  {
    message := MathUtils.FastPower(cipher, privateKey.exponent, privateKey.modulus);
  }

  // ---------------------------------------------------------------------
  // Correctness of the key pair

  /** Fermat's little theorem raised to the power t */
  lemma FermatPower(p: int, m: int, t: nat)
    requires IsPrime(p) && !Divides(p, m)
    ensures Pow(m, (p - 1) * t) % p == 1
  {
    PowMul(m, p - 1, t);
    FermatCoprime(p, m);
    PowMod(Pow(m, p - 1), t, p);
    PowOne(t);
    DivModUnique(1, p, 0, 1);
  }

  /** m^x == m modulo a prime p whenever x == 1 + (p-1)*t */
  lemma PowCongruentModPrime(p: int, m: int, t: nat, x: nat)
    requires IsPrime(p) && x == 1 + (p - 1) * t
    ensures Pow(m, x) % p == m % p
  {
    var rest := Pow(m, (p - 1) * t);
    PowAdd(m, 1, (p - 1) * t);
    assert Pow(m, 1) == m;
    if Divides(p, m) {
      PowDivides(p, m, x);
    } else {
      FermatPower(p, m, t);
      MulMod(m, rest, p);
      DivModUnique(m % p, p, 0, m % p);
    }
  }

  /** an exponent congruent to 1 modulo lam is 1 + lam*t for some t >= 0 */
  lemma ExponentSplit(lam: int, x: int) returns (t: nat)
    requires lam >= 2 && x >= 0 && x % lam == 1 % lam
    ensures x == 1 + lam * t
  {
    DivModUnique(1, lam, 0, 1);
    var s := x / lam;
    if s < 0 {
      MulAtLeast(lam, -s);
    }
    t := s;
  }

  /** a value congruent to m modulo two distinct primes is m modulo their
      product, for 0 <= m < p*q */
  lemma CrtRecombine(p: int, q: int, y: int, m: int)
    requires IsPrime(p) && IsPrime(q) && p != q && 0 <= m < p * q
    requires y % p == m % p && y % q == m % q
    ensures y % (p * q) == m
  {
    ModEqDivides(y, m, p);
    ModEqDivides(y, m, q);
    DistinctPrimesDivide(p, q, y - m);
    ModEqDivides(y, m, p * q);
    DivModUnique(m, p * q, 0, m);
  }

  /** m^x == m modulo p when x == 1 + lam*t and p - 1 divides lam */
  lemma PowCongruentViaLambda(p: int, lam: int, m: int, t: nat, x: nat)
    requires IsPrime(p) && Divides(p - 1, lam) && lam > 0 && x == 1 + lam * t
    ensures Pow(m, x) % p == m % p
  {
    var c := lam / (p - 1);
    assert lam == (p - 1) * c;
    assert c >= 1 by {
      if c <= 0 { MulAtLeast(p - 1, 1 - c); }
    }
    assert lam * t == (p - 1) * (c * t);
    PowCongruentModPrime(p, m, c * t, x);
  }

  /** the arithmetic core of the round trip: e*d ≡ 1 modulo a common
      multiple lam of p-1 and q-1 */
  lemma RoundTripExponents(p: int, q: int, lam: int, e: int, d: int, m: int)
    requires IsPrime(p) && IsPrime(q) && p != q && 0 <= m < p * q
    requires lam >= 2 && Divides(p - 1, lam) && Divides(q - 1, lam)
    requires e >= 1 && d >= 0 && (e * d) % lam == 1 % lam
    ensures ModPow(ModPow(m, e, p * q), d, p * q) == m
  {
    var x := e * d;
    var t := ExponentSplit(lam, x);
    assert d != 0 by {
      assert x >= 1;
    }
    PowCongruentViaLambda(p, lam, m, t, x);
    PowCongruentViaLambda(q, lam, m, t, x);
    CrtRecombine(p, q, Pow(m, x), m);
    ModPowCompose(m, e, d, p * q);
  }

  /** Decrypting an encryption gives the message back when p and q are
      distinct primes and 0 <= m < p*q. */
  lemma RsaRoundTrip(p: int, q: int, kp: KeyPair, m: int)
    requires IsPrime(p) && IsPrime(q) && p != q && ValidKeyPair(kp, p, q)
    requires 0 <= m < p * q
    ensures ModPow(ModPow(m, kp.publicKey.exponent, p * q), kp.privateKey.exponent, p * q) == m
  {
    var lam := Lambda(p, q);
    LambdaIsCommonMultiple(p, q);
    assert lam >= 2 by {
      if p > 2 {
        DividesLe(p - 1, lam);
      } else {
        DividesLe(q - 1, lam);
      }
    }
    RoundTripExponents(p, q, lam, kp.publicKey.exponent, kp.privateKey.exponent, m);
  }

  lemma PowSplitSquare(p: int, e: nat)
    requires e >= 2
    ensures Pow(p, e) == (p * p) * Pow(p, e - 2)
  {
    assert Pow(p, e) == p * (p * Pow(p, e - 2));
  }

  /** With p == q (which generate_RSA_Key never rules out) the round trip
      fails: the message p comes back as 0 or 1. */
  lemma EqualPrimesBreakRoundTrip(p: int, kp: KeyPair)
    requires IsPrime(p) && ValidKeyPair(kp, p, p)
    ensures ModPow(ModPow(p, kp.publicKey.exponent, p * p), kp.privateKey.exponent, p * p) != p
  {
    var e, d, n := kp.publicKey.exponent, kp.privateKey.exponent, p * p;
    PowSplitSquare(p, e);
    MulDivExact(n, Pow(p, e - 2));
    assert ModPow(p, e, n) == 0;
    if d >= 1 {
      ModPowOfZero(d, n);
    }
  }
}
