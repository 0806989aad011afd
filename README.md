# rsa_cryptography in Dafny

A model of the number-theoretic engine behind a textbook RSA implementation
without padding, and of the text codec paired with it. It covers these parts:

- iterative extended Euclid, recursive Euclid, square-and-multiply modular
  power, the power-of-two split of an integer, the Miller-Rabin witness test,
  the 20-witness probable-prime driver and the rejection-sampling prime search
  (`src/math_utils.py`, and its camelCase twin `src/math_functions.py`);
- RSA key generation, encryption and decryption (`src/rsa_utils.py`);
- the little-endian base-256 packing of a string into an integer, and its
  inverse (`src/ascii.py`).

Modules, one file each:

| file | module | contents |
|---|---|---|
| `number_theory.dfy` | `NumberTheory` | powers, divisibility, gcd (through Bezout), primes, Euclid's lemma, the binomial theorem and Fermat's little theorem |
| `reference.dfy` | `Reference` | the reference definitions the loops are proved against: `ModPow`, the extended Euclid recursion `EuclidLoop`, `TwoAdic`, the Miller-Rabin verdict `ProvesComposite`, the prime search `Search`, the random draw `RandRange`, and the `Result` type for the errors the code raises |
| `math_utils.dfy` | `MathUtils` | `src/math_utils.py` |
| `math_functions.dfy` | `MathFunctions` | `src/math_functions.py` |
| `rsa_utils.dfy` | `RsaUtils` | `src/rsa_utils.py` |
| `ascii.dfy` | `Ascii` | `src/ascii.py` |

Randomness is an input. Every `random.randrange(lo, hi)` becomes
`RandRange(lo, hi, raw)`, which is `lo + raw % (hi - lo)` for a raw draw the
caller supplies. Every value of the range is reachable this way
(`RandRangeReaches`). An empty range is the `ValueError` that `randrange`
raises, and the model returns `Err(EmptyRange)` for it, ahead of any check
on the supply of draws, since the source raises before it would draw again.
The source has rejection loops: the candidate loop of `find_prime` and the
loop that picks `e`. These loops end only when the draws are lucky. In the model they consume
a finite supply of draws and return `Err(Exhausted)` when it runs out.

The two source files of primitives are near-copies. Each camelCase function
of `src/math_functions.py` is modelled by its own method with the same loop,
and each is proved equal to the same reference function as its
`src/math_utils.py` twin: `ModPow` for the powers, `TwoAdic` for the
power-of-two split, `ExtendedGcdResult` (all three outputs of extended
Euclid), `ProvesComposite` for the witness test and `Search` for the prime
search, draw order included. So the twins agree on every input both accept.

`src/rsa_utils.py` imports `euclidean_algo` and `extended_GCD` from
`src/math_utils.py`, but that file defines neither name. The model uses the
recursive gcd of `src/math_functions.py:3-6` (`MathFunctions.EuclideanAlgo`)
and the extended Euclid of `src/math_utils.py:7-18` (`MathUtils.ExtendedGcd`).

Main results:

- Miller-Rabin never declares an odd prime composite for any witness in
  `[2, n)` (`Reference.PrimeHasNoWitness`). The proof goes through Fermat's
  little theorem and the square roots of 1 modulo a prime. So `find_prime`
  returns the first candidate it draws whenever that candidate is a prime
  of at least 3. With a lower bound of at least 3 and enough witness rounds,
  it succeeds whenever any candidate is prime, returning that one or an
  earlier one
  (`Reference.SearchProperties`).
- The public exponent is 2 when that is coprime to `(p-1)(q-1)` and
  otherwise the first coprime draw (`RsaUtils.ChooseExponent`). The exponents
  satisfy `e*d ≡ 1 (mod λ)` with `λ = (p-1)(q-1) // gcd(p-1, q-1)`, which is
  proved to be a common multiple of `p-1` and `q-1` dividing `(p-1)(q-1)`.
  Decrypting an encryption gives the message back for
  distinct primes `p != q` and `0 <= m < p*q` (`RsaUtils.RsaRoundTrip`).
  Key generation does not rule out `p == q`. In that case the message `p`
  does not come back (`RsaUtils.EqualPrimesBreakRoundTrip`).
- The codec round-trips every number `n >= 0`. It also round-trips every
  string of byte codes with no trailing NUL. A trailing NUL is lost.

## Model

| member | source | states |
|---|---|---|
| NumberTheory.Gcd | src/math_functions.py:3-6 | the gcd: a positive common divisor of a and b that every common divisor divides (exists by Bezout) |
| NumberTheory.GcdRec | src/math_functions.py:4-6 | gcd(a, b) is b when b divides a, and otherwise gcd(b, a % b) |
| NumberTheory.Bezout | src/math_utils.py:7-18 | for b > 0 there are u, v with a*u + b*v == gcd(a, b) |
| Reference.RandRange | src/math_utils.py:67 | the value drawn by randrange(lo, hi) lies in [lo, hi) |
| Reference.RandRangeReaches | src/math_utils.py:67 | every value of [lo, hi) is the draw for some raw value |
| Reference.BezoutUpdate | src/math_utils.py:13-16 | one step of extended Euclid keeps both running values as linear combinations of a and b |
| Reference.ExtendedEuclidStep | src/math_utils.py:12-16 | one loop iteration keeps the remainder a combination of a and b and carries the gcd over to (y, g % y), or ends with y as the gcd |
| Reference.BezoutExit | src/math_utils.py:17 | the floor division computing v is exact: it yields the coefficient of b |
| Reference.InverseFromBezout | src/math_utils.py:17-18 | a*u + b*v == 1 makes u an inverse of a modulo b |
| Reference.ModPowReduceBase | src/math_utils.py:24-28 | reducing the base modulo n first does not change the modular power |
| Reference.ModPowOfZero | src/rsa_utils.py:23-24 | 0 raised to an exponent of at least 1 is 0, so encrypting 0 gives 0 |
| Reference.ModPowCompose | src/rsa_utils.py:23-27 | raising to e then to d modulo n is raising to e*d modulo n |
| Reference.SquareAndMultiplyStep | src/math_utils.py:24-28 | one round of square-and-multiply keeps b * a^e modulo n unchanged |
| Reference.TwoAdic | src/math_utils.py:41-46 | m == 2^k * q with q odd, and q > 0 when m > 0 |
| Reference.TwoAdicUnique | src/math_utils.py:41-46 | any split m == 2^k * q with q odd is the one TwoAdic gives |
| Reference.ProvesCompositeOdd | src/math_utils.py:52-62 | for odd n >= 3 and any split n - 1 == 2^k q with q odd, the verdict is the gcd test or the failure of every squaring check |
| Reference.SquaringStep | src/math_utils.py:58-61 | each squaring in the witness loop moves from a^(2^i q) to a^(2^(i+1) q) modulo n |
| Reference.SquaringChainBack | src/math_utils.py:55-61 | modulo a prime, if a^(2^i q) == 1 then a^q == 1 or an earlier squaring gave n - 1 |
| Reference.PrimeHasNoWitness | src/math_utils.py:49-62 | for an odd prime n and 2 <= a < n the verdict is never "composite" |
| Reference.EvenProvesComposite | src/math_utils.py:50-51 | an even n is always declared composite |
| Reference.PrimePassesAll | src/math_utils.py:65-70 | an odd prime passes all 20 rounds whatever the witnesses drawn |
| MathUtils.ExtendedGcd | src/math_utils.py:7-18 | (g, u, v) is what the Euclid recursion EuclidLoop computes from (a, 1, 0, b); a*u + b*v == g exactly; g == gcd(a, b) for b > 0; u is an inverse of a modulo b when g == 1; (a, 1, 0) for b < 0 |
| MathUtils.FastPower | src/math_utils.py:21-29 | the result is g^l mod n for l > 0, hence in [0, n); it is the unreduced 1 for l <= 0, whatever the modulus |
| MathUtils.CountPowersTwo | src/math_utils.py:41-46 | (k, q) is TwoAdic(m): m == 2^k * q with q odd; k >= 1 exactly when m is even |
| MathUtils.MillerRabin | src/math_utils.py:49-62 | true exactly when n is even, 1 < gcd(a, n) < n, or neither a^q == 1 nor any a^(2^i q) == n - 1 (i < k) modulo n |
| MathUtils.ProbablyPrime | src/math_utils.py:65-70 | for n >= 3, true exactly when none of the 20 drawn witnesses proves n composite; the randrange error for n < 3 |
| Reference.SearchFromProperties | src/math_utils.py:73-79 | a candidate below 3 ends the search with EmptyRange before the round supply is consulted, and EmptyRange comes only from such a candidate; a search from candidate k returns a candidate drawn at k or later, in [lower, upper), at least 3, passing a test at round 2k or later; with lower >= 3 it fails only by running out of draws |
| Reference.SearchFindsPrime | src/math_utils.py:73-79 | with a lower bound of at least 3 and two rounds per candidate, a prime candidate at position i makes the search from k <= i succeed with a candidate drawn at k..i |
| Reference.SearchProperties | src/math_utils.py:73-79 | an empty range is an error, and so is a first candidate below 3 whatever the round supply, and EmptyRange has no other cause than these and a later candidate below 3; with lower >= 3 the only other failure is running out of draws; a success is a drawn candidate in range, at least 3, that passed a test; a prime first candidate of at least 3 is returned; with a lower bound of at least 3 and two rounds per candidate, any prime candidate makes the search succeed with it or an earlier candidate |
| Reference.TwoIsRejectedFirst | src/math_utils.py:65-79 | find_prime(2, 3) fails with the randrange error whatever the witness supply, since its only candidate is 2 |
| MathUtils.FindPrime | src/math_utils.py:73-79 | the outcome is Search over the same draws, in the source's order (test the first candidate; per iteration draw one candidate, test it, and retest in the loop condition), with all the guarantees of SearchProperties |
| MathFunctions.EuclideanAlgo | src/math_functions.py:3-6 | the gcd of a and b for b > 0 |
| MathFunctions.ExtendedGcd | src/math_functions.py:8-19 | the list [g, u, v] that ExtendedGcdResult gives, so the same as MathUtils.ExtendedGcd; a*u + b*v == g; g == gcd(a, b) for b > 0; u inverts a modulo b when g == 1; [a, 1, 0] for b < 0 |
| MathFunctions.FastPowerSmall | src/math_functions.py:21-29 | the same value as MathUtils.FastPower: g^A mod N for A > 0, 1 for A <= 0 whatever the modulus |
| MathFunctions.Pow2TimesOdd | src/math_functions.py:39-44 | (k, q) is TwoAdic(m), so the same split as MathUtils.CountPowersTwo: m == 2^k * q with q odd; k >= 1 exactly when m is even |
| MathFunctions.MillerRabin | src/math_functions.py:46-59 | the same verdict as MathUtils.MillerRabin, with the gcd taken by EuclideanAlgo |
| MathFunctions.ProbablyPrime | src/math_functions.py:61-66 | the same verdict as MathUtils.ProbablyPrime |
| MathFunctions.FindPrime | src/math_functions.py:68-74 | the outcome is Search over the same draws, so the same as MathUtils.FindPrime, with the same guarantees |
| RsaUtils.LcmAlgebra | src/rsa_utils.py:15 | for a == g*ca and b == g*cb, a*b // g is exact and equals a*cb == ca*b |
| RsaUtils.LambdaIsCommonMultiple | src/rsa_utils.py:14-15 | λ = (p-1)(q-1) // gcd(p-1, q-1) is an exact division; p-1 and q-1 divide λ; λ divides (p-1)(q-1) |
| RsaUtils.CoprimeToDivisor | src/rsa_utils.py:11-16 | e coprime to (p-1)(q-1) stays coprime to its divisor λ |
| RsaUtils.PickExponentProperties | src/rsa_utils.py:11-12 | the resampling loop returns the first draw coprime to phi; it runs out only when no remaining draw is coprime; the range [2, phi - 1) is empty exactly when phi <= 3 |
| RsaUtils.SmallPrimesGetExponent | src/rsa_utils.py:10-12 | for p = 3, q = 5 and the single draw 1 the exponent is 3 (2 is not coprime to 8; randrange(2, 7) gives 3) |
| RsaUtils.KeyPairFromPrimes | src/rsa_utils.py:10-21 | the exponent outcome is ChooseExponent: e == 2 when 2 is coprime to (p-1)(q-1), otherwise the first coprime draw with every earlier draw not coprime; running out of draws means no draw was coprime; an empty range exactly when 2 is not coprime and (p-1)(q-1) <= 3; both keys have modulus p*q; 0 <= d < λ and e*d ≡ 1 (mod λ) |
| RsaUtils.GenerateRsaKey | src/rsa_utils.py:6-21 | p is the outcome of Search over the p draws in [2^(b-1), 2^b - 1) and q that over the q draws, a failure of either is the result; with both found the exponent is ChooseExponent((p-1)(q-1)) and the keys satisfy everything KeyPairFromPrimes promises; b <= 2 always fails |
| RsaUtils.Encrypt | src/rsa_utils.py:23-24 | the ciphertext is message^e mod n for a positive modulus, and 1 for e <= 0 |
| RsaUtils.Decrypt | src/rsa_utils.py:26-27 | the message is cipher^d mod n for a positive modulus, and 1 for d <= 0 |
| RsaUtils.PowCongruentModPrime | src/rsa_utils.py:23-27 | m^(1 + (p-1)t) ≡ m modulo a prime p, for every m |
| RsaUtils.ExponentSplit | src/rsa_utils.py:16 | e*d ≡ 1 (mod λ) with e*d >= 0 means e*d == 1 + λt for some t >= 0 |
| RsaUtils.CrtRecombine | src/rsa_utils.py:18-19 | a value congruent to m modulo two distinct primes is m modulo their product, for 0 <= m < p*q |
| RsaUtils.PowCongruentViaLambda | src/rsa_utils.py:14-16 | m^(1 + λt) ≡ m modulo a prime p whose p-1 divides λ |
| RsaUtils.RoundTripExponents | src/rsa_utils.py:23-27 | e*d ≡ 1 modulo a common multiple of p-1 and q-1 makes decryption undo encryption for 0 <= m < p*q |
| RsaUtils.RsaRoundTrip | src/rsa_utils.py:14-27 | for distinct primes and 0 <= m < p*q, decrypting the encryption of m gives m |
| RsaUtils.EqualPrimesBreakRoundTrip | src/rsa_utils.py:7-8 | when both searches return the same prime p, the message p does not survive the round trip |
| Ascii.Value | src/ascii.py:14-19 | the encoding of the empty string is 0 |
| Ascii.ValueAppend | src/ascii.py:16-18 | the character at position i contributes ord(c) * 256^i |
| Ascii.ValueBound | src/ascii.py:16-18 | a string of byte codes encodes below 256^len |
| Ascii.TrailingNulLost | src/ascii.py:16-18 | a trailing NUL does not change the encoding |
| Ascii.CanonicalPositive | src/ascii.py:32-35 | a nonempty string of bytes without a trailing NUL encodes to a positive number |
| Ascii.CanonicalUnique | src/ascii.py:31-36 | two such strings with the same encoding are equal |
| Ascii.TextToInt | src/ascii.py:5-19 | the little-endian base-256 value of the codes, below 256^len for byte codes |
| Ascii.DropDigit | src/ascii.py:35 | (n - n % 256) // 256 == n // 256, which is smaller than n for n > 0 |
| Ascii.IntToTextStep | src/ascii.py:33-35 | one iteration keeps the emitted digits plus the remaining number, scaled past them, equal to the input |
| Ascii.IntToText | src/ascii.py:22-36 | "" for number <= 0; byte codes with no trailing NUL whose encoding is number for number >= 0 |
| Ascii.RoundTrip | src/ascii.py:5-36 | text_to_int(intToText(n)) == n for n >= 0, and intToText(text_to_int(s)) == s for byte strings without a trailing NUL |

## Left out

- `find_root` (`src/math_utils.py:32-38`) and `findRoot5` (`src/math_functions.py:31-37`) are not modelled. They divide with `/`, so `m` and `d` are floating-point values and the power runs with a float exponent. Key generation does not use them.
- `main.py` is not part of this model. It holds argument parsing, console input and output, and mode dispatch.
- The random generator is not modelled, and neither are probabilistic bounds such as the 4^-20 error rate. Draws are inputs, and the generator's state shared between calls is not represented.
- MathUtils.FindPrime: the source loops until a draw passes, and may never stop. The model consumes a finite supply of draws and returns `Exhausted` when it runs out; `Reference.SearchProperties` states when that happens. MathFunctions.FindPrime and the `e` loop of RsaUtils.KeyPairFromPrimes are treated the same way.
- MathUtils.FastPower: requires n > 0 or l <= 0. For l <= 0 the loop never runs and 1 comes back whatever n is. For l > 0 a zero modulus raises `ZeroDivisionError` in the source, and a negative one follows Python's sign-of-divisor `%`; neither is modelled. The same holds for MathFunctions.FastPowerSmall, RsaUtils.Encrypt and RsaUtils.Decrypt.
- MathUtils.ExtendedGcd: requires b != 0, where the source raises `ZeroDivisionError`. The same holds for MathFunctions.ExtendedGcd.
- MathFunctions.EuclideanAlgo: requires b > 0. `b == 0` raises `ZeroDivisionError`. A negative `b` follows Python's floor remainder, which is not modelled.
- MathUtils.CountPowersTwo: requires m != 0, where the source loops forever. The same holds for MathFunctions.Pow2TimesOdd.
- MathUtils.MillerRabin: requires n to be even or at least 3. For n == 1 the source loops forever in the power-of-two split. A negative odd n reaches the power with a negative modulus. The same holds for MathFunctions.MillerRabin.
- MathUtils.ProbablyPrime: an n below 3 is the `Err(EmptyRange)` outcome, because `randrange(2, n)` raises there. The same holds for MathFunctions.ProbablyPrime.
- RsaUtils.KeyPairFromPrimes: requires p, q >= 2. For p or q equal to 1, (p-1)(q-1) is 0 and the gcd divides by zero.
- RsaUtils.GenerateRsaKey: requires b >= 1. For b <= 0 the source's bounds are fractions. It also returns p and q beside the keys. Keys are the `Key` datatype rather than two-element lists.
- Ascii.TextToInt: characters are Dafny `char`s, which exclude the surrogate code points a Python string can hold. Codes above 255 are encoded as the source does, and the codec results are stated for byte codes only.
