# Diffie-Hellman teaching app: numeric and colour core

This project models the core of `app.py`, a small web application that
shows a Diffie-Hellman key exchange in two ways.

- **Modular arithmetic.** `set_params` checks a prime `p` and a generator
  `g`. `public_key` computes `g^s mod p`. `shared_secret` computes
  `pk^s mod p`. `discrete_exponentiation` computes `b^e mod m`.
  `discrete_logarithm` searches, by brute force, for the smallest exponent
  that gives a residue.
- **Colour analog.** A colour `#RRGGBB` is split into three byte channels.
  Two colours are mixed by averaging each channel, rounded down. The final
  colour is the base colour mixed with the mix of the two secret colours.

Every request handler is a function (or, where the source loops, a method)
from the request's raw field values, as strings, to a `Result`. Acceptance is
the `Ok` case. Each rejection is an `Error` value. A format error carries the
field name that the source puts in its message.

Modules:

- `Results`: the `Result`, `Option` and `Error` types.
- `Decimal`: `validate_int` and `_require_positive_int`.
- `Primality`: `is_prime`, proved equal to the definition of a prime.
- `ModularArithmetic`:
  - Python's three-argument `pow`, given as its meaning `ModPow` and as the
    square-and-multiply method `FastModPow`, which is proved equal to it.
  - The group facts the handlers rely on: exponentiation commutes
    (Diffie-Hellman agreement), powers of a unit modulo a prime are never 0,
    and every residue is reached by an exponent below the modulus.
- `DiffieHellman`: `set_params`, `public_key` and `shared_secret`.
- `DiscreteMath`: `discrete_exponentiation` and `discrete_logarithm`.
- `Colors`: `hex_to_rgb`, `rgb_to_hex`, `mix_colors`, `validate_hex` and the
  handlers `set_base`, `mix` and `final_mix`.
- `Arithmetic`: helper lemmas about Euclidean `%` and `/`.

Three behaviours of the code are worth stating outright:

- `final_mix` is a nested mix, `mix(base, mix(alice, bob))`, which is
  `(base + (alice + bob)/2)/2` per channel, not a three-way average
  `floor((a+b+c)/3)`. `Colors.FinalMixIsNotThreeWayAverage` gives an input
  where the two differ.
- A secret (or received public value) of 0 is rejected by
  `_require_positive_int`, like every field of the Diffie-Hellman handlers.
  `DiffieHellman.PublicKey` and `DiffieHellman.SharedSecret` state this.
- The discrete-logarithm refusal message asks for a modulus "< 10 000". The
  guard is `mod > 10_000`, so a modulus of exactly 10 000 is searched.
  `DiscreteMath.DiscreteLog` follows the guard.

The concrete cases of the discrete-logarithm search are methods, because the
search is a method: `DiscreteMath.DiscreteLogBoundExample` (modulus 10 001 is
refused), `DiscreteMath.DiscreteLogAtBoundExample` (modulus 10 000 is
searched), `DiscreteMath.DiscreteLogModulusOneExample` (modulo 1 a positive
result is never found) and `DiscreteMath.DiscreteLogExample` (the smallest x
with 5^x = 8 modulo 23 is 6) each assert the answer of `DiscreteLog`.

## Model

| member | source | states |
|---|---|---|
| Decimal.ValidateInt | app.py:54-55 | validate_int: one or more ASCII decimal digits; RequirePositiveIntAccepts and RequirePositiveIntExamples give its verdicts |
| Decimal.RequirePositiveInt | app.py:57-60 | accepts exactly the non-empty all-digit strings whose value is positive, returns that value (at least 1), and otherwise fails with a format error naming the field |
| Decimal.RequirePositiveIntAccepts | app.py:54-60 | a string is accepted iff it is non-empty, all ASCII digits, and has a digit other than '0' |
| Decimal.ValuePositive | app.py:58 | the decimal value of a digit string is positive iff some digit is not '0' |
| Decimal.RequirePositiveIntOfSpell | app.py:57-60 | the decimal spelling of every n ≥ 1 is accepted with value n |
| Decimal.ValueOfSpell | app.py:60 | reading back the decimal spelling of n gives n |
| Decimal.RequirePositiveIntExamples | app.py:54-60 | "0", "000", "", "-3" and "1.5" are rejected; "007" is accepted as 7 |
| Primality.IsPrime | app.py:44-52 | is_prime's trial division, branch by branch; IsPrimeCorrect proves it true exactly for primes |
| Primality.IsPrimeCorrect | app.py:44-52 | the trial division (2 and 3 prime; evens rejected; odd divisors from 3 while i*i ≤ n) returns true iff n ≥ 2 has no divisor strictly between 1 and n |
| Primality.IsPrimeExamples | app.py:44-52 | 2, 3 and 23 are prime; 4 and 25 are not |
| ModularArithmetic.ModPow | app.py:156 | pow(b, e, m) lies in [0, m) |
| ModularArithmetic.FastModPow | app.py:156 | square-and-multiply returns exactly b^e mod m |
| ModularArithmetic.ModPowOne | app.py:176-177 | every power modulo 1 is 0 |
| ModularArithmetic.DiffieHellmanAgreement | app.py:156 | (g^a)^b mod m = (g^b)^a mod m = g^(a*b) mod m |
| ModularArithmetic.PowNotDivisible | app.py:156 | for a prime p and g not divisible by p, g^e mod p is never 0 |
| ModularArithmetic.EarlierExponent | app.py:195-198 | every residue b^x mod m is also b^y mod m for some y < m with y ≤ x, so a search over range(m) sees every reachable residue |
| ModularArithmetic.Pigeonhole | app.py:195 | among n+1 or more values in [0, n), two are equal |
| DiffieHellman.RequireThree | app.py:153-155 | three fields are validated in order; the first bad one names the error; on success all three values |
| DiffieHellman.SetParams | app.py:139-148 | on success both fields are positive integers, p is prime, 1 < g < p and p ≤ 10^6, and the values returned are the ones given |
| DiffieHellman.SetParamsOrder | app.py:142-147 | the checks are made in order: format of p, format of g, ceiling on p, then primality and 1 < g < p; each failure has its own error |
| DiffieHellman.SetParamsAcceptsPrimes | app.py:139-148 | every prime p ≤ 10^6 with 1 < g < p is accepted as given |
| DiffieHellman.SetParamsExamples | app.py:146-148 | ("4", "2") fails the group rule; ("23", "5") is accepted |
| DiffieHellman.SetParamsRejectionExamples | app.py:142-145 | ("0", "x") fails on p's format; ("1000003", "2") is above the ceiling |
| DiffieHellman.PublicKey | app.py:150-156 | succeeds iff p, g and the secret are positive integers; the public value is g^s mod p, below p; otherwise the first malformed field is named |
| DiffieHellman.SharedSecret | app.py:158-164 | succeeds iff p, the secret and the received value are positive integers; the shared value is pk^s mod p, below p; otherwise the first malformed field is named |
| DiffieHellman.ExchangeAgrees | app.py:139-164 | with accepted parameters and positive secrets, both public values are positive (so each is a valid received_public) and both parties obtain the same shared secret, g^(a*b) mod p |
| DiffieHellman.PublicValuePositive | app.py:156 | in an accepted group a public value is at least 1 |
| DiffieHellman.ExchangeExamplePublic | app.py:150-156 | with p = 23 and g = 5, secrets 6 and 15 give public values 8 and 19 |
| DiffieHellman.ExchangeExampleAlice | app.py:158-164 | 19^6 mod 23 = 2 |
| DiffieHellman.ExchangeExampleBob | app.py:158-164 | 8^15 mod 23 = 2 |
| DiscreteMath.DiscreteExp | app.py:169-180 | succeeds iff base, exponent and modulus are positive integers; the result is base^exp mod mod, including the explicit answer 0 for mod = 1; otherwise the first malformed field (Basis, Exponent, Modul) is named |
| DiscreteMath.DiscreteExpModulusOne | app.py:176-177 | the special case for modulus 1 gives what pow would give |
| DiscreteMath.SmallestLog | app.py:195-198 | the loop returns the first x < mod with base^x ≡ res, or none, and none only when no exponent at all gives res |
| DiscreteMath.DiscreteLog | app.py:185-200 | format errors as in the three-field check; mod > 10 000 is refused before searching; otherwise the least solving exponent (below mod, at most every solution), or NoSolutionFound exactly when no exponent solves it |
| DiscreteMath.FiveToEightModulo23 | app.py:195-197 | no exponent below 6 takes 5 to 8 modulo 23 |
| Colors.ValidateHex | app.py:38-39 | validate_hex: '#' and exactly six hexadecimal digits of either case; SetBase, Mix and FinalMix accept exactly these codes |
| Colors.HexToRgb | app.py:26-28 | hex_to_rgb on a valid code: the three digit pairs read in base 16; HexToRgbStripsOneHash, HexToRgbOfRgbToHex and RgbToHexOfHexToRgb tie it to lstrip and to rgb_to_hex |
| Colors.LStripHash | app.py:27 | the result is a suffix of the input, everything removed before it is '#', and it does not start with '#' |
| Colors.HexToRgbStripsOneHash | app.py:26-28 | on a valid code, lstrip("#") leaves exactly the six digits |
| Colors.ByteToHex | app.py:31 | "%02x" gives two hex digits that read back as the channel |
| Colors.RgbToHex | app.py:30-31 | the printed code is a valid colour code |
| Colors.RgbToHexIsLower | app.py:30-31 | the printed code has no upper-case letter |
| Colors.HexToRgbOfRgbToHex | app.py:26-31 | parsing a printed colour gives the colour back |
| Colors.RgbToHexOfHexToRgb | app.py:26-31 | printing a parsed code gives the code back in lower case |
| Colors.LowerCodeDeterminedByChannels | app.py:30-36 | two lower-case valid codes with the same channels are the same string, so MixColors' channels and case fix its result |
| Colors.PairRoundTrip | app.py:28-31 | one parsed pair of digits prints as the same digits in lower case |
| Colors.MixColors | app.py:33-36 | the mix is a valid code in lower case whose channels are the rounded-down averages of the two colours' channels (which together determine the string) |
| Colors.MixCommutative | app.py:33-36 | mix(a, b) = mix(b, a) |
| Colors.MixIdempotent | app.py:33-36 | mix(a, a) is a in lower case |
| Colors.MixBetween | app.py:33-36 | each channel of a mix lies between the two input channels |
| Colors.MixBlackWhite | app.py:33-36 | #000000 and #ffffff mix to #7f7f7f |
| Colors.SetBase | app.py:105-111 | a colour is confirmed unchanged iff it is a valid code; an invalid code gives the InvalidColor error |
| Colors.Mix | app.py:113-119 | succeeds iff both codes are valid; answers their mix and the two inputs as given, in order; an invalid code gives the InvalidColor error |
| Colors.FinalMix | app.py:121-134 | succeeds iff all three codes are valid; the intermediate is mix(alice, bob), the final colour is mix(base, intermediate), and the components are [base, alice, bob] as given; an invalid code gives the InvalidColor error |
| Colors.FinalMixChannels | app.py:129-131 | each final channel is (base + (alice + bob)/2)/2, rounded down at each step |
| Colors.FinalMixSymmetric | app.py:129-131 | swapping the two secret colours leaves the final colour unchanged |
| Colors.FinalMixIsNotThreeWayAverage | app.py:129-131 | black, black, white give #3f3f3f, whose channel 63 differs from the three-way average of the inputs' channels (85) |

## Left out

- Flask routing, templates, the favicon route, `request.get_json` and
  `jsonify`: handlers take the fields as strings and return a `Result`.
- HTTP status codes. The generic 500 handler (app.py:65-70) is not modelled.
  In `set_params`, `public_key` and `shared_secret` an invalid field raises an
  uncaught `ValueError`, which becomes a 500. The model gives the same
  `InvalidFormat(field)` error that the discrete-mathematics handlers turn
  into a 400.
- Fields that are missing or not strings in the JSON body. `str(None)` is
  "None" and is rejected like any non-digit string; numbers sent as JSON
  numbers are not modelled.
- `\d` and `int()` accept Unicode decimal digits beyond ASCII. The model
  accepts only '0'–'9'.
- The regular-expression engine: `validate_int` and `validate_hex` are
  stated as the predicates their patterns denote.
- `math.isqrt`: the primality scan bound is written as `i * i <= n`, which
  visits the same odd divisors as `range(3, isqrt(n) + 1, 2)`.
- DiffieHellman.PublicKey: computes its answer with the function
  `ModPow` rather than with the method `FastModPow`, since a function cannot
  call a method. The same goes for DiffieHellman.SharedSecret and
  DiscreteMath.DiscreteExp. `FastModPow` is proved equal to `ModPow`, and
  the discrete-logarithm search calls it.
- Colors.HexToRgb is defined only on valid codes. The source calls it only
  after `validate_hex`.
- Decimal.RequirePositiveInt: accepts digit strings of any length. Recent
  Python versions make `int()` raise `ValueError` on a string of more than
  4300 digits (the interpreter's integer string conversion limit, which varies
  by version and configuration). Such a field is rejected by the source and
  accepted by the model.
- Logging, the `__main__` block and the `FLASK_DEBUG` switch.
