# DSA over arbitrary-precision integers, modelled in Dafny

The repository is one C# class, `DigitalSignatureAlgorithm`. It implements the Digital
Signature Algorithm of FIPS 186-4 over `System.Numerics.BigInteger`. It works as follows:

- The constructor takes the domain parameters q and p.
- It derives t = (p - 1) / q.
- It searches for a generator g = h^t mod p, trying h = 2, 3, ... until g >= 2.
- It draws a private key x and computes the public key y = g^x mod p.
- Signing hashes a text, draws k until r = (g^k mod p) mod q and
  s = k^(q-2) (H + x r) mod q are both non-zero, and returns `"r = <r>\r\ns = <s>"`.
- Verification reads r and s back from two lines, computes w, u1, u2 and
  v = ((g^u1 mod p)(y^u2 mod p) mod p) mod q, stores `v == r` in the `Check` property and
  returns `"v = <v>"`.

The model keeps this shape. The class `Dsa.DigitalSignatureAlgorithm` has the fields
`q, p, t, g, x, y` and `Check`, and `Valid()` states the relations that construction establishes:

- t = (p - 1) / q;
- g comes from the first qualifying base;
- 1 <= x <= q - 1;
- y = g^x mod p.

The loops of the generator search and of signing are `while` loops with invariants.
Verification is a method that writes only `Check`. The pure steps are functions:

- `GetRandom`;
- `GetHashCode`, the bitwise AND;
- `GetParamV`;
- one signing pass, `Attempt`;
- the verification value, `VerifyValue`.

Modules:

- `ModArith`: `Pow`, `ModPow` and the laws of remainders and powers.
- `Primes`: primality, Bezout's identity, Euclid's lemma and Fermat's little theorem, all
  proved here.
- `Bits`: two's-complement bits of unbounded integers, `&` with a non-negative operand, and
  the signed little-endian byte constructor of BigInteger.
- `SignatureFormat`: decimal printing and parsing, the CRLF line split and the two-line
  signature text.
- `Dsa`: the class and the lemmas about it.

The main results are:

- **Order of g.** With p prime and q t = p - 1, g^q mod p = 1 (`GeneratorOrder`). With q prime
  as well, no power g^j with 0 < j < q is 1, so g has multiplicative order exactly q
  (`GeneratorOrderExact`).
- **The round trip.** With p and q prime and q t = p - 1, every pass that signing accepts
  yields a signature whose verification value equals its r (`SignVerifyRoundTrip`).
  Together with the text format round trip, a caller that signs, splits the text into lines
  and verifies always ends with `Check` true (`SignThenVerify`).

The model reproduces three departures from FIPS 186-4, because the code makes them:

- **The digest is `hashInt & q`, not the leftmost bits of the hash.** The digest lies in
  [0, q], its set bits are bits of q, and it can equal q itself.
- **Verification has no range check on r and s (FIPS 186-4 section 4.7).** The pair (1, 0)
  passes for every message once q >= 3, and s and s + q get the same verdict.
- **`GetRandom` ignores its `maxValue` argument.** It always reduces modulo q - 1, so for
  q >= 3 its results lie in [1, q - 2] and never reach q - 1.

## Model

| member | source | states |
|---|---|---|
| Dsa.DigitalSignatureAlgorithm.constructor | DigitalSignatureAlgorithm.cs:53-61 | q and p are stored, t = (p-1)/q, g comes from the generator search, x is GetRandom's value with bound q, y = g^x mod p, and the object satisfies Valid, so 1 <= x <= q-1 |
| Dsa.DigitalSignatureAlgorithm.GetRandom | DigitalSignatureAlgorithm.cs:67-87 | the scalar is always in [1, q-1], and at most q-2 when q >= 3, whatever maxValue is passed |
| Dsa.GetRandomRange | DigitalSignatureAlgorithm.cs:76-86 | for q >= 3, every value v in [1, q-2] with v < 2^64 is the result of some draw whose b1, b2 and tmp3 lie in the ranges of their C# types; which draws System.Random yields is not modelled |
| Dsa.DigitalSignatureAlgorithm.SetParamG | DigitalSignatureAlgorithm.cs:92-101 | g = h^t mod p with 2 <= g < p, where h is the first base from 2 upward giving a value >= 2; every earlier base gave a value < 2 |
| Dsa.GeneratorOrder | DigitalSignatureAlgorithm.cs:90-101 | with p prime and q t = p-1, g^q mod p = 1 |
| Dsa.GeneratorOrderExact | DigitalSignatureAlgorithm.cs:90 | with p and q prime and q t = p-1, g^j mod p is not 1 for any 0 < j < q, so g has multiplicative order exactly q modulo p |
| Primes.Fermat | DigitalSignatureAlgorithm.cs:90 | Fermat's little theorem: a^(p-1) mod p = 1 for prime p and a not divisible by p |
| Primes.FermatInverse | DigitalSignatureAlgorithm.cs:126 | for prime q and a not divisible by q, a^(q-2) mod q is the inverse of a: a (a^(q-2) mod q) mod q = 1 |
| Dsa.DigitalSignatureAlgorithm.GetHashCode | DigitalSignatureAlgorithm.cs:182-184 | the digest is a non-negative number no larger than q |
| Bits.BitAnd | DigitalSignatureAlgorithm.cs:184 | a & b with a non-negative b is a non-negative number no larger than b; its bit-level meaning is stated by Bits.BitAndBits |
| Bits.BitAndBits | DigitalSignatureAlgorithm.cs:184 | bit i of a & b is set exactly when bit i is set in both a and b, for negative a too |
| Dsa.DigestBitsOfQ | DigitalSignatureAlgorithm.cs:184 | every bit set in the digest is set in q |
| Dsa.DigestCanBeQ | DigitalSignatureAlgorithm.cs:182-184 | a hash of all-0xFF bytes reads as -1 and the digest is then q itself, not a value below q |
| Bits.SignedLittleEndian | DigitalSignatureAlgorithm.cs:182 | the signed value of the bytes agrees with their unsigned little-endian value modulo 2^(8 n) for n bytes; its sign and range are stated by Bits.SignedLittleEndianRange |
| Bits.SignedLittleEndianRange | DigitalSignatureAlgorithm.cs:182 | the hash integer is negative exactly when the top bit of the last byte is set, and lies in the two's-complement range of its bit width |
| Dsa.DigitalSignatureAlgorithm.Attempt | DigitalSignatureAlgorithm.cs:120-126 | one signing pass gives r < q and s < q |
| Dsa.DigitalSignatureAlgorithm.GenerateDigitalSignature | DigitalSignatureAlgorithm.cs:108-131 | the returned text is the signature text of the first draw whose pass has r and s both non-zero, with 1 <= r < q and 1 <= s < q; every earlier draw was rejected; no result means no draw qualifies; the object is not modified |
| SignatureFormat.Dec | DigitalSignatureAlgorithm.cs:130 | a number prints as at least one decimal digit with no leading zero |
| SignatureFormat.ParseDec | DigitalSignatureAlgorithm.cs:141 | parsing the decimal text of n gives n |
| SignatureFormat.DecOfDigits | DigitalSignatureAlgorithm.cs:130 | a digit string without leading zeros is the printed form of its value, so printing and parsing are inverse |
| SignatureFormat.SignatureText | DigitalSignatureAlgorithm.cs:130 | splitting the signature text at CRLF gives exactly two lines, the r line and the s line; that they parse back to (r, s) is stated by SignatureFormat.SignatureTextRoundTrip |
| SignatureFormat.ParseLine | DigitalSignatureAlgorithm.cs:141-142 | a line shorter than four characters raises ArgumentOutOfRange, as Substring(4) does; a line yields a number exactly when more than four characters follow and all after the fourth are decimal digits; any other line raises a format error |
| SignatureFormat.ParseKey | DigitalSignatureAlgorithm.cs:141-142 | an empty key raises IndexOutOfRange; an error in the first line is raised before the second line is looked at; the key yields a pair exactly when its first two lines both parse, and the pair is their two numbers; further lines are ignored |
| SignatureFormat.SignatureTextRoundTrip | DigitalSignatureAlgorithm.cs:130-142 | the signature text splits at CRLF into exactly its two lines, and reading both lines past their four-character labels gives back exactly (r, s) |
| SignatureFormat.ParseLineIgnoresLabel | DigitalSignatureAlgorithm.cs:141-142 | the parse of a line does not depend on its first four characters |
| Dsa.ZeroKeyParses | DigitalSignatureAlgorithm.cs:141-142 | the lines "r = 1" and "s = 0" read as the pair (1, 0) |
| Dsa.DigitalSignatureAlgorithm.GetParamV | DigitalSignatureAlgorithm.cs:164-171 | v is below q |
| Dsa.PublicKeyPower | DigitalSignatureAlgorithm.cs:166-168 | with y = g^x mod p, the product GetParamV reduces is g^(u1 + x u2) mod p |
| Dsa.DigitalSignatureAlgorithm.VerifyValue | DigitalSignatureAlgorithm.cs:146-152 | the verification value is below q |
| Dsa.DigitalSignatureAlgorithm.CheckDigitalSignature | DigitalSignatureAlgorithm.cs:139-156 | on a well-formed key, Check becomes exactly (v == r) and the result is "v = " followed by v in decimal; on a malformed key the matching exception is raised and Check is unchanged; no other field changes |
| Dsa.InverseCancels | DigitalSignatureAlgorithm.cs:126 | with q prime, multiplying by k modulo q undoes multiplying by k^(q-2) |
| Dsa.ExponentSum | DigitalSignatureAlgorithm.cs:148-150 | u1 + x u2 is congruent to w (H + x r) modulo q |
| Dsa.ExponentRecovered | DigitalSignatureAlgorithm.cs:146-150 | with q prime, u1 + x u2 mod q equals the k that produced s |
| Dsa.SignVerifyRoundTrip | DigitalSignatureAlgorithm.cs:115-154 | with p and q prime and q t = p-1, the signature of an accepted pass has verification value equal to its r, for the same digest |
| Dsa.SignThenVerify | DigitalSignatureAlgorithm.cs:108-156 | signing, splitting the text into lines and verifying leaves Check true whenever signing returns; only Check may change, and it is unchanged when signing returns nothing |
| Dsa.SignatureMalleable | DigitalSignatureAlgorithm.cs:141-154 | s and s + q give the same verification value, because s is never range-checked |
| Dsa.ZeroSignatureAccepted | DigitalSignatureAlgorithm.cs:141-154 | for q >= 3 the pair (1, 0) has verification value 1 = r for every message, because neither r nor s is range-checked |

## Left out

- SHA-256 and `Encoding.Default` (DigitalSignatureAlgorithm.cs:180-181) are library calls. The
  hash bytes are an input to signing and verification. Their signed little-endian reading
  (line 182) is modelled.
- `System.Random`, `NextDouble` and the `UInt64.MaxValue * double` products
  (DigitalSignatureAlgorithm.cs:69-75) involve floating point and time seeding. Each call of
  `GetRandom` takes its three values as a `Draw` value. b1 and b2 lie below 2^64, the bound of
  a truncated `UInt64.MaxValue * NextDouble()`. tmp3 lies below Int32.MaxValue, the bound of
  `Next()`. Which values in those ranges System.Random can actually produce is not
  modelled.
- Dsa.GetRandomRange: reaches only values below 2^64, through the draw (0, v, 0). There are
  fewer than 2^159 draws, so for q - 2 beyond that the program cannot produce every value of
  [1, q - 2]. Which scalars it does produce is not stated.
- Dsa.DigitalSignatureAlgorithm.GenerateDigitalSignature: the retry loops consume a finite
  sequence of draws and return no signature when it runs out. The source loops until it
  succeeds. Probabilistic termination is not modelled.
- Dsa.DigitalSignatureAlgorithm.constructor: it requires a base h >= 2 with h^t mod p >= 2,
  because the generator search terminates exactly then. It requires q >= 2 and p >= 2. The
  source divides by zero for q = 0 inside the constructor and for q = 1 in `GetRandom`. It
  loops forever when no base qualifies. These failure paths are not modelled.
- The code never checks that p and q are prime or that q divides p - 1. These appear only as
  requirements of the lemmas that need them:
  - `GeneratorOrder` requires p prime and q t = p - 1;
  - `GeneratorOrderExact`, `SignVerifyRoundTrip` and `SignThenVerify` require p and q prime
    and q t = p - 1;
  - `InverseCancels` and `ExponentRecovered` require q prime.
- BigInteger's behaviour on hostile input is not modelled:
  - the truncating `%` on negative dividends;
  - `ModPow` with a negative base;
  - `BigInteger.Parse` accepting whitespace, signs and other number styles;
  - `Substring(4)` counting UTF-16 code units. The model counts characters, which are Unicode
    scalar values. A character outside the Basic Multilingual Plane is two code units in C#
    and one character here. For example, the line `"\U{1F600}= 5"` parses as 5 in C#, but
    here it is a format error.
  The parser reads plain decimal digits only, so parsed r and s are non-negative. On every
  non-negative dividend, Dafny's `%` agrees with C#'s.
- Null arguments and `NullReferenceException` are not modelled. Verification's exceptions are the
  `Err` results of the parse.
- The `Check` property's auto-generated getter and setter are the plain field.
- Sensitivity to tampering, meaning that a changed text is rejected, depends on SHA-256
  collisions. It is not stated.
- Dsa.DigitalSignatureAlgorithm.GetParamV and Dsa.DigitalSignatureAlgorithm.VerifyValue:
  their own contracts state only the bound v < q. Their meaning is stated by
  `PublicKeyPower`, `ExponentRecovered` and `SignVerifyRoundTrip`.
- Dsa.DigitalSignatureAlgorithm.GetHashCode: its own contract states only 0 <= digest <= q.
  The bit-level statement is `DigestBitsOfQ`, via `BitAndBits`.
