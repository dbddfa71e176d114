/** The signer object: domain parameters q and p, the derived t = (p-1)/q and generator g, the
    key pair x and y, and the `Check` flag that verification sets.

    Where the signer consults System.Random, the model takes the random values as inputs
    (`Draw`); where it hashes the message, it takes the hash bytes as input.
 */
module Dsa {
  import opened Wrappers
  import opened ModArith
  import opened Primes
  import opened Bits
  import opened SignatureFormat

  /** `new BigInteger(UInt64.MaxValue * d)` for a double 0 <= d < 1 is below 2^64. */
  type ScaledDouble = n: nat | n < 0x1_0000_0000_0000_0000

  /** Random.Next() returns a value from 0 up to, but excluding, Int32.MaxValue. */
  type NextInt = n: nat | n < 0x7FFF_FFFF

  /** The three values one call of GetRandom takes from System.Random: the two doubles already
      scaled by UInt64.MaxValue and truncated to integers, and the integer from Next(). Which
      of these values System.Random can actually yield is not modelled. */
  datatype Draw = Draw(b1: ScaledDouble, b2: ScaledDouble, tmp3: NextInt)

  /** `h` is the first base from 2 upward whose `t`-th power modulo `p` is at least 2. */
  ghost predicate IsFirstBase(h: int, t: nat, p: int)
    requires p > 0
  {
    h >= 2 && ModPow(h, t, p) >= 2 &&
    forall h' :: 2 <= h' < h ==> ModPow(h', t, p) < 2
  }

  /** Some base h >= 2 has h^t mod p >= 2: exactly when the generator search terminates. */
  ghost predicate HasBase(t: nat, p: int)
    requires p > 0
  {
    exists h :: h >= 2 && ModPow(h, t, p) >= 2
  }

  class DigitalSignatureAlgorithm {
    var q: int
    var p: int
    var t: int
    var g: int
    var x: int
    var y: int
    var Check: bool
    /** The base that SetParamG settled on; a local variable of SetParamG, kept for the proofs. */
    ghost var gBase: int

    /** What construction establishes and nothing afterwards changes. */
    ghost predicate Valid()
      reads this
    {
      q >= 2 && p >= 2 && t == (p - 1) / q &&
      IsFirstBase(gBase, t, p) && g == ModPow(gBase, t, p) &&
      1 <= x <= q - 1 && y == ModPow(g, x, p)
    }

    /** Sets q and p, derives t and g, then draws the private key x and computes y = g^x mod p.
        The generator search terminates exactly when some base h >= 2 has h^t mod p >= 2. */
    constructor (q: int, p: int, draw: Draw)
      requires q >= 2 && p >= 2
      requires HasBase((p - 1) / q, p)
      ensures Valid()
      ensures this.q == q && this.p == p && t == (p - 1) / q
      ensures x == GetRandom(q, draw) && y == ModPow(g, x, p)
      ensures !Check
    {
      this.q := q;
      this.p := p;
      t := (p - 1) / q;
      Check := false;
      new;
      SetParamG();
      x := GetRandom(this.q, draw);
      y := ModPow(g, x, this.p);
    }

    /** The scalar generator. The result is `(b1 * 10^tmp3 mod q + b2) mod (q - 1)`, with 0
        replaced by 1; the bound is always `q`, whatever `maxValue` the caller passes. */
    function GetRandom(maxValue: int, draw: Draw): (r: int)
      reads this
      requires q >= 2
      ensures 1 <= r <= q - 1
      ensures q >= 3 ==> r <= q - 2
    {
      var b3 := ModPow(10, draw.tmp3, q);
      var result := (draw.b1 * b3 + draw.b2) % (q - 1);
      if result == 0 then 1 else result
    }

    /** Tries h = 2, 3, ... until g = h^t mod p is at least 2. */
    method SetParamG()
      requires q >= 2 && p >= 2 && t == (p - 1) / q
      requires HasBase(t, p)
      modifies this`g, this`gBase
      ensures IsFirstBase(gBase, t, p) && g == ModPow(gBase, t, p)
      ensures 2 <= g < p
    {
      ghost var found :| found >= 2 && ModPow(found, t, p) >= 2;
      var h := 1;
      h := h + 1;
      g := ModPow(h, t, p);
      while g < 2
        invariant 2 <= h <= found
        invariant g == ModPow(h, t, p)
        invariant forall h' :: 2 <= h' < h ==> ModPow(h', t, p) < 2
        decreases found - h
      {
        h := h + 1;
        g := ModPow(h, t, p);
      }
      gBase := h;
    }

    /** The digest: the hash bytes read as a signed little-endian integer, then `& q`. */
    function GetHashCode(hashBytes: seq<byte>): (digest: nat)
      reads this
      requires q >= 0
      ensures digest <= q
    {
      BitAnd(SignedLittleEndian(hashBytes), q)
    }

    /** One pass through the body of the signing loops, with k taken from `draw`. */
    function Attempt(hash: nat, draw: Draw): (sig: Signature)
      reads this
      requires Valid()
      ensures sig.r < q && sig.s < q
    {
      var k := GetRandom(q, draw);
      var r := ModPow(g, k, p) % q;
      var s := (ModPow(k, q - 2, q) * ((hash + x * r) % q)) % q;
      Signature(r, s)
    }

    /** A pass ends the loops: neither r nor s is zero. */
    ghost predicate Accepts(hash: nat, draw: Draw)
      reads this
      requires Valid()
    {
      Attempt(hash, draw).r != 0 && Attempt(hash, draw).s != 0
    }

    /** Signs with the first draw whose pass gives non-zero r and s; each draw stands for one
        call of GetRandom. `None` when the draws run out before that. */
    method GenerateDigitalSignature(hashBytes: seq<byte>, draws: seq<Draw>)
      returns (signature: Option<string>, ghost used: nat)
      requires Valid()
      ensures var hash := GetHashCode(hashBytes);
        signature.None? ==> forall i :: 0 <= i < |draws| ==> !Accepts(hash, draws[i])
      ensures var hash := GetHashCode(hashBytes);
        signature.Some? ==>
          used < |draws| && Accepts(hash, draws[used]) &&
          (forall i :: 0 <= i < used ==> !Accepts(hash, draws[i])) &&
          1 <= Attempt(hash, draws[used]).r < q && 1 <= Attempt(hash, draws[used]).s < q &&
          signature.value == SignatureText(Attempt(hash, draws[used]))
    {
      var hash := GetHashCode(hashBytes);
      var i := 0;
      var k: int, r: int, s: int;
      while true
        invariant 0 <= i <= |draws|
        invariant forall j :: 0 <= j < i ==> !Accepts(hash, draws[j])
        decreases |draws| - i
      {
        // the inner retry: draw k until r is non-zero
        if i == |draws| {
          return None, 0;
        }
        k := GetRandom(q, draws[i]);
        r := ModPow(g, k, p) % q;
        i := i + 1;
        while r == 0
          invariant 1 <= i <= |draws|
          invariant forall j :: 0 <= j < i - 1 ==> !Accepts(hash, draws[j])
          invariant k == GetRandom(q, draws[i - 1]) && r == Attempt(hash, draws[i - 1]).r
          decreases |draws| - i
        {
          if i == |draws| {
            return None, 0;
          }
          k := GetRandom(q, draws[i]);
          r := ModPow(g, k, p) % q;
          i := i + 1;
        }
        s := (ModPow(k, q - 2, q) * ((hash + x * r) % q)) % q;
        if s != 0 {
          return Some(SignatureText(Signature(r, s))), i - 1;
        }
      }
    }

    /** v = ((g^u1 mod p) * (y^u2 mod p) mod p) mod q. */
    function GetParamV(u1: nat, u2: nat): (v: nat)
      reads this
      requires Valid()
      ensures v < q
    {
      var v1 := ModPow(g, u1, p);
      var v2 := ModPow(y, u2, p);
      var v3 := (v1 * v2) % p;
      v3 % q
    }

    /** The value verification compares with r: w = s^(q-2) mod q, u1 = H*w mod q,
        u2 = r*w mod q, then GetParamV(u1, u2). Neither r nor s is range-checked. */
    function VerifyValue(hash: nat, sig: Signature): (v: nat)
      reads this
      requires Valid()
      ensures v < q
    {
      var w := ModPow(sig.s, q - 2, q);
      var u1 := (hash * w) % q;
      var u2 := (sig.r * w) % q;
      GetParamV(u1, u2)
    }

    /** Reads r and s from the two lines of `key`, sets `Check` to whether v equals r and
        returns `"v = <v>"`. A malformed key raises its exception and leaves `Check` alone. */
    method CheckDigitalSignature(hashBytes: seq<byte>, key: seq<string>)
      returns (result: Result<string, KeyError>)
      requires Valid()
      modifies this`Check
      ensures Valid()
      ensures ParseKey(key).Err? ==> result == Err(ParseKey(key).error) && Check == old(Check)
      ensures ParseKey(key).Ok? ==>
        var v := VerifyValue(GetHashCode(hashBytes), ParseKey(key).value);
        result == Ok("v = " + Dec(v)) && Check == (v == ParseKey(key).value.r)
    {
      var parsed := ParseKey(key);
      if parsed.Err? {
        return Err(parsed.error);
      }
      var r, s := parsed.value.r, parsed.value.s;
      var hash := GetHashCode(hashBytes);
      var w := ModPow(s, q - 2, q);
      var u1 := (hash * w) % q;
      var u2 := (r * w) % q;
      var v := GetParamV(u1, u2);
      Check := v == r;
      return Ok("v = " + Dec(v));
    }
  }

  /** If p is prime and q * t = p - 1, then g^q mod p = 1: g = h^t mod p with h not a multiple
      of p, so g^q is congruent to h^(p-1), which is 1 by Fermat's little theorem. */
  lemma GeneratorOrder(dsa: DigitalSignatureAlgorithm)
    requires dsa.Valid() && IsPrime(dsa.p) && dsa.q * dsa.t == dsa.p - 1
    ensures ModPow(dsa.g, dsa.q, dsa.p) == 1
  {
    var h, t, p, q := dsa.gBase, dsa.t, dsa.p, dsa.q;
    assert t >= 1;
    if h % p == 0 {
      PowMod(h, t, p);
      PowOfZero(t);
      assert false;
    }
    Fermat(h, p);
    calc {
      ModPow(dsa.g, q, p);
      Pow(Pow(h, t) % p, q) % p;
      { PowMod(Pow(h, t), q, p); }
      Pow(Pow(h, t), q) % p;
      { PowMul(h, t, q); assert t * q == p - 1; }
      Pow(h, p - 1) % p;
    }
  }

  /** If moreover q is prime, the order of g modulo p is exactly q: no power g^j with
      0 < j < q is 1, since otherwise g^gcd(j, q) = g^1 would be, and 2 <= g < p. */
  lemma GeneratorOrderExact(dsa: DigitalSignatureAlgorithm, j: nat)
    requires dsa.Valid() && IsPrime(dsa.p) && IsPrime(dsa.q) && dsa.q * dsa.t == dsa.p - 1
    requires 0 < j < dsa.q
    ensures ModPow(dsa.g, j, dsa.p) != 1
  {
    var g, p, q := dsa.g, dsa.p, dsa.q;
    if ModPow(g, j, p) == 1 {
      GeneratorOrder(dsa);
      var d := PowCommonDivisor(g, q, j, p);
      DivisorAtMost(d, j);
      assert !Divides(d, q) || d < 2;
      assert Pow(g, d) == g;
      DivModUnique(g, p, 0, g);
      assert false;
    }
  }

  /** With y = g^x mod p, the product that GetParamV reduces is g^(u1 + x*u2) mod p. */
  lemma PublicKeyPower(p: int, g: nat, x: nat, u1: nat, u2: nat)
    requires p > 0
    ensures (ModPow(g, u1, p) * ModPow(ModPow(g, x, p), u2, p)) % p == Pow(g, u1 + x * u2) % p
  {
    calc {
      ModPow(ModPow(g, x, p), u2, p);
      Pow(Pow(g, x) % p, u2) % p;
      { PowMod(Pow(g, x), u2, p); }
      Pow(Pow(g, x), u2) % p;
      { PowMul(g, x, u2); }
      Pow(g, x * u2) % p;
    }
    calc {
      (ModPow(g, u1, p) * ModPow(ModPow(g, x, p), u2, p)) % p;
      ((Pow(g, u1) % p) * (Pow(g, x * u2) % p)) % p;
      { ModMul(Pow(g, u1), Pow(g, x * u2), p); }
      (Pow(g, u1) * Pow(g, x * u2)) % p;
      { PowAdd(g, u1, x * u2); }
      Pow(g, u1 + x * u2) % p;
    }
  }

  /** With q prime, multiplying by k undoes multiplying by k^(q-2) modulo q. */
  lemma InverseCancels(q: int, k: nat, m: int)
    requires IsPrime(q) && 1 <= k < q && 0 <= m < q
    ensures (k * ((ModPow(k, q - 2, q) * m) % q)) % q == m
  {
    var kInv := ModPow(k, q - 2, q);
    DivModUnique(k, q, 0, k);
    FermatInverse(k, q);
    calc {
      (k * ((kInv * m) % q)) % q;
      { ModMulRight(k, kInv * m, q); }
      (k * (kInv * m)) % q;
      { assert k * (kInv * m) == m * (k * kInv); }
      (m * (k * kInv)) % q;
      { ModMulRight(m, k * kInv, q); }
      (m * 1) % q;
      { DivModUnique(m, q, 0, m); }
      m;
    }
  }

  /** u1 + x*u2 is congruent to w * (H + x r) modulo q. */
  lemma ExponentSum(q: int, x: nat, hash: nat, r: nat, w: nat)
    requires q > 0
    ensures ((hash * w) % q + x * ((r * w) % q)) % q == (w * (hash + x * r)) % q
  {
    var a, b := hash * w, x * (r * w);
    calc {
      ((hash * w) % q + x * ((r * w) % q)) % q;
      { ModAdd(a % q, x * ((r * w) % q), q); ModOfMod(a, q); }
      (a % q + (x * ((r * w) % q)) % q) % q;
      { ModMulRight(x, r * w, q); }
      (a % q + b % q) % q;
      { ModAdd(a, b, q); }
      (a + b) % q;
      { assert a + b == w * (hash + x * r); }
      (w * (hash + x * r)) % q;
    }
  }

  /** With q prime, the exponent that verification rebuilds, u1 + x*u2 mod q, is the k that
      signing drew: s = k^(-1) (H + x r) and w = s^(-1), both modulo q. */
  lemma ExponentRecovered(q: int, x: nat, hash: nat, k: nat, r: nat, s: nat)
    requires IsPrime(q) && 1 <= k < q && 1 <= s < q
    requires s == (ModPow(k, q - 2, q) * ((hash + x * r) % q)) % q
    ensures var w := ModPow(s, q - 2, q);
      ((hash * w) % q + x * ((r * w) % q)) % q == k
  {
    var w := ModPow(s, q - 2, q);
    var m := (hash + x * r) % q;
    assert (k * s) % q == m by {
      InverseCancels(q, k, m);
    }
    assert (s * w) % q == 1 by {
      DivModUnique(s, q, 0, s);
      FermatInverse(s, q);
    }
    ExponentSum(q, x, hash, r, w);
    assert (w * (hash + x * r)) % q == (w * (k * s)) % q by {
      ModMulRight(w, hash + x * r, q);
      ModMulRight(w, k * s, q);
    }
    UndoByInverse(q, k, s, w);
  }

  /** Multiplying `k * s` by an inverse `w` of `s` modulo q gives back `k`. */
  lemma UndoByInverse(q: int, k: int, s: int, w: int)
    requires q > 0 && 0 <= k < q && (s * w) % q == 1
    ensures (w * (k * s)) % q == k
  {
    assert w * (k * s) == k * (s * w);
    ModMulRight(k, s * w, q);
    DivModUnique(k, q, 0, k);
  }

  /** Round trip: with p and q prime and q * t = p - 1, every signature the signing
      loops can return passes verification for the same digest. */
  lemma SignVerifyRoundTrip(dsa: DigitalSignatureAlgorithm, hash: nat, draw: Draw)
    requires dsa.Valid() && IsPrime(dsa.p) && IsPrime(dsa.q) && dsa.q * dsa.t == dsa.p - 1
    requires dsa.Accepts(hash, draw)
    ensures dsa.VerifyValue(hash, dsa.Attempt(hash, draw)) == dsa.Attempt(hash, draw).r
  {
    var q, p, g, x := dsa.q, dsa.p, dsa.g, dsa.x;
    var k := dsa.GetRandom(q, draw);
    var sig := dsa.Attempt(hash, draw);
    var w := ModPow(sig.s, q - 2, q);
    var u1 := (hash * w) % q;
    var u2 := (sig.r * w) % q;
    GeneratorOrder(dsa);
    ExponentRecovered(q, x, hash, k, sig.r, sig.s);
    PublicKeyPower(p, g, x, u1, u2);
    PowModOrder(g, u1 + x * u2, q, p);
  }

  /** Verification never checks 0 < s < q: s and s + q give the same verdict. */
  lemma SignatureMalleable(dsa: DigitalSignatureAlgorithm, hash: nat, sig: Signature)
    requires dsa.Valid()
    ensures dsa.VerifyValue(hash, Signature(sig.r, sig.s + dsa.q)) == dsa.VerifyValue(hash, sig)
  {
    var q := dsa.q;
    ModAddMultiple(1, sig.s, q);
    DivModUnique(sig.s, q, sig.s / q, sig.s % q);
    PowMod(sig.s + q, q - 2, q);
    PowMod(sig.s, q - 2, q);
  }

  /** The key `"r = 1"`, `"s = 0"` reads as the pair (1, 0). */
  lemma ZeroKeyParses()
    ensures ParseKey(["r = 1", "s = 0"]) == Ok(Signature(1, 0))
  {
    assert "r = 1"[4..] == "1" && "s = 0"[4..] == "0";
    assert "1"[..0] == [] && "0"[..0] == [];
    assert DigitsValue("1") == 1 && DigitsValue("0") == 0;
  }

  /** Verification never checks 0 < r or 0 < s: once q >= 3 the pair (1, 0) has w, u1 and u2
      all 0, so v = 1 = r for every message. */
  lemma ZeroSignatureAccepted(dsa: DigitalSignatureAlgorithm, hash: nat)
    requires dsa.Valid() && dsa.q >= 3
    ensures dsa.VerifyValue(hash, Signature(1, 0)) == 1
  {
    var q, p := dsa.q, dsa.p;
    DivModUnique(1, p, 0, 1);
    DivModUnique(1, q, 0, 1);
    DivModUnique(0, q, 0, 0);
    PowOfZero(q - 2);
    var w := ModPow(0, q - 2, q);
    assert w == 0;
    assert (hash * w) % q == 0 && (1 * w) % q == 0;
    assert ModPow(dsa.g, 0, p) == 1 && ModPow(dsa.y, 0, p) == 1;
    assert dsa.GetParamV(0, 0) == 1;
  }

  /** The bits set in the digest are bits of q, whatever the sign of the hash integer. */
  lemma DigestBitsOfQ(dsa: DigitalSignatureAlgorithm, hashBytes: seq<byte>, i: nat)
    requires dsa.q >= 0 && Bit(dsa.GetHashCode(hashBytes), i) == 1
    ensures Bit(dsa.q, i) == 1
  {
    BitAndSubset(SignedLittleEndian(hashBytes), dsa.q, i);
  }

  /** Unlike a reduction modulo q, the digest can be q itself: a hash whose bytes are all 0xFF
      is the integer -1, and -1 & q is q. */
  lemma DigestCanBeQ(dsa: DigitalSignatureAlgorithm, hashBytes: seq<byte>)
    requires dsa.q >= 0
    requires |hashBytes| > 0 && forall i :: 0 <= i < |hashBytes| ==> hashBytes[i] == 255
    ensures dsa.GetHashCode(hashBytes) == dsa.q
  {
    AllOnesIsMinusOne(hashBytes);
    BitAndMinusOne(dsa.q);
  }

  /** Every value from 1 to q - 2 that fits the range of `b2` is the scalar of some draw, and
      q - 1 never is (for q >= 3). */
  lemma GetRandomRange(dsa: DigitalSignatureAlgorithm, maxValue: int, v: int)
    requires dsa.q >= 3 && 1 <= v <= dsa.q - 2 && v < 0x1_0000_0000_0000_0000
    ensures dsa.GetRandom(maxValue, Draw(0, v, 0)) == v
  {
    DivModUnique(v, dsa.q - 1, 0, v);
  }

  /** A caller that signs a digest, splits the signature text into lines and verifies them:
      whenever signing returns, `Check` ends up true. */
  method SignThenVerify(dsa: DigitalSignatureAlgorithm, hashBytes: seq<byte>, draws: seq<Draw>)
    returns (signed: bool)
    requires dsa.Valid() && IsPrime(dsa.p) && IsPrime(dsa.q) && dsa.q * dsa.t == dsa.p - 1
    modifies dsa`Check
    ensures dsa.Valid()
    ensures signed ==> dsa.Check
    ensures !signed ==> dsa.Check == old(dsa.Check)
    ensures !signed ==> forall i :: 0 <= i < |draws| ==> !dsa.Accepts(dsa.GetHashCode(hashBytes), draws[i])
  {
    var signature, used := dsa.GenerateDigitalSignature(hashBytes, draws);
    if signature.None? {
      return false;
    }
    ghost var hash := dsa.GetHashCode(hashBytes);
    ghost var sig := dsa.Attempt(hash, draws[used]);
    SignatureTextRoundTrip(sig);
    SignVerifyRoundTrip(dsa, hash, draws[used]);
    var verdict := dsa.CheckDigitalSignature(hashBytes, Lines(signature.value));
    return true;
  }
}
