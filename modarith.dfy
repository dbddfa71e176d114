/** Integer powers and arithmetic modulo a positive modulus.

    Dafny's `/` and `%` are Euclidean: for a positive modulus `m`, `n % m` lies in
    `[0, m)` for every `n`. Every dividend on the normal path of the signature
    scheme is non-negative, where this agrees with the truncating `%` of
    System.Numerics.BigInteger.
 */
module ModArith {

  /** `b` raised to the power `e`, by repeated multiplication. */
  function Pow(b: int, e: nat): int
    decreases e
  {
    if e == 0 then 1 else b * Pow(b, e - 1)
  }

  /** BigInteger.ModPow(b, e, m) for a non-negative base: the remainder of b^e by m. */
  function ModPow(b: int, e: nat, m: int): (r: int)
    requires b >= 0 && m > 0
    ensures 0 <= r < m
  {
    Pow(b, e) % m
  }

  /** Quotient and remainder are determined by the division equation. */
  lemma DivModUnique(n: int, d: int, quot: int, rem: int)
    requires d > 0 && 0 <= rem < d && n == quot * d + rem
    ensures n / d == quot && n % d == rem
  {
    var q0, r0 := n / d, n % d;
    assert n == q0 * d + r0;
    if q0 > quot {
      assert (q0 - quot) * d == rem - r0;
      MulAtLeast(q0 - quot, d);
    } else if q0 < quot {
      assert (quot - q0) * d == r0 - rem;
      MulAtLeast(quot - q0, d);
    }
  }

  lemma MulAtLeast(a: int, d: int)
    requires a >= 1 && d > 0
    ensures a * d >= d
  {
    assert a * d == (a - 1) * d + d;
    assert (a - 1) * d >= 0;
  }

  /** Adding a multiple of the modulus does not change the remainder. */
  lemma ModAddMultiple(k: int, n: int, m: int)
    requires m > 0
    ensures (k * m + n) % m == n % m
  {
    assert n == (n / m) * m + n % m;
    assert k * m + n == (k + n / m) * m + n % m;
    DivModUnique(k * m + n, m, k + n / m, n % m);
  }

  /** A multiple of `m` leaves remainder zero. */
  lemma ModMultiple(k: int, m: int)
    requires m > 0
    ensures (k * m) % m == 0
  {
    ModAddMultiple(k, 0, m);
  }

  lemma ModOfMod(a: int, m: int)
    requires m > 0
    ensures (a % m) % m == a % m
  {
    DivModUnique(a % m, m, 0, a % m);
  }

  /** Remainders of a sum depend only on the remainders of the summands. */
  lemma ModAdd(a: int, b: int, m: int)
    requires m > 0
    ensures (a + b) % m == ((a % m) + (b % m)) % m
  {
    var qa, qb := a / m, b / m;
    assert a + b == (qa + qb) * m + ((a % m) + (b % m));
    ModAddMultiple(qa + qb, (a % m) + (b % m), m);
  }

  /** Remainders of a product depend only on the remainders of the factors. */
  lemma ModMul(a: int, b: int, m: int)
    requires m > 0
    ensures (a * b) % m == ((a % m) * (b % m)) % m
  {
    var qa, ra, qb, rb := a / m, a % m, b / m, b % m;
    assert a == qa * m + ra;
    assert b == qb * m + rb;
    calc {
      a * b;
      (qa * m + ra) * (qb * m + rb);
      (qa * qb * m + qa * rb + ra * qb) * m + ra * rb;
    }
    ModAddMultiple(qa * qb * m + qa * rb + ra * qb, ra * rb, m);
  }

  /** Reducing one factor first does not change the remainder of a product. */
  lemma ModMulRight(a: int, b: int, m: int)
    requires m > 0
    ensures (a * (b % m)) % m == (a * b) % m
  {
    ModMul(a, b % m, m);
    ModOfMod(b, m);
    ModMul(a, b, m);
  }

  /** Equal remainders mean the difference is a multiple of the modulus. */
  lemma ModSub(a: int, b: int, m: int)
    requires m > 0 && a % m == b % m
    ensures (a - b) % m == 0
  {
    assert a - b == (a / m - b / m) * m + 0;
    DivModUnique(a - b, m, a / m - b / m, 0);
  }

  lemma {:induction false} PowAdd(b: int, e1: nat, e2: nat)
    ensures Pow(b, e1 + e2) == Pow(b, e1) * Pow(b, e2)
    decreases e1
  {
    if e1 > 0 {
      PowAdd(b, e1 - 1, e2);
      assert Pow(b, e1 + e2) == b * Pow(b, e1 - 1 + e2);
    }
  }

  lemma {:induction false} PowMul(b: int, e1: nat, e2: nat)
    ensures Pow(b, e1 * e2) == Pow(Pow(b, e1), e2)
    decreases e2
  {
    if e2 > 0 {
      calc {
        Pow(b, e1 * e2);
        { assert e1 * e2 == e1 + e1 * (e2 - 1); }
        Pow(b, e1 + e1 * (e2 - 1));
        { PowAdd(b, e1, e1 * (e2 - 1)); }
        Pow(b, e1) * Pow(b, e1 * (e2 - 1));
        { PowMul(b, e1, e2 - 1); }
        Pow(b, e1) * Pow(Pow(b, e1), e2 - 1);
      }
    }
  }

  lemma {:induction false} PowOfOne(e: nat)
    ensures Pow(1, e) == 1
  {
    if e > 0 {
      PowOfOne(e - 1);
    }
  }

  lemma {:induction false} PowOfZero(e: nat)
    requires e >= 1
    ensures Pow(0, e) == 0
  {
  }

  /** The remainder of a power depends only on the remainder of its base. */
  lemma {:induction false} PowMod(b: int, e: nat, m: int)
    requires m > 0
    ensures Pow(b % m, e) % m == Pow(b, e) % m
  {
    if e > 0 {
      calc {
        Pow(b % m, e) % m;
        ((b % m) * Pow(b % m, e - 1)) % m;
        { ModMul(b % m, Pow(b % m, e - 1), m); }
        (((b % m) % m) * (Pow(b % m, e - 1) % m)) % m;
        { ModOfMod(b, m); PowMod(b, e - 1, m); }
        ((b % m) * (Pow(b, e - 1) % m)) % m;
        { ModMul(b, Pow(b, e - 1), m); }
        (b * Pow(b, e - 1)) % m;
      }
    }
  }

  /** When `g^n` leaves remainder 1 modulo `m`, so does every power of `g^n`. */
  lemma PowOfUnit(g: int, n: nat, c: nat, m: int)
    requires m > 1 && Pow(g, n) % m == 1
    ensures Pow(g, n * c) % m == 1
  {
    PowMul(g, n, c);
    PowMod(Pow(g, n), c, m);
    PowOfOne(c);
    DivModUnique(1, m, 0, 1);
  }

  /** When `g^n` leaves remainder 1 modulo `m`, the remainder of `g^e` depends only on `e % n`. */
  lemma PowModOrder(g: int, e: nat, n: nat, m: int)
    requires m > 1 && n > 0 && Pow(g, n) % m == 1
    ensures Pow(g, e) % m == Pow(g, e % n) % m
  {
    var c, rest := e / n, e % n;
    assert e == n * c + rest;
    var a, b := Pow(g, n * c), Pow(g, rest);
    PowAdd(g, n * c, rest);
    assert Pow(g, e) == a * b;
    ModMul(a, b, m);
    PowOfUnit(g, n, c, m);
    assert (a * b) % m == (1 * (b % m)) % m;
    ModOfMod(b, m);
  }
}
