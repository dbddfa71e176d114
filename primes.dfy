/** Primes, Euclid's lemma and Fermat's little theorem.

    Fermat's little theorem is proved by the classical counting argument: for a
    prime `p` and `a` not divisible by `p`, the residues `a*1 % p, ..., a*(p-1) % p`
    are `p - 1` distinct values in `[1, p-1]`, so their product is `(p-1)!`; it is
    also congruent to `a^(p-1) * (p-1)!`, and `(p-1)!` can be cancelled.
 */
module Primes {
  import opened ModArith

  predicate Divides(d: int, n: int)
  {
    d != 0 && n % d == 0
  }

  /** `n` is at least 2 and has no divisor strictly between 1 and `n`. */
  ghost predicate IsPrime(n: int)
  {
    n >= 2 && forall d :: 2 <= d < n ==> !Divides(d, n)
  }

  /** Extended Euclid: a common divisor of `a` and `b` that is an integer combination of them. */
  lemma {:induction false} Bezout(a: nat, b: nat) returns (gcd: nat, u: int, v: int)
    requires a > 0 || b > 0
    ensures gcd > 0 && a % gcd == 0 && b % gcd == 0
    ensures a * u + b * v == gcd
    decreases b
  {
    if b == 0 {
      gcd, u, v := a, 1, 0;
      ModMultiple(1, a);
      ModMultiple(0, a);
    } else {
      var g', u', v' := Bezout(b, a % b);
      gcd, u, v := g', v', u' - (a / b) * v';
      assert a == (a / b) * b + a % b;
      calc {
        a * u + b * v;
        a * v' + b * u' - b * (a / b) * v';
        b * u' + (a - (a / b) * b) * v';
        b * u' + (a % b) * v';
      }
      // a is (a / b) * (b / gcd) * gcd + (a % b / gcd) * gcd
      assert b == (b / gcd) * gcd;
      assert a % b == ((a % b) / gcd) * gcd;
      assert a == ((a / b) * (b / gcd) + (a % b) / gcd) * gcd;
      ModMultiple((a / b) * (b / gcd) + (a % b) / gcd, gcd);
    }
  }

  /** A common divisor of `b` and `r` divides `k * b + r`. */
  lemma DividesCombination(k: int, b: int, r: int, d: int)
    requires d > 0 && b % d == 0 && r % d == 0
    ensures (k * b + r) % d == 0
  {
    assert b == (b / d) * d;
    assert r == (r / d) * d;
    assert k * b + r == (k * (b / d) + r / d) * d;
    ModMultiple(k * (b / d) + r / d, d);
  }

  /** When `g^a` and `g^b` both leave remainder 1 modulo `m`, so does `g^d` for a positive
      common divisor `d` of `a` and `b`: Euclid's algorithm run on the exponents. */
  lemma {:induction false} PowCommonDivisor(g: int, a: nat, b: nat, m: int) returns (d: nat)
    requires m > 1 && a > 0
    requires Pow(g, a) % m == 1 && Pow(g, b) % m == 1
    ensures d > 0 && a % d == 0 && b % d == 0 && Pow(g, d) % m == 1
    decreases b
  {
    if b == 0 {
      d := a;
      DivModUnique(a, a, 1, 0);
    } else {
      PowModOrder(g, a, b, m);
      d := PowCommonDivisor(g, b, a % b, m);
      assert a == (a / b) * b + a % b;
      DividesCombination(a / b, b, a % b, d);
    }
  }

  /** A positive multiple of `d` is at least `d`. */
  lemma DivisorAtMost(d: int, n: int)
    requires d > 0 && n > 0 && n % d == 0
    ensures d <= n
  {
    if d > n {
      DivModUnique(n, d, 0, n);
    }
  }

  /** If `a' * u + p * v == 1` then `p` dividing `a' * b` forces `p` to divide `b`. */
  lemma DividesThroughInverse(p: int, a': int, b: int, u: int, v: int)
    requires p > 0 && a' * u + p * v == 1 && (a' * b) % p == 0
    ensures b % p == 0
  {
    var c := (a' * b) / p;
    assert a' * b == c * p;
    calc {
      b;
      (a' * u + p * v) * b;
      (a' * b) * u + (p * v) * b;
      (c * p) * u + (p * v) * b;
      (c * u + b * v) * p;
    }
    ModMultiple(c * u + b * v, p);
  }

  /** Euclid's lemma: a prime dividing a product divides one of the factors. */
  lemma Euclid(p: int, a: int, b: int)
    requires IsPrime(p)
    requires (a * b) % p == 0
    ensures a % p == 0 || b % p == 0
  {
    if a % p != 0 {
      var a' := a % p;
      var gcd, u, v := Bezout(a', p);
      DivisorAtMost(gcd, a');
      assert !Divides(gcd, p) || gcd < 2;
      assert gcd == 1;
      assert (a' * b) % p == 0 by {
        ModMul(a, b, p);
        ModOfMod(a, p);
        ModMul(a', b, p);
      }
      DividesThroughInverse(p, a', b, u, v);
    }
  }

  /** `n` factorial. */
  function Fact(n: nat): int
  {
    if n == 0 then 1 else Fact(n - 1) * n
  }

  /** No factor in `[1, n]` is divisible by a prime `p > n`, so neither is their product. */
  lemma {:induction false} FactNotDivisible(p: int, n: nat)
    requires IsPrime(p) && n < p
    ensures Fact(n) % p != 0
  {
    if n == 0 {
      DivModUnique(1, p, 0, 1);
    } else {
      FactNotDivisible(p, n - 1);
      DivModUnique(n, p, 0, n);
      if Fact(n) % p == 0 {
        Euclid(p, Fact(n - 1), n);
      }
    }
  }

  /** Product of a sequence, multiplied from the front. */
  function Prod(s: seq<int>): int
  {
    if s == [] then 1 else Prod(s[..|s| - 1]) * s[|s| - 1]
  }

  lemma {:induction false} ProdConcat(a: seq<int>, b: seq<int>)
    ensures Prod(a + b) == Prod(a) * Prod(b)
    decreases |b|
  {
    if b != [] {
      var b' := b[..|b| - 1];
      assert (a + b)[..|a + b| - 1] == a + b';
      ProdConcat(a, b');
    } else {
      assert a + b == a;
    }
  }

  /** Taking element `j` out of `s` divides the product by `s[j]`. */
  lemma ProdRemove(s: seq<int>, j: int)
    requires 0 <= j < |s|
    ensures Prod(s) == Prod(s[..j] + s[j + 1..]) * s[j]
  {
    var left, right := s[..j], s[j + 1..];
    var a, b, c := Prod(left), s[j], Prod(right);
    assert Prod(s) == (a * b) * c by {
      assert s == (left + [s[j]]) + right;
      ProdConcat(left + [s[j]], right);
      ProdSnoc(left, s[j]);
    }
    assert Prod(left + right) == a * c by {
      ProdConcat(left, right);
    }
    Rearrange(a, b, c);
  }

  lemma Rearrange(a: int, b: int, c: int)
    ensures (a * b) * c == (a * c) * b
  {
  }

  lemma ProdSnoc(s: seq<int>, x: int)
    ensures Prod(s + [x]) == Prod(s) * x
  {
    assert (s + [x])[..|s|] == s;
  }

  ghost predicate Distinct(s: seq<int>)
  {
    forall i, j :: 0 <= i < j < |s| ==> s[i] != s[j]
  }

  ghost predicate InRange(s: seq<int>, n: int)
  {
    forall i :: 0 <= i < |s| ==> 1 <= s[i] <= n
  }

  /** Removing element `j` from a sequence keeps it distinct and drops the value `s[j]`. */
  lemma RemoveFacts(s: seq<int>, j: int, n: int)
    requires 0 <= j < |s| && Distinct(s) && InRange(s, n) && s[j] == n
    ensures var s' := s[..j] + s[j + 1..];
      |s'| == |s| - 1 && Distinct(s') && InRange(s', n - 1)
  {
    var s' := s[..j] + s[j + 1..];
    assert forall i :: 0 <= i < |s'| ==> s'[i] == (if i < j then s[i] else s[i + 1]);
    forall i | 0 <= i < |s'|
      ensures 1 <= s'[i] <= n - 1
    {
      if i < j {
        assert s[i] != s[j];
      } else {
        assert s[j] != s[i + 1];
      }
    }
  }

  /** Pigeonhole: at most `n` distinct values fit in `[1, n]`, and when exactly `n` do, `n` is one
      of them. */
  lemma {:induction false} DistinctBound(s: seq<int>, n: nat)
    requires Distinct(s) && InRange(s, n)
    ensures |s| <= n
    ensures |s| == n > 0 ==> n in s
    decreases n
  {
    if |s| > 0 {
      assert 1 <= s[0] <= n;
      if j :| 0 <= j < |s| && s[j] == n {
        RemoveFacts(s, j, n);
        DistinctBound(s[..j] + s[j + 1..], n - 1);
      } else {
        assert InRange(s, n - 1);
        DistinctBound(s, n - 1);
      }
    }
  }

  /** `n` distinct values in `[1, n]` multiply to `n!`. */
  lemma {:induction false} ProdOfFullRange(s: seq<int>, n: nat)
    requires Distinct(s) && InRange(s, n) && |s| == n
    ensures Prod(s) == Fact(n)
    decreases n
  {
    if n > 0 {
      DistinctBound(s, n);
      var j :| 0 <= j < |s| && s[j] == n;
      RemoveFacts(s, j, n);
      ProdOfFullRange(s[..j] + s[j + 1..], n - 1);
      ProdRemove(s, j);
    }
  }

  /** The residues `a*1 % p, ..., a*n % p`. */
  function Residues(a: int, p: int, n: nat): (s: seq<int>)
    requires p > 0
    ensures |s| == n
    ensures forall i :: 0 <= i < n ==> s[i] == (a * (i + 1)) % p
  {
    if n == 0 then [] else Residues(a, p, n - 1) + [(a * n) % p]
  }

  lemma {:induction false} ResiduesProduct(a: int, p: int, n: nat)
    requires p > 0
    ensures Prod(Residues(a, p, n)) % p == (Pow(a, n) * Fact(n)) % p
  {
    if n > 0 {
      var s := Residues(a, p, n);
      assert s[..n - 1] == Residues(a, p, n - 1);
      var prev := Prod(Residues(a, p, n - 1));
      ResiduesProduct(a, p, n - 1);
      calc {
        Prod(s) % p;
        (prev * ((a * n) % p)) % p;
        { ModMul(prev, (a * n) % p, p); ModOfMod(a * n, p); }
        ((prev % p) * ((a * n) % p)) % p;
        { ModMul(Pow(a, n - 1) * Fact(n - 1), a * n, p); }
        (Pow(a, n - 1) * Fact(n - 1) * (a * n)) % p;
        { assert Pow(a, n - 1) * Fact(n - 1) * (a * n) == (a * Pow(a, n - 1)) * (Fact(n - 1) * n); }
        (Pow(a, n) * Fact(n)) % p;
      }
    }
  }

  /** For a prime `p` and `a` not divisible by it, the residues of `a*1, ..., a*(p-1)` are
      distinct and lie in `[1, p-1]`. */
  lemma ResiduesPermute(a: int, p: int)
    requires IsPrime(p) && a % p != 0
    ensures Distinct(Residues(a, p, p - 1)) && InRange(Residues(a, p, p - 1), p - 1)
  {
    var s := Residues(a, p, p - 1);
    forall i | 0 <= i < |s|
      ensures 1 <= s[i] <= p - 1
    {
      DivModUnique(i + 1, p, 0, i + 1);
      if s[i] == 0 {
        Euclid(p, a, i + 1);
      }
    }
    forall i, j | 0 <= i < j < |s|
      ensures s[i] != s[j]
    {
      if s[i] == s[j] {
        ModSub(a * (j + 1), a * (i + 1), p);
        assert a * (j + 1) - a * (i + 1) == a * (j - i);
        Euclid(p, a, j - i);
        DivModUnique(j - i, p, 0, j - i);
      }
    }
  }

  /** A factor not divisible by the prime `p` can be cancelled from a congruence. */
  lemma CancelFactor(p: int, a: int, f: int)
    requires IsPrime(p) && f % p != 0 && (a * f) % p == f % p
    ensures a % p == 1
  {
    ModSub(a * f, f, p);
    assert a * f - f == (a - 1) * f;
    Euclid(p, a - 1, f);
    ModAdd(a - 1, 1, p);
    DivModUnique(1, p, 0, 1);
  }

  /** Fermat's little theorem. */
  lemma Fermat(a: int, p: int)
    requires IsPrime(p) && a % p != 0
    ensures Pow(a, p - 1) % p == 1
  {
    var s := Residues(a, p, p - 1);
    ResiduesPermute(a, p);
    ProdOfFullRange(s, p - 1);
    ResiduesProduct(a, p, p - 1);
    FactNotDivisible(p, p - 1);
    CancelFactor(p, Pow(a, p - 1), Fact(p - 1));
  }

  /** With a prime modulus, `a^(q-2)` is the multiplicative inverse of `a`. */
  lemma FermatInverse(a: int, q: int)
    requires IsPrime(q) && a >= 0 && a % q != 0
    ensures (a * ModPow(a, q - 2, q)) % q == 1
  {
    calc {
      (a * ModPow(a, q - 2, q)) % q;
      { ModMul(a, Pow(a, q - 2), q); ModOfMod(Pow(a, q - 2), q); ModMul(a, ModPow(a, q - 2, q), q); }
      (a * Pow(a, q - 2)) % q;
      { assert a * Pow(a, q - 2) == Pow(a, q - 1); }
      Pow(a, q - 1) % q;
      { Fermat(a, q); }
      1;
    }
  }
}
