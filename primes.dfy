/** Primes, Euclid's lemma and Fermat's little theorem: the facts behind the Miller-Rabin
    test accepting every prime and behind RSA decryption undoing encryption. */
module Primes {
  import opened NumberTheory

  /** p is prime: at least 2, and no number strictly between 1 and p divides it. */
  predicate IsPrime(p: nat)
  {
    p >= 2 && forall d: nat | 2 <= d < p :: p % d != 0
  }

  /** A positive divisor of a positive number is at most that number. */
  lemma DivisorBound(d: nat, n: nat)
    requires n > 0 && Divides(d, n)
    ensures d <= n
  {
    var k := n / d;
    assert n == d * k;
    assert d * k == d + d * (k - 1);
  }

  /** x and y leave the same remainder exactly when m divides their difference. */
  lemma ModDiff(x: int, y: int, m: nat)
    requires m > 0
    ensures x % m == y % m <==> (x - y) % m == 0
  {
    if x % m == y % m {
      assert x - y == m * (x / m - y / m);
      ModOfMultiple(m, x / m - y / m, 0);
    }
    if (x - y) % m == 0 {
      assert x == m * ((x - y) / m) + y;
      ModOfMultiple(m, (x - y) / m, y);
    }
  }

  /** A multiple of a multiple of m is a multiple of m. */
  lemma MultipleMod(b: int, w: int, m: nat)
    requires m > 0 && b % m == 0
    ensures (b * w) % m == 0
  {
    var c := b / m;
    assert b * w == m * (c * w) + 0 by {
      assert b == m * c;
    }
    ModOfMultiple(m, c * w, 0);
  }

  /** Adding the same number keeps two values congruent. */
  lemma ModAdd(x: int, y: int, c: int, m: nat)
    requires m > 0 && x % m == y % m
    ensures (x + c) % m == (y + c) % m
  {
    ModDiff(x, y, m);
    ModDiff(x + c, y + c, m);
  }

  /** A number that the prime p does not divide is coprime to p. */
  lemma PrimeCoprime(p: nat, a: nat)
    requires IsPrime(p) && a % p != 0
    ensures Gcd(a, p) == 1
  {
    GcdDivides(a, p);
    var g := Gcd(a, p);
    DivisorBound(g, p);
  }

  /** Euclid's lemma: a prime that divides a product divides one of its factors. */
  lemma EuclidLemma(p: nat, a: int, b: int)
    requires IsPrime(p) && (a * b) % p == 0
    ensures a % p == 0 || b % p == 0
  {
    if a % p != 0 {
      var r, q := a % p, a / p;
      PrimeCoprime(p, r);
      BezoutIdentity(r, p);
      var x, y := Bezout(r, p).0, Bezout(r, p).1;
      assert r * x + p * y == 1;
      var t := (a * b) / p;
      assert a * b == p * t;
      EuclidStep(p, a, b, r, q, t, x, y);
      ModOfMultiple(p, (t - q * b) * x + b * y, 0);
    }
  }

  /** The arithmetic of Euclid's lemma: from a == p*q + r, a*b == p*t and a Bezout
      identity r*x + p*y == 1, b is p times an explicit cofactor. */
  lemma EuclidStep(p: int, a: int, b: int, r: int, q: int, t: int, x: int, y: int)
    requires a == p * q + r && a * b == p * t && r * x + p * y == 1
    ensures b == p * ((t - q * b) * x + b * y) + 0
  {
    var u := t - q * b;
    assert r * b == p * u by {
      calc {
        r * b;
        (a - p * q) * b;
        a * b - p * q * b;
        p * t - p * (q * b);
        p * (t - q * b);
      }
    }
    calc {
      b;
      b * (r * x + p * y);
      (r * b) * x + p * (b * y);
      (p * u) * x + p * (b * y);
      p * (u * x + b * y);
    }
  }

  /** A number divisible by two different primes is divisible by their product. */
  lemma ProductOfPrimesDivides(p: nat, q: nat, x: int)
    requires IsPrime(p) && IsPrime(q) && p != q
    requires x % p == 0 && x % q == 0
    ensures x % (p * q) == 0
  {
    var s := x / p;
    assert x == p * s;
    EuclidLemma(q, p, s);
    if q > p {
      DivModUnique(p, q, 0, p);
    }
    var u := s / q;
    assert s == q * u;
    assert x == p * q * u + 0;
    ModOfMultiple(p * q, u, 0);
  }

  // ---------------------------------------------------------------------------------
  // The binomial theorem

  /** The binomial coefficient n choose k, by Pascal's rule. */
  function Binom(n: nat, k: nat): nat
  {
    if k == 0 then 1 else if n == 0 then 0 else Binom(n - 1, k - 1) + Binom(n - 1, k)
  }

  lemma {:induction false} BinomAbove(n: nat, k: nat)
    requires k > n
    ensures Binom(n, k) == 0
  {
    if n > 0 {
      BinomAbove(n - 1, k - 1);
      BinomAbove(n - 1, k);
    }
  }

  lemma {:induction false} BinomDiagonal(n: nat)
    ensures Binom(n, n) == 1
  {
    if n > 0 {
      BinomDiagonal(n - 1);
      BinomAbove(n - 1, n);
    }
  }

  /** The absorption identity k * C(n, k) == n * C(n - 1, k - 1). */
  lemma {:induction false} Absorption(n: nat, k: nat)
    requires n >= 1 && k >= 1
    ensures k * Binom(n, k) == n * Binom(n - 1, k - 1)
  {
    if n == 1 {
      if k > 1 {
        BinomAbove(0, k - 1);
        BinomAbove(0, k);
      }
    } else if k == 1 {
      Absorption(n - 1, 1);
    } else {
      Absorption(n - 1, k);
      Absorption(n - 1, k - 1);
      var a, b, c := Binom(n - 1, k - 1), Binom(n - 2, k - 2), Binom(n - 2, k - 1);
      AbsorptionStep(n, k, a, b, c, Binom(n - 1, k), Binom(n, k));
    }
  }

  /** The arithmetic of one absorption step, with the coefficients named. */
  lemma AbsorptionStep(n: int, k: int, a: int, b: int, c: int, below: int, here: int)
    requires here == a + below && a == b + c
    requires k * below == (n - 1) * c && (k - 1) * a == (n - 1) * b
    ensures k * here == n * a
  {
    calc {
      k * here;
      k * a + k * below;
      a + (k - 1) * a + (n - 1) * c;
      a + (n - 1) * b + (n - 1) * c;
      a + (n - 1) * (b + c);
      n * a;
    }
  }

  /** A prime p divides every coefficient C(p, k) with 0 < k < p. */
  lemma PrimeDividesBinom(p: nat, k: nat)
    requires IsPrime(p) && 0 < k < p
    ensures Binom(p, k) % p == 0
  {
    Absorption(p, k);
    ModOfMultiple(p, Binom(p - 1, k - 1), 0);
    EuclidLemma(p, k, Binom(p, k));
    DivModUnique(k, p, 0, k);
  }

  /** The first m terms of the expansion of (x + 1)^n: the sum of C(n, j) * x^j over
      j < m. */
  function BinomSum(x: int, n: nat, m: nat): int
  {
    if m == 0 then 0 else BinomSum(x, n, m - 1) + Binom(n, m - 1) * Pow(x, m - 1)
  }

  /** Pascal's rule lifted to the partial sums. */
  lemma {:induction false} PascalSum(x: int, n: nat, m: nat)
    ensures BinomSum(x, n + 1, m + 1) == x * BinomSum(x, n, m) + BinomSum(x, n, m + 1)
  {
    if m > 0 {
      PascalSum(x, n, m - 1);
      var s0, s1 := BinomSum(x, n, m - 1), BinomSum(x, n, m);
      var b0, b1 := Binom(n, m - 1), Binom(n, m);
      var w := Pow(x, m - 1);
      assert Pow(x, m) == x * w;
      assert Binom(n + 1, m) == b0 + b1;
      PascalStep(x, s0, s1, b0, b1, w);
    }
  }

  /** The arithmetic of one step of PascalSum, with the terms named. */
  lemma PascalStep(x: int, s0: int, s1: int, b0: int, b1: int, w: int)
    requires s1 == s0 + b0 * w
    ensures x * s0 + s1 + (b0 + b1) * (x * w) == x * s1 + (s1 + b1 * (x * w))
  {
    calc {
      x * s0 + s1 + (b0 + b1) * (x * w);
      x * (s0 + b0 * w) + (s1 + b1 * (x * w));
    }
  }

  /** The binomial theorem for (x + 1)^n. */
  lemma {:induction false} BinomialTheorem(x: int, n: nat)
    ensures Pow(x + 1, n) == BinomSum(x, n, n + 1)
  {
    if n > 0 {
      BinomialTheorem(x, n - 1);
      PascalSum(x, n - 1, n);
      BinomAbove(n - 1, n);
      var s := BinomSum(x, n - 1, n);
      assert BinomSum(x, n - 1, n + 1) == s;
      calc {
        Pow(x + 1, n);
        (x + 1) * s;
        x * s + s;
      }
    }
  }

  /** Modulo a prime p, the terms strictly between the first and the last vanish. */
  lemma {:induction false} MiddleTermsVanish(x: int, p: nat, m: nat)
    requires IsPrime(p) && 1 <= m <= p
    ensures BinomSum(x, p, m) % p == 1
  {
    if m == 1 {
      assert BinomSum(x, p, 1) == 1;
    } else {
      MiddleTermsVanish(x, p, m - 1);
      assert Binom(p, m - 1) * Pow(x, m - 1) % p == 0 by {
        PrimeDividesBinom(p, m - 1);
        MultipleMod(Binom(p, m - 1), Pow(x, m - 1), p);
      }
      ModDiff(BinomSum(x, p, m), BinomSum(x, p, m - 1), p);
    }
  }

  /** (x + 1)^p == x^p + 1 modulo a prime p. */
  lemma FreshmansDream(x: int, p: nat)
    requires IsPrime(p)
    ensures Pow(x + 1, p) % p == (Pow(x, p) + 1) % p
  {
    BinomialTheorem(x, p);
    BinomDiagonal(p);
    MiddleTermsVanish(x, p, p);
    var s := BinomSum(x, p, p);
    assert Pow(x + 1, p) == s + Pow(x, p);
    DivModUnique(1, p, 0, 1);
    ModAdd(s, 1, Pow(x, p), p);
  }

  /** Fermat's little theorem: a^p == a modulo a prime p. */
  lemma {:induction false} FermatLittle(a: nat, p: nat)
    requires IsPrime(p)
    ensures Pow(a, p) % p == a % p
  {
    if a == 0 {
      assert Pow(0, p) == 0 * Pow(0, p - 1);
    } else {
      FermatLittle(a - 1, p);
      FreshmansDream(a - 1, p);
      ModAdd(Pow(a - 1, p), a - 1, 1, p);
    }
  }

  /** Fermat's little theorem for a unit: a^(p - 1) == 1 modulo p when p does not
      divide a. */
  lemma FermatUnit(a: nat, p: nat)
    requires IsPrime(p) && a % p != 0
    ensures Pow(a, p - 1) % p == 1
  {
    FermatLittle(a, p);
    var w := Pow(a, p - 1);
    assert Pow(a, p) == a * w;
    ModDiff(a * w, a, p);
    assert a * w - a == a * (w - 1);
    EuclidLemma(p, a, w - 1);
    ModDiff(w, 1, p);
    DivModUnique(1, p, 0, 1);
  }

  /** The only square roots of 1 modulo a prime are 1 and -1. */
  lemma SquareRootOfOne(x: int, p: nat)
    requires IsPrime(p) && (x * x) % p == 1
    ensures x % p == 1 || x % p == p - 1
  {
    DivModUnique(1, p, 0, 1);
    ModDiff(x * x, 1, p);
    assert x * x - 1 == (x - 1) * (x + 1);
    EuclidLemma(p, x - 1, x + 1);
    ModDiff(x, 1, p);
    ModDiff(x, -1, p);
    DivModUnique(-1, p, -1, p - 1);
  }

  /** Raising congruent numbers to the same power keeps them congruent. */
  lemma {:induction false} PowModBase(x: int, e: nat, m: nat)
    requires m > 0
    ensures Pow(x % m, e) % m == Pow(x, e) % m
  {
    if e > 0 {
      PowModBase(x, e - 1, m);
      DivModUnique(x % m, m, 0, x % m);
      MulMod(x % m, Pow(x % m, e - 1), m);
      MulMod(x, Pow(x, e - 1), m);
    }
  }

  lemma {:induction false} PowOne(e: nat)
    ensures Pow(1, e) == 1
  {
    if e > 0 {
      PowOne(e - 1);
    }
  }

  /** (m^(p - 1))^k == 1 modulo a prime p that does not divide m. */
  lemma FermatUnitPower(m: nat, k: nat, p: nat)
    requires IsPrime(p) && m % p != 0
    ensures Pow(m, (p - 1) * k) % p == 1
  {
    FermatUnit(m, p);
    PowMul(m, p - 1, k);
    PowModBase(Pow(m, p - 1), k, p);
    PowOne(k);
    DivModUnique(1, p, 0, 1);
  }

  /** m^(1 + k(p - 1)) == m modulo a prime p, for every m: the step from Fermat's little
      theorem to RSA. */
  lemma FermatPower(m: nat, k: nat, p: nat)
    requires IsPrime(p)
    ensures Pow(m, 1 + (p - 1) * k) % p == m % p
  {
    var e := (p - 1) * k;
    var w := Pow(m, e);
    PowAdd(m, 1, e);
    assert Pow(m, 1) == m;
    if m % p == 0 {
      assert m * w == p * (m / p * w) + 0;
      ModOfMultiple(p, m / p * w, 0);
    } else {
      FermatUnitPower(m, k, p);
      MulMod(m, w, p);
      DivModUnique(m % p, p, 0, m % p);
    }
  }
}
