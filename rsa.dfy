/** The number-theoretic half of RSA.py: the Miller–Rabin test, the choice of the
    exponents inside RSAKeys and the textbook cipher. The minimal big-endian encoding
    `to_bytes` is Bytes.ToBytes. */
module Rsa {
  import opened NumberTheory
  import opened Bytes
  import opened Primes

  /** A key as RSAKeys returns it: (e, n) is public, (d, n) private. */
  datatype Key = Key(exponent: nat, modulus: nat)

  /** m == 2^r * d with d odd: the split of n - 1 that Miller–Rabin starts from. */
  function Decompose(m: nat): (rd: (nat, nat))
    requires m > 0
    ensures rd.1 % 2 == 1 && Pow2(rd.0) * rd.1 == m
  {
    if m % 2 == 1 then (0, m)
    else
      var (r, d) := Decompose(m / 2);
      assert Pow2(r + 1) * d == 2 * (Pow2(r) * d);
      (r + 1, d)
  }

  /** The split is unique: any r, d with d odd and 2^r * d == m are Decompose(m). */
  lemma {:induction false} DecomposeUnique(m: nat, r: nat, d: nat)
    requires m > 0 && d % 2 == 1 && Pow2(r) * d == m
    ensures Decompose(m) == (r, d)
  {
    if r > 0 {
      assert m == 2 * (Pow2(r - 1) * d);
      DecomposeUnique(m / 2, r - 1, d);
    } else {
      assert m == d;
    }
  }

  /** If no power of two between 2^(r+1) and 2^(k-1) divides n1, and 2^k exceeds it,
      then n1 / 2^r is odd. */
  lemma OddCofactor(n1: nat, r: nat, k: nat, d: nat)
    requires n1 > 0 && r < k && n1 < Pow2(k) && Pow2(r) * d == n1
    requires forall j | r < j < k :: n1 % Pow2(j) != 0
    ensures d % 2 == 1
  {
    if d % 2 == 0 {
      var h := d / 2;
      var p := Pow2(r + 1);
      calc {
        n1;
        Pow2(r) * d;
        { assert d == 2 * h; }
        Pow2(r) * (2 * h);
        { Regroup(Pow2(r), h); }
        2 * Pow2(r) * h;
        p * h;
      }
      if r + 1 < k {
        ModOfMultiple(p, h, 0);
      } else {
        MulMonotone(p, h);
      }
    }
  }

  lemma ExactQuotient(x: int, m: int)
    requires m > 0 && x % m == 0
    ensures m * (x / m) == x
  {
  }

  lemma Regroup(a: int, h: int)
    ensures a * (2 * h) == 2 * a * h
  {
  }

  lemma MulMonotone(a: int, b: int)
    requires a >= 0 && b >= 1
    ensures a * b >= a
  {
  }

  /** The doubling loop of MillerRabin: the largest power of two 2^r dividing n1, and
      d == n1 / 2^r. The exponent r is tracked alongside 2^r, where the source recovers it
      with a floating-point logarithm. */
  method FactorTwos(n1: nat) returns (r: nat, d: nat)
    requires n1 > 0 && n1 % 2 == 0
    ensures r >= 1 && (r, d) == Decompose(n1)
  {
    var i, k := 2, 1;
    var pow2r := -1;
    r := 0;
    while i <= n1
      invariant k >= 1 && i == Pow2(k)
      invariant pow2r == -1 ==> k == 1
      invariant pow2r != -1 ==> 1 <= r < k && pow2r == Pow2(r) && n1 % pow2r == 0
      invariant pow2r != -1 ==> forall j | r < j < k :: n1 % Pow2(j) != 0
      decreases n1 - i
    {
      if n1 % i == 0 {
        pow2r, r := i, k;
      }
      i, k := i * 2, k + 1;
    }
    d := n1 / pow2r;
    ExactQuotient(n1, pow2r);
    OddCofactor(n1, r, k, d);
    DecomposeUnique(n1, r, d);
  }

  /** a lets n pass one round of the test: with n - 1 == 2^r * d and d odd, either
      a^d == 1 (mod n) or a^(d * 2^j) == -1 (mod n) for some j < r. */
  predicate StrongLiar(n: nat, a: nat)
    requires n >= 3 && n % 2 == 1
  {
    var (r, d) := Decompose(n - 1);
    Pow(a, d) % n == 1 || exists j | 0 <= j < r :: Pow(Pow(a, d), Pow2(j)) % n == n - 1
  }

  /** Squaring modulo n moves one step along a^d, a^(2d), a^(4d), ... */
  lemma SquareStep(b: int, t: nat, n: nat)
    requires n > 0
    ensures ModPow(Pow(b, Pow2(t)) % n, 2, n) == Pow(b, Pow2(t + 1)) % n
  {
    var e := Pow2(t);
    var p := Pow(b, e);
    ModPowIsPow(p % n, 2, n);
    PowSquare(p % n);
    MulMod(p, p, n);
    PowAdd(b, e, e);
  }

  /** MillerRabin(n) with the bases it draws from [2, n - 1) given as `witnesses`, one per
      round. None stands for the ValueError the source raises on n == 1, where no power of
      two divides n - 1 == 0 and the logarithm of -1 is taken. */
  method MillerRabin(n: nat, witnesses: seq<nat>) returns (verdict: Option<bool>)
    requires n % 2 == 1 && n >= 3 ==> forall a | a in witnesses :: 2 <= a < n - 1
    ensures n % 2 == 0 ==> verdict == Some(false)
    ensures n == 1 ==> verdict == None
    ensures n % 2 == 1 && n >= 3 ==>
              verdict == Some(forall a | a in witnesses :: StrongLiar(n, a))
  {
    if n % 2 == 0 {
      return Some(false);
    }
    var n1 := n - 1;
    if n1 == 0 {
      return None;
    }
    var r, d := FactorTwos(n1);
    for w := 0 to |witnesses|
      invariant forall v | 0 <= v < w :: StrongLiar(n, witnesses[v])
    {
      var a := witnesses[w];
      var x := ModPow(a, d, n);
      ModPowIsPow(a, d, n);
      if x == 1 || x == n1 {
        assert Pow(Pow(a, d), Pow2(0)) % n == x;
        continue;
      }
      var flag := false;
      for t := 1 to r
        invariant x == Pow(Pow(a, d), Pow2(t - 1)) % n
        invariant forall j | 0 <= j < t :: Pow(Pow(a, d), Pow2(j)) % n != n1
      {
        SquareStep(Pow(a, d), t - 1, n);
        x := ModPow(x, 2, n);
        if x == n1 {
          flag := true;
          break;
        }
      }
      if flag {
        continue;
      }
      assert !StrongLiar(n, a);
      return Some(false);
    }
    return Some(true);
  }

  /** Tracing the squarings back from b^(2^j) == 1 modulo a prime n: the first of b, b^2,
      b^4, ... that is 1 is either b itself or comes right after n - 1, since 1 has no
      other square roots modulo a prime. */
  lemma {:induction false} SquareChain(n: nat, b: int, j: nat, r: nat)
    requires IsPrime(n) && j <= r && Pow(b, Pow2(j)) % n == 1
    ensures b % n == 1 || exists i | 0 <= i < r :: Pow(b, Pow2(i)) % n == n - 1
  {
    if j == 0 {
      assert Pow(b, 1) == b;
    } else {
      var y := Pow(b, Pow2(j - 1));
      PowMul(b, Pow2(j - 1), 2);
      PowSquare(y);
      assert Pow2(j) == Pow2(j - 1) * 2;
      SquareRootOfOne(y, n);
      if y % n == 1 {
        SquareChain(n, b, j - 1, r);
      } else {
        assert Pow(b, Pow2(j - 1)) % n == n - 1;
      }
    }
  }

  /** For a prime n every a in [1, n) is a strong liar: a^(n - 1) == 1 modulo n by
      Fermat's little theorem, and SquareChain walks back to a^d. */
  lemma PrimeHasNoWitness(n: nat, a: nat)
    requires IsPrime(n) && n >= 3 && 1 <= a < n
    ensures n % 2 == 1 && StrongLiar(n, a)
  {
    assert n % 2 != 0;
    var (r, d) := Decompose(n - 1);
    PowMul(a, d, Pow2(r));
    assert d * Pow2(r) == n - 1;
    DivModUnique(a, n, 0, a);
    FermatUnit(a, n);
    SquareChain(n, Pow(a, d), r, r);
  }

  /** MillerRabin never rejects a prime: for a prime n >= 3 every witness in [2, n - 1)
      is a strong liar, so the verdict is Some(true) whatever witnesses are drawn. */
  lemma PrimePassesMillerRabin(n: nat, witnesses: seq<nat>)
    requires IsPrime(n) && n >= 3
    requires forall a | a in witnesses :: 2 <= a < n - 1
    ensures n % 2 == 1 && forall a | a in witnesses :: StrongLiar(n, a)
  {
    PrimeHasNoWitness(n, 1);
    forall a | a in witnesses
      ensures StrongLiar(n, a)
    {
      PrimeHasNoWitness(n, a);
    }
  }

  /** e as RSAKeys chooses it for phi: the least odd number from 3 on that is coprime
      to phi. */
  predicate IsLeastOddCoprime(e: nat, phi: nat)
  {
    e >= 3 && e % 2 == 1 && Gcd(e, phi) == 1 &&
    forall c: nat | 3 <= c < e && c % 2 == 1 :: Gcd(c, phi) != 1
  }

  /** An odd number from 3 on that is coprime to phi, so that the search for e stops. */
  function OddCoprimeBound(phi: nat): nat
  {
    if phi % 2 == 0 then phi + 1 else 2 * phi + 1
  }

  lemma OddCoprimeBoundCoprime(phi: nat)
    requires phi >= 1
    ensures OddCoprimeBound(phi) >= 3 && OddCoprimeBound(phi) % 2 == 1
    ensures Gcd(OddCoprimeBound(phi), phi) == 1
  {
    var b := OddCoprimeBound(phi);
    if phi > 1 {
      DivModUnique(b, phi, if phi % 2 == 0 then 1 else 2, 1);
      assert Gcd(b, phi) == Gcd(phi, 1) == Gcd(1, 0);
    } else {
      assert Gcd(3, 1) == Gcd(1, 0);
    }
  }

  /** The search loop of RSAKeys: e runs over 3, 5, 7, ... until gcd(e, phi) == 1. */
  method LeastOddCoprime(phi: nat) returns (e: nat)
    requires phi >= 1
    ensures IsLeastOddCoprime(e, phi)
  {
    var bound := OddCoprimeBound(phi);
    OddCoprimeBoundCoprime(phi);
    e := 3;
    while Gcd(e, phi) > 1
      invariant 3 <= e <= bound && e % 2 == 1
      invariant forall c: nat | 3 <= c < e && c % 2 == 1 :: Gcd(c, phi) != 1
      decreases bound - e
    {
      SearchStep(phi, e, bound);
      e := e + 2;
    }
    GcdDivides(e, phi);
  }

  /** An odd e below the coprime bound that shares a factor with phi is passed over. */
  lemma SearchStep(phi: nat, e: nat, bound: nat)
    requires 3 <= e <= bound && e % 2 == 1 && bound % 2 == 1
    requires Gcd(e, phi) != 1 && Gcd(bound, phi) == 1
    requires forall c: nat | 3 <= c < e && c % 2 == 1 :: Gcd(c, phi) != 1
    ensures e + 2 <= bound
    ensures forall c: nat | 3 <= c < e + 2 && c % 2 == 1 :: Gcd(c, phi) != 1
  {
  }

  /** The exponent selection of RSAKeys for given primes p and q: e is the least odd
      number from 3 on coprime to phi = (p - 1)(q - 1) and d = pow(e, -1, phi). */
  method RsaKeys(p: nat, q: nat) returns (pk: Key, sk: Key)
    requires p >= 2 && q >= 2
    ensures pk.modulus == p * q && sk.modulus == p * q
    ensures IsLeastOddCoprime(pk.exponent, (p - 1) * (q - 1))
    ensures sk.exponent < (p - 1) * (q - 1)
    ensures sk.exponent * pk.exponent % ((p - 1) * (q - 1)) == 1 % ((p - 1) * (q - 1))
  {
    var n, phin := p * q, (p - 1) * (q - 1);
    assert phin >= 1 by {
      MulMonotone(p - 1, q - 1);
    }
    var e := LeastOddCoprime(phin);
    var d := ModInverse(e, phin);
    ModInverseInverts(e, phin);
    pk, sk := Key(e, n), Key(d, n);
  }

  /** RSACypher: message^e mod n. */
  function RsaCypher(message: nat, pk: Key): (c: nat)
    requires pk.modulus > 0
    ensures c < pk.modulus && c == Pow(message, pk.exponent) % pk.modulus
  {
    ModPowIsPow(message, pk.exponent, pk.modulus);
    ModPow(message, pk.exponent, pk.modulus)
  }

  /** RSADecypher: the same operation under the private key, cypher^d mod n. */
  function RsaDecypher(cypher: nat, sk: Key): (m: nat)
    requires sk.modulus > 0
    ensures m < sk.modulus && m == Pow(cypher, sk.exponent) % sk.modulus
  {
    RsaCypher(cypher, sk)
  }

  /** Textbook RSA decrypts what it encrypts: for distinct primes p and q, exponents with
      d * e == 1 modulo (p - 1)(q - 1) as RsaKeys chooses them, and every message below
      n == p * q, RSADecypher(RSACypher(m, pk), sk) == m. */
  lemma RsaCorrect(p: nat, q: nat, pk: Key, sk: Key, m: nat)
    requires IsPrime(p) && IsPrime(q) && p != q
    requires pk.modulus == p * q && sk.modulus == p * q
    requires sk.exponent * pk.exponent % ((p - 1) * (q - 1)) == 1 % ((p - 1) * (q - 1))
    requires m < p * q
    ensures pk.modulus > 0 && RsaDecypher(RsaCypher(m, pk), sk) == m
  {
    var n, phi := p * q, (p - 1) * (q - 1);
    var e, d := pk.exponent, sk.exponent;
    assert phi >= 2 by {
      if p >= 3 {
        MulMonotone(p - 1, q - 1);
      } else {
        assert phi == q - 1;
      }
    }
    var t := (d * e) / phi;
    DivModUnique(1, phi, 0, 1);
    assert e * d == 1 + phi * t;
    PowModBase(Pow(m, e), d, n);
    PowMul(m, e, d);
    RsaExponent(p, q, m, t);
  }

  /** m^(1 + k(p - 1)(q - 1)) == m modulo p * q for distinct primes p and q and every
      m below p * q: Fermat's little theorem modulo each prime, then the two combined. */
  lemma RsaExponent(p: nat, q: nat, m: nat, k: nat)
    requires IsPrime(p) && IsPrime(q) && p != q && m < p * q
    ensures Pow(m, 1 + (p - 1) * (q - 1) * k) % (p * q) == m
  {
    var kp: nat, kq: nat := (q - 1) * k, (p - 1) * k;
    var x := Pow(m, 1 + (p - 1) * (q - 1) * k);
    assert (p - 1) * (q - 1) * k == (p - 1) * kp == (q - 1) * kq by {
      Regroup3(p - 1, q - 1, k);
    }
    FermatPower(m, kp, p);
    FermatPower(m, kq, q);
    CrtCombine(p, q, x, m);
  }

  /** A number congruent to m modulo two distinct primes is congruent to it modulo their
      product; for m below the product that pins down its remainder. */
  lemma CrtCombine(p: nat, q: nat, x: int, m: nat)
    requires IsPrime(p) && IsPrime(q) && p != q && m < p * q
    requires x % p == m % p && x % q == m % q
    ensures x % (p * q) == m
  {
    var n := p * q;
    ModDiff(x, m, p);
    ModDiff(x, m, q);
    ProductOfPrimesDivides(p, q, x - m);
    ModDiff(x, m, n);
    DivModUnique(m, n, 0, m);
  }

  lemma Regroup3(a: int, b: int, t: int)
    ensures a * b * t == a * (b * t) == b * (a * t)
  {
  }
}
