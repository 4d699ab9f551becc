/** Integer arithmetic that the Python code takes from its runtime: `x ** e`,
    three-argument `pow`, `math.gcd` and the modular inverse `pow(e, -1, m)`. */
module NumberTheory {

  /** b raised to the e-th power. */
  function Pow(b: int, e: nat): int
  {
    if e == 0 then 1 else b * Pow(b, e - 1)
  }

  /** 2^j, kept apart from Pow so that it is known to be a positive natural. */
  function Pow2(j: nat): (p: nat)
    ensures p >= 1
  {
    if j == 0 then 1 else 2 * Pow2(j - 1)
  }

  lemma {:induction false} PowPositive(b: int, e: nat)
    requires b > 0
    ensures Pow(b, e) > 0
  {
    if e > 0 {
      PowPositive(b, e - 1);
    }
  }

  lemma PowSquare(b: int)
    ensures Pow(b, 2) == b * b
  {
    assert Pow(b, 1) == b;
  }

  lemma {:induction false} PowAdd(b: int, m: nat, n: nat)
    ensures Pow(b, m + n) == Pow(b, m) * Pow(b, n)
  {
    if n > 0 {
      PowAdd(b, m, n - 1);
      calc {
        Pow(b, m + n);
        b * Pow(b, m + n - 1);
        b * (Pow(b, m) * Pow(b, n - 1));
        Pow(b, m) * (b * Pow(b, n - 1));
      }
    }
  }

  lemma {:induction false} PowMul(b: int, m: nat, n: nat)
    ensures Pow(Pow(b, m), n) == Pow(b, m * n)
  {
    if n > 0 {
      PowMul(b, m, n - 1);
      PowAdd(b, m, m * (n - 1));
      assert m * n == m + m * (n - 1);
    }
  }

  lemma {:induction false} PowMonotone(b: int, m: nat, n: nat)
    requires b > 1 && m < n
    ensures Pow(b, m) < Pow(b, n)
  {
    PowPositive(b, n - 1);
    if m < n - 1 {
      PowMonotone(b, m, n - 1);
    }
  }

  /** Division with remainder is unique: whatever q and r satisfy x == m * q + r with
      0 <= r < m are x / m and x % m. */
  lemma DivModUnique(x: int, m: int, q: int, r: int)
    requires m > 0 && 0 <= r < m && x == m * q + r
    ensures x / m == q && x % m == r
  {
    var t := q - x / m;
    assert m * t == x % m - r;
  }

  lemma ModOfMultiple(m: int, k: int, x: int)
    requires m > 0
    ensures (m * k + x) % m == x % m
  {
    DivModUnique(m * k + x, m, k + x / m, x % m);
  }

  lemma MulMod(a: int, b: int, m: int)
    requires m > 0
    ensures (a % m) * (b % m) % m == a * b % m
  {
    var qa, ra, qb, rb := a / m, a % m, b / m, b % m;
    assert a * b == m * (qa * b + ra * qb) + ra * rb by {
      assert a == m * qa + ra && b == m * qb + rb;
      calc {
        a * b;
        (m * qa + ra) * b;
        m * qa * b + ra * (m * qb + rb);
        m * (qa * b + ra * qb) + ra * rb;
      }
    }
    ModOfMultiple(m, qa * b + ra * qb, ra * rb);
  }

  /** Python's three-argument pow(b, e, m), computed by square-and-multiply. */
  function ModPow(b: nat, e: nat, m: nat): (r: nat)
    requires m > 0
    ensures r < m
  {
    if e == 0 then 1 % m
    else if e % 2 == 0 then
      var h := ModPow(b, e / 2, m);
      h * h % m
    else
      b % m * ModPow(b, e - 1, m) % m
  }

  /** Square-and-multiply computes b^e mod m. */
  lemma {:induction false} ModPowIsPow(b: nat, e: nat, m: nat)
    requires m > 0
    ensures ModPow(b, e, m) == Pow(b, e) % m
  {
    if e == 0 {
    } else if e % 2 == 0 {
      ModPowIsPow(b, e / 2, m);
      var p := Pow(b, e / 2);
      PowAdd(b, e / 2, e / 2);
      MulMod(p, p, m);
    } else {
      ModPowIsPow(b, e - 1, m);
      MulMod(b, Pow(b, e - 1), m);
    }
  }

  /** d is a positive divisor of n. */
  predicate Divides(d: nat, n: int)
  {
    d > 0 && n % d == 0
  }

  /** math.gcd on non-negative arguments, by Euclid's algorithm. */
  function Gcd(a: nat, b: nat): nat
    decreases b
  {
    if b == 0 then a else Gcd(b, a % b)
  }

  lemma DividesCombination(c: nat, x: int, y: int, k: int)
    requires Divides(c, x) && Divides(c, y)
    ensures Divides(c, x * k + y)
  {
    var qx, qy := x / c, y / c;
    assert x * k + y == c * (qx * k + qy) + 0 by {
      assert x == c * qx && y == c * qy;
    }
    ModOfMultiple(c, qx * k + qy, 0);
  }

  /** The gcd divides both arguments, and is positive unless both are zero. */
  lemma {:induction false} GcdDivides(a: nat, b: nat)
    requires a > 0 || b > 0
    ensures Gcd(a, b) > 0 && Divides(Gcd(a, b), a) && Divides(Gcd(a, b), b)
    decreases b
  {
    if b > 0 {
      GcdDivides(b, a % b);
      var g := Gcd(a, b);
      DividesCombination(g, b, a % b, a / b);
      assert a == b * (a / b) + a % b;
    }
  }

  /** Every common divisor of a and b divides their gcd. */
  lemma {:induction false} GcdGreatest(a: nat, b: nat, c: nat)
    requires Divides(c, a) && Divides(c, b)
    ensures Divides(c, Gcd(a, b))
    decreases b
  {
    if b > 0 {
      DividesCombination(c, b, a, -(a / b));
      assert a % b == b * -(a / b) + a;
      GcdGreatest(b, a % b, c);
    }
  }

  /** a and b are coprime exactly when 1 is their only common positive divisor. */
  lemma CoprimeIffNoCommonDivisor(a: nat, b: nat)
    ensures Gcd(a, b) == 1 <==> forall c: nat :: Divides(c, a) && Divides(c, b) ==> c == 1
  {
    if Gcd(a, b) == 1 {
      forall c: nat | Divides(c, a) && Divides(c, b)
        ensures c == 1
      {
        GcdGreatest(a, b, c);
      }
    } else {
      if a > 0 || b > 0 {
        GcdDivides(a, b);
      } else {
        assert Divides(2, a) && Divides(2, b);
      }
    }
  }

  /** Coefficients x, y with a * x + b * y == Gcd(a, b) (extended Euclid). */
  function Bezout(a: nat, b: nat): (int, int)
    decreases b
  {
    if b == 0 then (1, 0)
    else
      var (x, y) := Bezout(b, a % b);
      (y, x - a / b * y)
  }

  lemma {:induction false} BezoutIdentity(a: nat, b: nat)
    ensures a * Bezout(a, b).0 + b * Bezout(a, b).1 == Gcd(a, b)
    decreases b
  {
    if b > 0 {
      BezoutIdentity(b, a % b);
      var (x, y) := Bezout(b, a % b);
      BezoutStep(a, b, a / b, a % b, x, y);
    }
  }

  /** One step of the extended Euclidean algorithm keeps the linear combination. */
  lemma BezoutStep(a: int, b: int, q: int, r: int, x: int, y: int)
    requires a == b * q + r
    ensures a * y + b * (x - q * y) == b * x + r * y
  {
    calc {
      a * y + b * (x - q * y);
      (b * q + r) * y + b * x - b * (q * y);
      b * x + r * y;
    }
  }

  /** pow(e, -1, m): the inverse of e modulo m, for e coprime to m. */
  function ModInverse(e: nat, m: nat): (d: nat)
    requires m > 0 && Gcd(e, m) == 1
    ensures d < m
  {
    Bezout(e, m).0 % m
  }

  /** The inverse really is one: d * e is congruent to 1 modulo m. */
  lemma ModInverseInverts(e: nat, m: nat)
    requires m > 0 && Gcd(e, m) == 1
    ensures ModInverse(e, m) * e % m == 1 % m
  {
    var x, y := Bezout(e, m).0, Bezout(e, m).1;
    var d := x % m;
    assert e * x + m * y == 1 by {
      BezoutIdentity(e, m);
    }
    assert x * e == m * -y + 1;
    assert x * e % m == 1 % m by {
      ModOfMultiple(m, -y, 1);
    }
    assert d % m == d by {
      DivModUnique(d, m, 0, d);
    }
    assert d * e % m == x * e % m by {
      MulMod(d, e, m);
      MulMod(x, e, m);
    }
  }
}
