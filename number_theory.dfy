/**
 * Divisibility, greatest common divisors, primality and powers: the
 * mathematical vocabulary in which the toolkit's algorithms are specified.
 */
module NumberTheory {
  import opened Integers

  function Abs(x: int): nat { if x < 0 then -x else x }

  ghost predicate Divides(d: int, x: int) { exists k :: d * k == x }

  /** `d` is a greatest common divisor of `x` and `y`, up to sign: it divides
      both, and every common divisor divides it. */
  ghost predicate IsGcd(d: int, x: int, y: int)
  {
    && Divides(d, x) && Divides(d, y)
    && forall c :: Divides(c, x) && Divides(c, y) ==> Divides(c, d)
  }

  /** The greatest common divisor of two naturals, by Euclid's recursion. */
  function Gcd(a: nat, b: nat): nat
    decreases b
  {
    if b == 0 then a else Gcd(b, a % b)
  }

  predicate IsPrime(p: int)
  {
    p >= 2 && forall d :: 2 <= d < p ==> p % d != 0
  }

  function Pow(b: int, e: nat): int
    decreases e
  {
    if e == 0 then 1 else b * Pow(b, e - 1)
  }

  lemma DividesRefl(d: int)
    ensures Divides(d, d) && Divides(d, 0)
  {
    assert d * 1 == d;
    assert d * 0 == 0;
  }

  lemma DividesLinear(d: int, x: int, y: int, a: int)
    requires Divides(d, x) && Divides(d, y)
    ensures Divides(d, a * x + y)
  {
    var k1 :| d * k1 == x;
    var k2 :| d * k2 == y;
    assert d * (a * k1 + k2) == a * x + y;
  }

  /** A divisor of `x` also divides `y` when `y` differs from `x` by a multiple of it. */
  lemma DividesShift(d: int, x: int, y: int, a: int)
    requires Divides(d, x) && Divides(d, y)
    ensures Divides(d, x - a * y)
  {
    DividesLinear(d, y, x, -a);
  }

  /** With a positive divisor, divisibility is the vanishing of the remainder. */
  lemma DividesMod(d: int, x: int)
    requires d > 0
    ensures Divides(d, x) <==> x % d == 0
  {
    if Divides(d, x) {
      var k :| d * k == x;
      assert x == k * d + 0;
      DivModUnique(x, d, k, 0);
      ModPositive(x, d);
    }
    if x % d == 0 {
      assert d * (x / d) == x;
    }
  }

  lemma DivisorAtMost(d: int, x: int)
    requires d > 0 && x > 0 && Divides(d, x)
    ensures d <= x
  {
    var k :| d * k == x;
    if k >= 1 {
      MulAtLeast(k, d);
    }
  }

  /** Euclid's recursion computes a greatest common divisor. */
  lemma {:induction false} GcdIsGcd(a: nat, b: nat)
    ensures IsGcd(Gcd(a, b), a, b)
    decreases b
  {
    if b == 0 {
      DividesRefl(a);
    } else {
      var g := Gcd(a, b);
      GcdIsGcd(b, a % b);
      assert a == (a / b) * b + a % b;
      DividesLinear(g, b, a % b, a / b);
      forall c | Divides(c, a) && Divides(c, b)
        ensures Divides(c, g)
      {
        DividesShift(c, a, b, a / b);
      }
    }
  }

  lemma {:induction false} GcdPositive(a: nat, b: nat)
    requires a > 0 || b > 0
    ensures Gcd(a, b) > 0
    decreases b
  {
    if b > 0 {
      GcdPositive(b, a % b);
    }
  }

  /** A number of at least 2 is prime exactly when it shares no factor with
      any smaller positive number. */
  lemma PrimeIffCoprime(p: int)
    requires p >= 2
    ensures IsPrime(p) <==> forall a :: 1 <= a < p ==> Gcd(p, a) == 1
  {
    if IsPrime(p) {
      forall a | 1 <= a < p
        ensures Gcd(p, a) == 1
      {
        var g := Gcd(p, a);
        GcdIsGcd(p, a);
        GcdPositive(p, a);
        DivisorAtMost(g, a);
        DividesMod(g, p);
      }
    } else {
      var d :| 2 <= d < p && p % d == 0;
      assert Gcd(p, d) == Gcd(d, 0) == d;
    }
  }

  lemma {:induction false} PowAdd(b: int, m: nat, n: nat)
    ensures Pow(b, m + n) == Pow(b, m) * Pow(b, n)
    decreases m
  {
    if m > 0 {
      PowAdd(b, m - 1, n);
      assert Pow(b, m + n) == b * Pow(b, m - 1 + n);
    }
  }

  /** `r == s * x + t * y`: the Bezout relation kept at every index. */
  predicate Combination(r: int, s: int, t: int, x: int, y: int)
  {
    r == s * x + t * y
  }

  /** One Euclid step keeps the Bezout relation: the new row is the row before
      last minus `quotient` times the last row. */
  lemma CombinationStep(r0: int, s0: int, t0: int, r1: int, s1: int, t1: int, q: int, x: int, y: int)
    requires Combination(r0, s0, t0, x, y) && Combination(r1, s1, t1, x, y)
    ensures Combination(r0 - q * r1, -q * s1 + s0, -q * t1 + t0, x, y)
  {
    assert q * r1 == (q * s1) * x + (q * t1) * y;
  }

  lemma CombinationNeg(r: int, s: int, t: int, x: int, y: int)
    requires Combination(r, s, t, x, y)
    ensures Combination(-r, -s, -t, x, y)
  {
    assert -r == (-s) * x + (-t) * y;
  }

  lemma {:induction false} GcdSymmetric(a: nat, b: nat)
    ensures Gcd(a, b) == Gcd(b, a)
  {
    if a < b {
      DivModUnique(a, b, 0, a);
      ModPositive(a, b);
      assert Gcd(a, b) == Gcd(b, a % b);
    } else if b < a {
      DivModUnique(b, a, 0, b);
      ModPositive(b, a);
      assert Gcd(b, a) == Gcd(a, b % a);
    }
  }

  /** A product of two non-zero integers is non-zero. */
  lemma MulNonZero(x: int, y: int)
    requires x != 0 && y != 0
    ensures x * y != 0
  {
  }
}
