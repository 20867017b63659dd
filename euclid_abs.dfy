/**
 * The older integer-only extended Euclidean algorithm of
 * coding/util/euclides.py. It works on the absolute values of its operands,
 * returns `(d, t, s)` with `t` belonging to the larger and `s` to the smaller
 * absolute value, and does not normalise the sign of the result.
 */
module EuclidAbs {
  import opened NumberTheory

  function Max(x: int, y: int): int { if y > x then y else x }

  function Min(x: int, y: int): int { if y < x then y else x }

  method Euclides(a: int, b: int) returns (d: int, t: int, s: int)
    ensures d == t * Max(Abs(a), Abs(b)) + s * Min(Abs(a), Abs(b))
    ensures d == Gcd(Abs(a), Abs(b))
    ensures b == 0 ==> (d, t, s) == (Abs(a), 1, 0)
  {
    var r := [Max(Abs(a), Abs(b)), Min(Abs(a), Abs(b))];
    var ts := [1, 0];
    var ss := [0, 1];
    var i := 1;
    while r[i] != 0
      invariant 1 <= i && |r| == |ts| == |ss| == i + 1
      invariant r[0] == Max(Abs(a), Abs(b)) && r[1] == Min(Abs(a), Abs(b))
      invariant ts[0] == 1 && ss[0] == 0
      invariant forall k :: 0 <= k <= i ==> r[k] >= 0
      invariant forall k :: 0 <= k <= i ==> Combination(r[k], ts[k], ss[k], r[0], r[1])
      invariant Gcd(r[i - 1], r[i]) == Gcd(r[0], r[1])
      invariant forall k :: 2 <= k <= i ==> r[k] < r[k - 1]
      invariant r[1] == 0 ==> i == 1
      decreases r[i]
    {
      var quotient := r[i - 1] / r[i];
      var rem := r[i - 1] % r[i];
      RemainderStep(r[i - 1], r[i]);
      CombinationStep(r[i - 1], ts[i - 1], ss[i - 1], r[i], ts[i], ss[i], quotient, r[0], r[1]);
      r := r + [rem];
      ts := ts + [-quotient * ts[i] + ts[i - 1]];
      ss := ss + [-quotient * ss[i] + ss[i - 1]];
      i := i + 1;
    }
    assert Combination(r[i - 1], ts[i - 1], ss[i - 1], r[0], r[1]);
    GcdSymmetric(Abs(a), Abs(b));
    d, t, s := r[i - 1], ts[i - 1], ss[i - 1];
  }

  /** One division step: the remainder is smaller than the divisor, is the
      dividend minus a multiple of it, and leaves the gcd unchanged. */
  lemma RemainderStep(x: nat, y: nat)
    requires y > 0
    ensures 0 <= x % y < y && x % y == x - (x / y) * y
    ensures Gcd(x, y) == Gcd(y, x % y)
  {
  }

  /** The docstring's `d == t*a + s*b` puts the coefficients on `a` and `b`,
      but the code gives `t` to the larger and `s` to the smaller absolute
      value. For `0 <= a < b` the two readings agree only when `t == s`. */
  lemma DocstringNeedsEqualCoefficients(a: nat, b: nat, d: int, t: int, s: int)
    requires a < b
    requires d == t * Max(Abs(a), Abs(b)) + s * Min(Abs(a), Abs(b))
    ensures d == t * a + s * b ==> t == s
  {
    if d == t * a + s * b {
      assert (t - s) * (b - a) == t * b + s * a - (t * a + s * b) == 0;
      if t != s {
        MulNonZero(t - s, b - a);
      }
    }
  }

  /** `euclides(3, 5)` returns `(1, -1, 2)`: no coefficients the code can
      return for these operands satisfy the docstring's `t*3 + s*5 == 1`. */
  lemma DocstringFailsAt3And5(t: int, s: int)
    requires 1 == t * Max(Abs(3), Abs(5)) + s * Min(Abs(3), Abs(5))
    ensures t * 3 + s * 5 != 1
  {
    DocstringNeedsEqualCoefficients(3, 5, 1, t, s);
  }
}
