/**
 * The generic extended Euclidean algorithm of coding/util/algos.py,
 * instantiated over the integers (its default field). The remainder and
 * Bezout sequences are kept as sequences indexed by the loop counter, and the
 * coefficients belong to the larger and the smaller operand, not to `a` and `b`.
 */
module Euclid {
  import opened Integers
  import opened NumberTheory

  /** `max(a, b, key=F.key)`: the first argument wins a tie. */
  function Larger(a: int, b: int): (r: int)
    ensures r >= a && r >= b && (r == a || r == b)
  {
    if Key(b) > Key(a) then b else a
  }

  /** `min(a, b, key=F.key)`: the first argument wins a tie. */
  function Smaller(a: int, b: int): (r: int)
    ensures r <= a && r <= b && (r == a || r == b)
  {
    if Key(b) < Key(a) then b else a
  }

  /** The last non-zero remainder of the sequence x, y, x mod y, ...
      (floor remainders, which shrink in absolute value). */
  function LastRemainder(x: int, y: int): int
    decreases Abs(y)
  {
    if y == 0 then x else LastRemainder(y, Mod(x, y))
  }

  /** Over all integers the last remainder is a gcd up to sign. */
  lemma {:induction false} LastRemainderIsGcd(x: int, y: int)
    ensures IsGcd(LastRemainder(x, y), x, y)
    decreases Abs(y)
  {
    if y == 0 {
      DividesRefl(x);
    } else {
      var g := LastRemainder(x, y);
      var q := Div(x, y);
      DivModDefinition(x, y);
      LastRemainderIsGcd(y, Mod(x, y));
      DividesLinear(g, y, Mod(x, y), q);
      forall c | Divides(c, x) && Divides(c, y)
        ensures Divides(c, g)
      {
        DividesShift(c, x, y, q);
      }
    }
  }

  /** On naturals the last remainder is exactly the greatest common divisor. */
  lemma {:induction false} LastRemainderOfNaturals(x: nat, y: nat)
    ensures LastRemainder(x, y) == Gcd(x, y)
    decreases y
  {
    if y > 0 {
      ModPositive(x, y);
      LastRemainderOfNaturals(y, x % y);
    }
  }

  /** One iteration of the loop: the new row keeps the Bezout relation and the
      last remainder, and its remainder is smaller in absolute value. */
  lemma EuclidStep(r0: int, s0: int, t0: int, r1: int, s1: int, t1: int, x: int, y: int)
    requires r1 != Zero
    requires Combination(r0, s0, t0, x, y) && Combination(r1, s1, t1, x, y)
    ensures var (q, rem) := DivMod(r0, r1);
            Combination(rem, Add(Mul(Neg(q), s1), s0), Add(Mul(Neg(q), t1), t0), x, y)
            && LastRemainder(r1, rem) == LastRemainder(r0, r1)
            && Abs(rem) < Abs(r1)
  {
    var (q, rem) := DivMod(r0, r1);
    CombinationStep(r0, s0, t0, r1, s1, t1, q, x, y);
    assert rem == r0 - q * r1;
  }

  /** The loop of `euclides`: the remainder and Bezout tables are filled row
      by row until the remainder is zero, and the row before it is returned. */
  method LastRow(x: int, y: int) returns (g: int, s: int, t: int)
    ensures Combination(g, s, t, x, y)
    ensures g == LastRemainder(x, y)
    ensures y == Zero ==> (g, s, t) == (x, One, Zero)
  {
    var r := [x, y];
    var ss := [One, Zero];
    var ts := [Zero, One];
    var i := 1;
    while r[i] != Zero
      invariant 1 <= i && |r| == |ss| == |ts| == i + 1
      invariant r[0] == x && r[1] == y
      invariant ss[0] == One && ts[0] == Zero
      invariant Combination(r[i - 1], ss[i - 1], ts[i - 1], x, y)
      invariant Combination(r[i], ss[i], ts[i], x, y)
      invariant LastRemainder(r[i - 1], r[i]) == LastRemainder(x, y)
      invariant y == Zero ==> i == 1
      decreases Abs(r[i])
    {
      var (quotient, rem) := DivMod(r[i - 1], r[i]);
      var sNext := Add(Mul(Neg(quotient), ss[i]), ss[i - 1]);
      var tNext := Add(Mul(Neg(quotient), ts[i]), ts[i - 1]);
      EuclidStep(r[i - 1], ss[i - 1], ts[i - 1], r[i], ss[i], ts[i], x, y);
      r := r + [rem];
      ss := ss + [sNext];
      ts := ts + [tNext];
      i := i + 1;
    }
    g, s, t := r[i - 1], ss[i - 1], ts[i - 1];
  }

  /** `euclides(a, b)` with the default field `Integers`: returns `(d, s, t)`
      with `d == s * larger + t * smaller`, negated unless the last remainder is 1. */
  method Euclides(a: int, b: int) returns (d: int, s: int, t: int)
    ensures d == s * Larger(a, b) + t * Smaller(a, b)
    ensures var g := LastRemainder(Larger(a, b), Smaller(a, b));
            d == if g == One then g else Neg(g)
    ensures Smaller(a, b) == Zero ==>
              (d, s, t) == if Larger(a, b) == One then (One, One, Zero)
                           else (Neg(Larger(a, b)), Neg(One), Zero)
  {
    var g, s0, t0 := LastRow(Larger(a, b), Smaller(a, b));
    if g != One {
      CombinationNeg(g, s0, t0, Larger(a, b), Smaller(a, b));
      d, s, t := Neg(g), Neg(s0), Neg(t0);
    } else {
      d, s, t := g, s0, t0;
    }
  }

  /** For non-negative operands the result is the gcd when it is 1 and its
      negation otherwise (so a gcd of 2 comes back as -2). */
  lemma EuclidesOfNaturals(a: nat, b: nat)
    ensures var g := LastRemainder(Larger(a, b), Smaller(a, b));
            g == Gcd(Larger(a, b), Smaller(a, b)) && g >= 0
  {
    LastRemainderOfNaturals(Larger(a, b), Smaller(a, b));
  }

  /** The docstring's `d == s*a + t*b` puts the coefficients on `a` and `b`,
      but the code gives `s` to the larger and `t` to the smaller operand.
      For `a < b` the two readings agree only when `s == t`. */
  lemma DocstringNeedsEqualCoefficients(a: int, b: int, d: int, s: int, t: int)
    requires a < b
    requires d == s * Larger(a, b) + t * Smaller(a, b)
    ensures d == s * a + t * b ==> s == t
  {
    if d == s * a + t * b {
      assert (s - t) * (b - a) == s * b + t * a - (s * a + t * b) == 0;
      if s != t {
        MulNonZero(s - t, b - a);
      }
    }
  }

  /** `euclides(3, 5)` returns `(1, 2, -1)`: no coefficients the code can
      return for these operands satisfy the docstring's `s*3 + t*5 == 1`. */
  lemma DocstringFailsAt3And5(s: int, t: int)
    requires 1 == s * Larger(3, 5) + t * Smaller(3, 5)
    ensures s * 3 + t * 5 != 1
  {
    DocstringNeedsEqualCoefficients(3, 5, 1, s, t);
  }
}
