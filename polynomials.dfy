/**
 * Polynomials over the integers (`PolynomialField` of
 * coding/fields/polynomials.py with its default coefficient field). A
 * polynomial is its coefficient sequence, highest degree first, without
 * leading zeros, as a `Poly` normalises it; the zero polynomial is `[]`.
 * Meaning is given by evaluation at an integer point (`Eval`) and by the
 * coefficient of each power (`Coeff`).
 */
module Polynomials {
  import opened Wrappers
  import Integers
  import opened NumberTheory

  /** No leading zero: the form every `Poly` is kept in. */
  predicate IsNormal(f: seq<int>)
  {
    |f| == 0 || f[0] != 0
  }

  /** `PolynomialField.zero` and `one`. */
  const Zero: seq<int> := []
  const One: seq<int> := [Integers.One]

  /** The coefficient of `X^k`. */
  function Coeff(f: seq<int>, k: nat): int
  {
    if k < |f| then f[|f| - 1 - k] else 0
  }

  function Zeros(n: nat): (z: seq<int>)
    ensures |z| == n && forall i :: 0 <= i < n ==> z[i] == 0
  {
    seq(n, _ => 0)
  }

  function Reverse(s: seq<int>): (r: seq<int>)
    ensures |r| == |s| && forall i :: 0 <= i < |s| ==> r[i] == s[|s| - 1 - i]
  {
    if s == [] then [] else Reverse(s[1..]) + [s[0]]
  }

  /** Stripping leading zeros, as building a `Poly` from coefficients does:
      only zeros are removed, so every coefficient is kept. */
  function Norm(s: seq<int>): (r: seq<int>)
    ensures IsNormal(r) && |r| <= |s|
    ensures s == Zeros(|s| - |r|) + r
    ensures forall k: nat :: Coeff(r, k) == Coeff(s, k)
  {
    if |s| > 0 && s[0] == 0 then Norm(s[1..]) else s
  }

  /** `all_coeffs()`: the zero polynomial shows a single zero coefficient. */
  function AllCoeffs(f: seq<int>): (c: seq<int>)
    ensures |c| >= 1 && forall k: nat :: Coeff(c, k) == Coeff(f, k)
  {
    if f == [] then [0] else f
  }

  // Evaluation ........................................................

  /** A coefficient sequence lowest degree first, evaluated at `x` by Horner's rule. */
  function EvalLow(s: seq<int>, x: int): int
  {
    if s == [] then 0 else s[0] + x * EvalLow(s[1..], x)
  }

  /** The value of a polynomial (highest degree first) at `x`. */
  function Eval(f: seq<int>, x: int): int
  {
    EvalLow(Reverse(f), x)
  }

  function AddSeq(s: seq<int>, t: seq<int>): (r: seq<int>)
    requires |s| == |t|
    ensures |r| == |s| && forall i :: 0 <= i < |s| ==> r[i] == s[i] + t[i]
  {
    seq(|s|, i requires 0 <= i < |s| => s[i] + t[i])
  }

  function SubSeq(s: seq<int>, t: seq<int>): (r: seq<int>)
    requires |s| == |t|
    ensures |r| == |s| && forall i :: 0 <= i < |s| ==> r[i] == s[i] - t[i]
  {
    seq(|s|, i requires 0 <= i < |s| => s[i] - t[i])
  }

  function ScaleSeq(c: int, s: seq<int>): (r: seq<int>)
    ensures |r| == |s| && forall i :: 0 <= i < |s| ==> r[i] == c * s[i]
  {
    seq(|s|, i requires 0 <= i < |s| => c * s[i])
  }

  lemma {:induction false} EvalLowAppend(s: seq<int>, t: seq<int>, x: int)
    ensures EvalLow(s + t, x) == EvalLow(s, x) + Pow(x, |s|) * EvalLow(t, x)
    decreases |s|
  {
    if s != [] {
      var p, e, a := Pow(x, |s| - 1), EvalLow(t, x), EvalLow(s[1..], x);
      assert (s + t)[1..] == s[1..] + t;
      assert EvalLow(s[1..] + t, x) == a + p * e by {
        EvalLowAppend(s[1..], t, x);
      }
      assert EvalLow(s + t, x) == s[0] + x * (a + p * e);
      ShiftDistributes(s[0], x, a, p, e);
    } else {
      assert s + t == t;
    }
  }

  /** The ring step of `EvalLowAppend`, kept apart from the sequences. */
  lemma ShiftDistributes(c: int, x: int, a: int, p: int, e: int)
    ensures c + x * (a + p * e) == (c + x * a) + (x * p) * e
  {
  }

  lemma {:induction false} EvalLowZeros(n: nat, x: int)
    ensures EvalLow(Zeros(n), x) == 0
  {
    if n > 0 {
      assert Zeros(n)[1..] == Zeros(n - 1);
      EvalLowZeros(n - 1, x);
    }
  }

  lemma {:induction false} EvalLowAddSeq(s: seq<int>, t: seq<int>, x: int)
    requires |s| == |t|
    ensures EvalLow(AddSeq(s, t), x) == EvalLow(s, x) + EvalLow(t, x)
    decreases |s|
  {
    if s != [] {
      assert AddSeq(s, t)[1..] == AddSeq(s[1..], t[1..]);
      EvalLowAddSeq(s[1..], t[1..], x);
      assert x * (EvalLow(s[1..], x) + EvalLow(t[1..], x)) == x * EvalLow(s[1..], x) + x * EvalLow(t[1..], x);
    }
  }

  lemma {:induction false} EvalLowSubSeq(s: seq<int>, t: seq<int>, x: int)
    requires |s| == |t|
    ensures EvalLow(SubSeq(s, t), x) == EvalLow(s, x) - EvalLow(t, x)
    decreases |s|
  {
    if s != [] {
      assert SubSeq(s, t)[1..] == SubSeq(s[1..], t[1..]);
      EvalLowSubSeq(s[1..], t[1..], x);
      assert x * (EvalLow(s[1..], x) - EvalLow(t[1..], x)) == x * EvalLow(s[1..], x) - x * EvalLow(t[1..], x);
    }
  }

  lemma {:induction false} EvalLowScale(c: int, s: seq<int>, x: int)
    ensures EvalLow(ScaleSeq(c, s), x) == c * EvalLow(s, x)
    decreases |s|
  {
    if s != [] {
      assert ScaleSeq(c, s)[1..] == ScaleSeq(c, s[1..]);
      EvalLowScale(c, s[1..], x);
      assert x * (c * EvalLow(s[1..], x)) == c * (x * EvalLow(s[1..], x));
    }
  }

  lemma ReverseAppend(s: seq<int>, t: seq<int>)
    ensures Reverse(s + t) == Reverse(t) + Reverse(s)
  {
  }

  /** Leading zeros do not change the value. */
  lemma EvalLeadingZeros(n: nat, s: seq<int>, x: int)
    ensures Eval(Zeros(n) + s, x) == Eval(s, x)
  {
    ReverseAppend(Zeros(n), s);
    assert Reverse(Zeros(n)) == Zeros(n);
    EvalLowAppend(Reverse(s), Zeros(n), x);
    EvalLowZeros(n, x);
  }

  /** Appending `t` shifts `s` up by `|t|` powers of `x`. */
  lemma EvalAppend(s: seq<int>, t: seq<int>, x: int)
    ensures Eval(s + t, x) == Eval(s, x) * Pow(x, |t|) + Eval(t, x)
  {
    var rs, rt := Reverse(s), Reverse(t);
    ReverseAppend(s, t);
    EvalLowAppend(rt, rs, x);
    assert Eval(s + t, x) == EvalLow(rt + rs, x);
    assert Pow(x, |rt|) * EvalLow(rs, x) == EvalLow(rs, x) * Pow(x, |t|);
  }

  lemma EvalNorm(s: seq<int>, x: int)
    ensures Eval(Norm(s), x) == Eval(s, x)
  {
    EvalLeadingZeros(|s| - |Norm(s)|, Norm(s), x);
  }

  lemma EvalAddSeq(s: seq<int>, t: seq<int>, x: int)
    requires |s| == |t|
    ensures Eval(AddSeq(s, t), x) == Eval(s, x) + Eval(t, x)
  {
    ReverseAddSeq(s, t);
    EvalLowAddSeq(Reverse(s), Reverse(t), x);
  }

  lemma ReverseAddSeq(s: seq<int>, t: seq<int>)
    requires |s| == |t|
    ensures Reverse(AddSeq(s, t)) == AddSeq(Reverse(s), Reverse(t))
  {
  }

  lemma EvalSubSeq(s: seq<int>, t: seq<int>, x: int)
    requires |s| == |t|
    ensures Eval(SubSeq(s, t), x) == Eval(s, x) - Eval(t, x)
  {
    ReverseSubSeq(s, t);
    EvalLowSubSeq(Reverse(s), Reverse(t), x);
  }

  lemma ReverseSubSeq(s: seq<int>, t: seq<int>)
    requires |s| == |t|
    ensures Reverse(SubSeq(s, t)) == SubSeq(Reverse(s), Reverse(t))
  {
  }

  lemma EvalScale(c: int, s: seq<int>, x: int)
    ensures Eval(ScaleSeq(c, s), x) == c * Eval(s, x)
  {
    ReverseScale(c, s);
    EvalLowScale(c, Reverse(s), x);
  }

  lemma ReverseScale(c: int, s: seq<int>)
    ensures Reverse(ScaleSeq(c, s)) == ScaleSeq(c, Reverse(s))
  {
  }

  lemma EvalAllCoeffs(f: seq<int>, x: int)
    ensures Eval(AllCoeffs(f), x) == Eval(f, x)
  {
    if f == [] {
      EvalLeadingZeros(1, [], x);
    }
  }

  /** Two polynomials in normal form with the same coefficients are equal. */
  lemma CoeffsDetermine(f: seq<int>, g: seq<int>)
    requires IsNormal(f) && IsNormal(g)
    requires forall k: nat :: Coeff(f, k) == Coeff(g, k)
    ensures f == g
  {
    if |f| > 0 {
      assert Coeff(f, |f| - 1) == Coeff(g, |f| - 1);
    }
    if |g| > 0 {
      assert Coeff(f, |g| - 1) == Coeff(g, |g| - 1);
    }
    assert |f| == |g|;
    {
      forall i | 0 <= i < |f|
        ensures f[i] == g[i]
      {
        assert Coeff(f, |f| - 1 - i) == Coeff(g, |f| - 1 - i);
      }
    }
  }

  // Operations .........................................................

  /** `pad_coeff(f, g)`: both coefficient lists left-padded with zeros to the
      longer length, so that equal indices hold equal powers. */
  function PadCoeff(f: seq<int>, g: seq<int>): (r: (seq<int>, seq<int>))
    ensures |r.0| == |r.1| == if |AllCoeffs(f)| < |AllCoeffs(g)| then |AllCoeffs(g)| else |AllCoeffs(f)|
    ensures forall k: nat :: Coeff(r.0, k) == Coeff(f, k) && Coeff(r.1, k) == Coeff(g, k)
    ensures forall x :: Eval(r.0, x) == Eval(f, x) && Eval(r.1, x) == Eval(g, x)
  {
    var fc, gc := AllCoeffs(f), AllCoeffs(g);
    var n := if |fc| < |gc| then |gc| else |fc|;
    PaddingKeepsValue(n - |fc|, fc, f);
    PaddingKeepsValue(n - |gc|, gc, g);
    (Zeros(n - |fc|) + fc, Zeros(n - |gc|) + gc)
  }

  lemma PaddingKeepsValue(n: nat, c: seq<int>, f: seq<int>)
    requires c == AllCoeffs(f)
    ensures forall k: nat :: Coeff(Zeros(n) + c, k) == Coeff(f, k)
    ensures forall x :: Eval(Zeros(n) + c, x) == Eval(f, x)
  {
    forall x
      ensures Eval(Zeros(n) + c, x) == Eval(f, x)
    {
      EvalLeadingZeros(n, c, x);
      EvalAllCoeffs(f, x);
    }
  }

  /** `add(f, g)`: coefficient-wise sum of the padded lists. */
  function Add(f: seq<int>, g: seq<int>): (r: seq<int>)
    ensures IsNormal(r)
    ensures forall k: nat :: Coeff(r, k) == Coeff(f, k) + Coeff(g, k)
  {
    var (fc, gc) := PadCoeff(f, g);
    CoeffAddSeq(fc, gc);
    Norm(AddSeq(fc, gc))
  }

  lemma CoeffAddSeq(s: seq<int>, t: seq<int>)
    requires |s| == |t|
    ensures forall k: nat :: Coeff(AddSeq(s, t), k) == Coeff(s, k) + Coeff(t, k)
  {
  }

  /** `neg(f)`: every coefficient negated. */
  function Neg(f: seq<int>): (r: seq<int>)
    ensures IsNormal(r)
    ensures forall k: nat :: Coeff(r, k) == -Coeff(f, k)
  {
    var fc := AllCoeffs(f);
    CoeffScale(-1, fc);
    Norm(ScaleSeq(-1, fc))
  }

  lemma CoeffScale(c: int, s: seq<int>)
    ensures forall k: nat :: Coeff(ScaleSeq(c, s), k) == c * Coeff(s, k)
  {
  }

  /** Addition is the sum of values. */
  lemma EvalAdd(f: seq<int>, g: seq<int>, x: int)
    ensures Eval(Add(f, g), x) == Eval(f, x) + Eval(g, x)
  {
    var (fc, gc) := PadCoeff(f, g);
    EvalNorm(AddSeq(fc, gc), x);
    EvalAddSeq(fc, gc, x);
  }

  lemma AddComm(f: seq<int>, g: seq<int>)
    ensures Add(f, g) == Add(g, f)
  {
    CoeffsDetermine(Add(f, g), Add(g, f));
  }

  lemma AddZero(f: seq<int>)
    requires IsNormal(f)
    ensures Add(f, Zero) == f
  {
    CoeffsDetermine(Add(f, Zero), f);
  }

  /** `neg` gives the additive inverse. */
  lemma AddNeg(f: seq<int>)
    ensures Add(f, Neg(f)) == Zero
  {
    CoeffsDetermine(Add(f, Neg(f)), Zero);
  }

  // Multiplication .....................................................

  /** The coefficient of `X^k` in `(a[0] + ... + a[m-1] X^(m-1)) * b`, for
      coefficient lists lowest degree first: the sum of `a[i] * b[k - i]`
      over `i < m`, accumulated in the order the source's loop adds them. */
  function PartialProduct(a: seq<int>, b: seq<int>, k: int, m: nat): int
    requires m <= |a|
  {
    if m == 0 then 0
    else PartialProduct(a, b, k, m - 1) + (if 0 <= k - (m - 1) < |b| then a[m - 1] * b[k - (m - 1)] else 0)
  }

  /** The first `len` coefficients of that partial product, lowest first. */
  function LowProduct(a: seq<int>, b: seq<int>, m: nat, len: nat): (r: seq<int>)
    requires m <= |a|
    ensures |r| == len && forall k :: 0 <= k < len ==> r[k] == PartialProduct(a, b, k, m)
  {
    seq(len, k requires 0 <= k < len => PartialProduct(a, b, k, m))
  }

  /** `mul(f, g)` as a value: the padded lists (each of length n) are
      multiplied as polynomials, giving `2n - 1` coefficients. */
  function Product(f: seq<int>, g: seq<int>): seq<int>
  {
    var (fc, gc) := PadCoeff(f, g);
    PaddedProduct(fc, gc)
  }

  /** The product of two coefficient lists of the same length `n`. */
  function PaddedProduct(fc: seq<int>, gc: seq<int>): seq<int>
    requires |fc| == |gc| >= 1
  {
    var n := |fc|;
    Norm(Reverse(LowProduct(Reverse(fc), Reverse(gc), n, 2 * n - 1)))
  }

  /** Row `m - 1` of the products: `c * b` shifted up by `s` places, inside `len` slots. */
  function Row(c: int, b: seq<int>, s: nat, len: nat): (r: seq<int>)
    requires s + |b| <= len
    ensures |r| == len
  {
    Zeros(s) + ScaleSeq(c, b) + Zeros(len - s - |b|)
  }

  lemma EvalLowRow(c: int, b: seq<int>, s: nat, len: nat, x: int)
    requires s + |b| <= len
    ensures EvalLow(Row(c, b, s, len), x) == Pow(x, s) * (c * EvalLow(b, x))
  {
    var z, cb, tail := Zeros(s), ScaleSeq(c, b), Zeros(len - s - |b|);
    assert EvalLow(z + cb + tail, x) == EvalLow(z + cb, x) by {
      EvalLowAppend(z + cb, tail, x);
      EvalLowZeros(len - s - |b|, x);
      assert Pow(x, |z + cb|) * 0 == 0;
    }
    assert EvalLow(z + cb, x) == Pow(x, s) * EvalLow(cb, x) by {
      EvalLowAppend(z, cb, x);
      EvalLowZeros(s, x);
    }
    EvalLowScale(c, b, x);
  }

  /** Adding row `m - 1` to the partial product of the first `m - 1` rows. */
  lemma LowProductStep(a: seq<int>, b: seq<int>, m: nat, len: nat)
    requires 1 <= m <= |a| && m - 1 + |b| <= len
    ensures LowProduct(a, b, m, len) == AddSeq(LowProduct(a, b, m - 1, len), Row(a[m - 1], b, m - 1, len))
  {
    var row := Row(a[m - 1], b, m - 1, len);
    forall k | 0 <= k < len
      ensures row[k] == if 0 <= k - (m - 1) < |b| then a[m - 1] * b[k - (m - 1)] else 0
    {
      if k < m - 1 {
        assert row[k] == Zeros(m - 1)[k];
      } else if k < m - 1 + |b| {
        assert row[k] == ScaleSeq(a[m - 1], b)[k - (m - 1)];
      } else {
        assert row[k] == Zeros(len - (m - 1) - |b|)[k - (m - 1) - |b|];
      }
    }
  }

  lemma {:induction false} EvalLowProduct(a: seq<int>, b: seq<int>, m: nat, len: nat, x: int)
    requires m <= |a| && m + |b| <= len + 1
    ensures EvalLow(LowProduct(a, b, m, len), x) == EvalLow(a[..m], x) * EvalLow(b, x)
    decreases m
  {
    if m == 0 {
      assert LowProduct(a, b, 0, len) == Zeros(len);
      EvalLowZeros(len, x);
    } else {
      var prev, row := LowProduct(a, b, m - 1, len), Row(a[m - 1], b, m - 1, len);
      LowProductStep(a, b, m, len);
      EvalLowAddSeq(prev, row, x);
      EvalLowProduct(a, b, m - 1, len, x);
      EvalLowRow(a[m - 1], b, m - 1, len, x);
      EvalLowPrefix(a, m, x);
      Distribute(EvalLow(a[..m - 1], x), Pow(x, m - 1), a[m - 1], EvalLow(b, x));
    }
  }

  /** Extending a prefix by one coefficient adds its power of `x`. */
  lemma EvalLowPrefix(a: seq<int>, m: nat, x: int)
    requires 1 <= m <= |a|
    ensures EvalLow(a[..m], x) == EvalLow(a[..m - 1], x) + Pow(x, m - 1) * a[m - 1]
  {
    assert a[..m] == a[..m - 1] + [a[m - 1]];
    EvalLowAppend(a[..m - 1], [a[m - 1]], x);
    assert EvalLow([a[m - 1]], x) == a[m - 1];
  }

  lemma Distribute(s: int, p: int, c: int, e: int)
    ensures s * e + p * (c * e) == (s + p * c) * e
  {
  }

  lemma ReverseReverse(s: seq<int>)
    ensures Reverse(Reverse(s)) == s
  {
  }

  /** Multiplication is the product of values: `mul` multiplies polynomials. */
  lemma EvalProduct(f: seq<int>, g: seq<int>, x: int)
    ensures Eval(Product(f, g), x) == Eval(f, x) * Eval(g, x)
  {
    var (fc, gc) := PadCoeff(f, g);
    EvalPaddedProduct(fc, gc, x);
  }

  lemma EvalPaddedProduct(fc: seq<int>, gc: seq<int>, x: int)
    requires |fc| == |gc| >= 1
    ensures Eval(PaddedProduct(fc, gc), x) == Eval(fc, x) * Eval(gc, x)
  {
    var a, b := Reverse(fc), Reverse(gc);
    var low := LowProduct(a, b, |a|, 2 * |a| - 1);
    assert Eval(PaddedProduct(fc, gc), x) == EvalLow(low, x) by {
      assert PaddedProduct(fc, gc) == Norm(Reverse(low));
      EvalNormReverse(low, x);
    }
    assert EvalLow(low, x) == EvalLow(a, x) * EvalLow(b, x) by {
      EvalLowFullProduct(a, b, x);
    }
  }

  lemma EvalLowFullProduct(a: seq<int>, b: seq<int>, x: int)
    requires |a| == |b| >= 1
    ensures EvalLow(LowProduct(a, b, |a|, 2 * |a| - 1), x) == EvalLow(a, x) * EvalLow(b, x)
  {
    EvalLowProduct(a, b, |a|, 2 * |a| - 1, x);
    assert a[..|a|] == a;
  }

  lemma EvalNormReverse(low: seq<int>, x: int)
    ensures Eval(Norm(Reverse(low)), x) == EvalLow(low, x)
  {
    EvalNorm(Reverse(low), x);
    ReverseReverse(low);
  }

  /** `f_0 g_k + f_1 g_(k-1) + ...`, the first `m` terms of the sum over
      `i + j == k` of `f_i * g_j`, defined on coefficients alone. */
  function Convolution(f: seq<int>, g: seq<int>, k: nat, m: nat): int
  {
    if m == 0 then 0
    else Convolution(f, g, k, m - 1) + (if m - 1 <= k then Coeff(f, m - 1) * Coeff(g, k - (m - 1)) else 0)
  }

  /** The coefficient of `X^k` in `mul(f, g)` is the sum over `i + j == k`
      of `f_i * g_j`. */
  lemma ProductCoeff(f: seq<int>, g: seq<int>, k: nat)
    ensures Coeff(Product(f, g), k) == Convolution(f, g, k, k + 1)
  {
    var (fc, gc) := PadCoeff(f, g);
    var n := |fc|;
    assert Coeff(Product(f, g), k) == Convolution(fc, gc, k, n) by {
      PaddedProductCoeff(fc, gc, k);
    }
    assert Convolution(fc, gc, k, n) == Convolution(f, g, k, n) by {
      ConvolutionPadded(f, g, fc, gc, k, n);
    }
    assert Convolution(f, g, k, n) == Convolution(f, g, k, k + 1) by {
      ConvolutionBeyondTerms(f, g, k, k + 1, n);
      ConvolutionBeyondTerms(f, g, k, n, n);
    }
  }

  lemma PaddedProductCoeff(fc: seq<int>, gc: seq<int>, k: nat)
    requires |fc| == |gc| >= 1
    ensures Coeff(PaddedProduct(fc, gc), k) == Convolution(fc, gc, k, |fc|)
  {
    var n := |fc|;
    var low := LowProduct(Reverse(fc), Reverse(gc), n, 2 * n - 1);
    assert Coeff(PaddedProduct(fc, gc), k) == Coeff(Reverse(low), k);
    if k < 2 * n - 1 {
      assert Coeff(Reverse(low), k) == low[k];
      PartialProductIsConvolution(fc, gc, k, n);
    } else {
      ConvolutionVanishes(fc, gc, k, n, n);
    }
  }

  /** With `a`, `b` the padded lists lowest first, the source's partial sums
      are the convolution's. */
  lemma {:induction false} PartialProductIsConvolution(fc: seq<int>, gc: seq<int>, k: nat, m: nat)
    requires |fc| == |gc| && m <= |fc|
    ensures PartialProduct(Reverse(fc), Reverse(gc), k, m) == Convolution(fc, gc, k, m)
  {
    if m > 0 {
      PartialProductIsConvolution(fc, gc, k, m - 1);
    }
  }

  /** Padding does not change the convolution. */
  lemma {:induction false} ConvolutionPadded(f: seq<int>, g: seq<int>, fc: seq<int>, gc: seq<int>, k: nat, m: nat)
    requires forall i: nat :: Coeff(fc, i) == Coeff(f, i) && Coeff(gc, i) == Coeff(g, i)
    ensures Convolution(fc, gc, k, m) == Convolution(f, g, k, m)
  {
    if m > 0 {
      ConvolutionPadded(f, g, fc, gc, k, m - 1);
    }
  }

  /** Terms past `i == k`, or past the last coefficient of `f`, add nothing. */
  lemma {:induction false} ConvolutionBeyondTerms(f: seq<int>, g: seq<int>, k: nat, m: nat, n: nat)
    requires |f| <= n
    ensures Convolution(f, g, k, m) == Convolution(f, g, k, if m < n then m else n)
    ensures m >= k + 1 ==> Convolution(f, g, k, m) == Convolution(f, g, k, k + 1)
  {
    if m > 0 {
      ConvolutionBeyondTerms(f, g, k, m - 1, n);
    }
  }

  /** Beyond degree `2n - 2` two factors of fewer than `n` coefficients have no terms. */
  lemma {:induction false} ConvolutionVanishes(f: seq<int>, g: seq<int>, k: nat, m: nat, n: nat)
    requires |f| <= n && |g| <= n && m <= n && k >= 2 * n - 1
    ensures Convolution(f, g, k, m) == 0
  {
    if m > 0 {
      ConvolutionVanishes(f, g, k, m - 1, n);
    }
  }

  /** The bound of the keys in `total_coeff` after row `i` has reached column `j`. */
  function KeyBound(i: nat, j: nat, n: nat): nat
  {
    if i == 0 then j else if i + j < i + n - 1 then i + n - 1 else i + j
  }

  /** `mul(f, g)`: pads both coefficient lists, then multiplies them. */
  method Mul(f: seq<int>, g: seq<int>) returns (r: seq<int>)
    ensures r == Product(f, g)
  {
    var padded := PadCoeff(f, g);
    r := MulPadded(padded.0, padded.1);
  }

  /** The loops of `mul`: the nested loops add `x * y` into
      `total_coeff[i + j]` (starting from zero for a missing key), and the
      coefficients are read back from the highest key down. */
  method MulPadded(fc: seq<int>, gc: seq<int>) returns (r: seq<int>)
    requires |fc| == |gc| >= 1
    ensures r == PaddedProduct(fc, gc)
  {
    var a, b := Reverse(fc), Reverse(gc);
    var n := |a|;
    var total: map<int, int> := map[];
    var i := 0;
    while i < n
      invariant 0 <= i <= n
      invariant forall k :: k in total <==> 0 <= k < KeyBound(i, 0, n)
      invariant forall k :: k in total ==> total[k] == PartialProduct(a, b, k, i)
    {
      total := AddRow(a, b, i, total);
      i := i + 1;
    }
    assert KeyBound(n, 0, n) == 2 * n - 1;
    ReadBackIsPadded(total, fc, gc);
    assert forall k :: 0 <= k < |total| ==> k in total;
    r := Norm(ReadBack(total, |total|));
  }

  /** Once every row is in, the read-back keys normalise to the product. */
  lemma ReadBackIsPadded(total: map<int, int>, fc: seq<int>, gc: seq<int>)
    requires |fc| == |gc| >= 1
    requires forall k :: k in total <==> 0 <= k < 2 * |fc| - 1
    requires forall k :: k in total ==> total[k] == PartialProduct(Reverse(fc), Reverse(gc), k, |fc|)
    ensures |total| == 2 * |fc| - 1
    ensures Norm(ReadBack(total, |total|)) == PaddedProduct(fc, gc)
  {
    var low := LowProduct(Reverse(fc), Reverse(gc), |fc|, 2 * |fc| - 1);
    ReadBackReverses(total, low);
  }

  /** `total_coeff[i] for i in range(len - 1, -1, -1)`. */
  function ReadBack(total: map<int, int>, len: nat): (r: seq<int>)
    requires forall k :: 0 <= k < len ==> k in total
    ensures |r| == len && forall t :: 0 <= t < len ==> r[t] == total[len - 1 - t]
  {
    seq(len, t requires 0 <= t < len => total[len - 1 - t])
  }

  /** Reading back a map that holds the list `low` by index gives `low` reversed. */
  lemma ReadBackReverses(total: map<int, int>, low: seq<int>)
    requires forall k :: k in total <==> 0 <= k < |low|
    requires forall k :: 0 <= k < |low| ==> total[k] == low[k]
    ensures |total| == |low|
    ensures ReadBack(total, |total|) == Reverse(low)
  {
    KeysCount(total, |low|);
    var back := ReadBack(total, |low|);
    forall t | 0 <= t < |low|
      ensures back[t] == Reverse(low)[t]
    {
      assert back[t] == total[|low| - 1 - t];
    }
  }

  /** A map whose keys are `0 .. len-1` has `len` entries. */
  lemma KeysCount(total: map<int, int>, len: nat)
    requires forall k :: k in total <==> 0 <= k < len
    ensures |total| == len
  {
    assert total.Keys == Integers.AllMod(len);
    Integers.AllModSize(len);
  }

  /** The inner loop of `mul`: row `i` of the products is added in. */
  method AddRow(a: seq<int>, b: seq<int>, i: nat, total: map<int, int>) returns (total': map<int, int>)
    requires |a| == |b| && i < |a|
    requires forall k :: k in total <==> 0 <= k < KeyBound(i, 0, |a|)
    requires forall k :: k in total ==> total[k] == PartialProduct(a, b, k, i)
    ensures forall k :: k in total' <==> 0 <= k < KeyBound(i + 1, 0, |a|)
    ensures forall k :: k in total' ==> total'[k] == PartialProduct(a, b, k, i + 1)
  {
    var n := |a|;
    total' := total;
    var j := 0;
    while j < n
      invariant 0 <= j <= n
      invariant forall k :: k in total' <==> 0 <= k < KeyBound(i, j, n)
      invariant forall k :: k in total' ==>
                  total'[k] == PartialProduct(a, b, k, i) + (if i <= k < i + j then a[i] * b[k - i] else 0)
    {
      if i + j !in total' && i > 0 {
        PartialProductBeyond(a, b, i + j, i);
      }
      var previous := if i + j in total' then total'[i + j] else Integers.Zero;
      total' := total'[i + j := Integers.Add(previous, Integers.Mul(a[i], b[j]))];
      j := j + 1;
    }
  }

  /** Terms beyond the last product of row `m - 1` are still zero. */
  lemma {:induction false} PartialProductBeyond(a: seq<int>, b: seq<int>, k: int, m: nat)
    requires m <= |a| && k >= m - 1 + |b|
    ensures PartialProduct(a, b, k, m) == 0
  {
    if m > 0 {
      PartialProductBeyond(a, b, k, m - 1);
    }
  }

  // Long division ......................................................

  /** Why `divmod` fails: `F.div` by a zero leading coefficient raises
      ZeroDivisionError, and a step whose leading coefficient does not cancel
      raises ValueError. */
  datatype DivError = DivisionByZero | NotDivisible

  /** `k` steps of long division of `num` by `div` (both highest degree first):
      each step divides the leading coefficients, subtracts the multiple of
      `div` aligned at the top, demands that the leading coefficient cancel,
      and drops it. The factors are the quotient's coefficients. */
  function Steps(num: seq<int>, div: seq<int>, k: nat): Result<(seq<int>, seq<int>), DivError>
    requires |div| >= 1 && (k == 0 || |num| + 1 >= |div| + k)
    decreases k
  {
    if k == 0 then Ok(([], num))
    else if div[0] == 0 then Err(DivisionByZero)
    else
      var factor := Integers.Div(num[0], div[0]);
      var rest := SubSeq(num, ScaleSeq(factor, div) + Zeros(|num| - |div|));
      if rest[0] != 0 then Err(NotDivisible)
      else Prefixed([factor], Steps(rest[1..], div, k - 1))
  }

  /** Puts quotient coefficients found earlier in front of a later result. */
  function Prefixed(quot: seq<int>, r: Result<(seq<int>, seq<int>), DivError>): Result<(seq<int>, seq<int>), DivError>
  {
    match r
    case Ok((q, rem)) => Ok((quot + q, rem))
    case Err(e) => Err(e)
  }

  /** The number of steps `divmod(f, g)` takes: `len(num) - len(div) + 1`, or none. */
  function StepCount(f: seq<int>, g: seq<int>): (k: nat)
    ensures k == 0 || |AllCoeffs(f)| + 1 == |AllCoeffs(g)| + k
  {
    var n, d := |AllCoeffs(f)|, |AllCoeffs(g)|;
    if n + 1 >= d then n + 1 - d else 0
  }

  /** `divmod(f, g)` as a value: quotient and remainder are normalised, as
      building a `Poly` from them does. */
  function LongDivision(f: seq<int>, g: seq<int>): Result<(seq<int>, seq<int>), DivError>
  {
    match Steps(AllCoeffs(f), AllCoeffs(g), StepCount(f, g))
    case Ok((q, r)) => Ok((Norm(q), Norm(r)))
    case Err(e) => Err(e)
  }

  /** `divmod(f, g)`: the loop reassigns `num`, appends to `quot` and pops the
      cancelled leading coefficient. */
  method DivMod(f: seq<int>, g: seq<int>) returns (r: Result<(seq<int>, seq<int>), DivError>)
    ensures r == LongDivision(f, g)
  {
    var num := AllCoeffs(f);
    var div := AllCoeffs(g);
    ghost var steps := StepCount(f, g);
    var quot := [];
    var divisor := div[0];
    var i := 0;
    assert Prefixed(quot, Steps(num, div, steps)) == Steps(num, div, steps) by {
      var first := Steps(num, div, steps);
      if first.Ok? {
        assert [] + first.value.0 == first.value.0;
      }
    }
    while i < |AllCoeffs(f)| - |div| + 1
      invariant 0 <= i <= steps
      invariant |num| + i == |AllCoeffs(f)|
      invariant Steps(AllCoeffs(f), div, steps) == Prefixed(quot, Steps(num, div, steps - i))
    {
      if divisor == Integers.Zero {
        return Err(DivisionByZero);
      }
      var factor := Integers.Div(num[0], divisor);
      var d := ScaleSeq(factor, div);
      var next := SubSeq(num, d + Zeros(|num| - |d|));
      StepsUnfold(quot, num, div, steps - i);
      quot := quot + [factor];
      if next[0] != Integers.Zero {
        return Err(NotDivisible);
      }
      num := next[1..];
      i := i + 1;
    }
    assert quot + [] == quot;
    r := Ok((Norm(quot), Norm(num)));
  }

  /** One step of the loop, as `Steps` takes it. */
  lemma StepsUnfold(quot: seq<int>, num: seq<int>, div: seq<int>, k: nat)
    requires |div| >= 1 && div[0] != 0 && k >= 1 && |num| + 1 >= |div| + k
    ensures var factor := Integers.Div(num[0], div[0]);
            var next := SubSeq(num, ScaleSeq(factor, div) + Zeros(|num| - |div|));
            Prefixed(quot, Steps(num, div, k)) ==
              if next[0] != 0 then Err(NotDivisible)
              else Prefixed(quot + [factor], Steps(next[1..], div, k - 1))
  {
    var factor := Integers.Div(num[0], div[0]);
    var next := SubSeq(num, ScaleSeq(factor, div) + Zeros(|num| - |div|));
    if next[0] == 0 {
      PrefixedTwice(quot, [factor], Steps(next[1..], div, k - 1));
    }
  }

  lemma PrefixedTwice(a: seq<int>, b: seq<int>, r: Result<(seq<int>, seq<int>), DivError>)
    ensures Prefixed(a, Prefixed(b, r)) == Prefixed(a + b, r)
  {
    if r.Ok? {
      assert a + (b + r.value.0) == (a + b) + r.value.0;
    }
  }

  /** `div(f, g)`: the quotient of `divmod`. */
  method Div(f: seq<int>, g: seq<int>) returns (r: Result<seq<int>, DivError>)
    ensures r.Ok? <==> LongDivision(f, g).Ok?
    ensures r.Ok? ==> r.value == LongDivision(f, g).value.0
    ensures r.Err? ==> r.error == LongDivision(f, g).error
  {
    var qr := DivMod(f, g);
    match qr
    case Ok((q, _)) => r := Ok(q);
    case Err(e) => r := Err(e);
  }

  /** `mod(f, g)`: the remainder of `divmod`. */
  method Mod(f: seq<int>, g: seq<int>) returns (r: Result<seq<int>, DivError>)
    ensures r.Ok? <==> LongDivision(f, g).Ok?
    ensures r.Ok? ==> r.value == LongDivision(f, g).value.1
    ensures r.Err? ==> r.error == LongDivision(f, g).error
  {
    var qr := DivMod(f, g);
    match qr
    case Ok((_, m)) => r := Ok(m);
    case Err(e) => r := Err(e);
  }

  /** A cancelled leading coefficient does not change the value. */
  lemma EvalDropZero(s: seq<int>, x: int)
    requires |s| >= 1 && s[0] == 0
    ensures Eval(s, x) == Eval(s[1..], x)
  {
    assert s == Zeros(1) + s[1..];
    EvalLeadingZeros(1, s[1..], x);
  }

  /** `c * div` aligned `j` places up. */
  lemma EvalShifted(c: int, div: seq<int>, j: nat, x: int)
    ensures Eval(ScaleSeq(c, div) + Zeros(j), x) == c * Eval(div, x) * Pow(x, j)
  {
    EvalAppend(ScaleSeq(c, div), Zeros(j), x);
    EvalLeadingZeros(j, [], x);
    assert Zeros(j) + [] == Zeros(j);
    EvalScale(c, div, x);
  }

  /** A new leading coefficient `c` adds `c * x^|q|`. */
  lemma EvalCons(c: int, q: seq<int>, x: int)
    ensures Eval([c] + q, x) == c * Pow(x, |q|) + Eval(q, x)
  {
    EvalAppend([c], q, x);
    assert Eval([c], x) == c by {
      assert Reverse([c]) == [c];
      assert EvalLow([c], x) == c + x * EvalLow([], x);
    }
  }

  lemma Regroup(e: int, c: int, p: int, q: int, r: int)
    ensures q * e + r + c * e * p == (c * p + q) * e + r
  {
  }

  /** Each successful run of the steps splits `num` into quotient times
      divisor plus remainder, with `k` quotient coefficients and a remainder
      one shorter than the divisor. */
  lemma {:induction false} StepsRecompose(num: seq<int>, div: seq<int>, k: nat, x: int)
    requires |div| >= 1 && |num| + 1 == |div| + k
    requires Steps(num, div, k).Ok?
    ensures var (q, r) := Steps(num, div, k).value;
            |q| == k && |r| == |div| - 1 && Eval(num, x) == Eval(q, x) * Eval(div, x) + Eval(r, x)
    decreases k
  {
    if k > 0 {
      var c := Integers.Div(num[0], div[0]);
      var shifted := ScaleSeq(c, div) + Zeros(|num| - |div|);
      var rest := SubSeq(num, shifted);
      StepsRecompose(rest[1..], div, k - 1, x);
      var (q', r) := Steps(rest[1..], div, k - 1).value;
      assert Steps(num, div, k).value == ([c] + q', r);
      StepValue(num, div, c, q', r, x);
    }
  }

  /** One step keeps the value: what the later steps leave of `rest[1..]`
      accounts for `num` once `c * div` is added back at the top. */
  lemma StepValue(num: seq<int>, div: seq<int>, c: int, q: seq<int>, r: seq<int>, x: int)
    requires 1 <= |div| <= |num| && |q| == |num| - |div|
    requires var rest := SubSeq(num, ScaleSeq(c, div) + Zeros(|num| - |div|));
             rest[0] == 0 && Eval(rest[1..], x) == Eval(q, x) * Eval(div, x) + Eval(r, x)
    ensures Eval(num, x) == Eval([c] + q, x) * Eval(div, x) + Eval(r, x)
  {
    var shifted := ScaleSeq(c, div) + Zeros(|num| - |div|);
    var rest := SubSeq(num, shifted);
    EvalSubSeq(num, shifted, x);
    EvalDropZero(rest, x);
    EvalShifted(c, div, |q|, x);
    EvalCons(c, q, x);
    Regroup(Eval(div, x), c, Pow(x, |q|), Eval(q, x), Eval(r, x));
  }

  /** `divmod(f, g)`, when it succeeds, gives `f == q * g + r` as polynomials:
      both sides agree at every point. */
  lemma DivisionRecomposes(f: seq<int>, g: seq<int>, x: int)
    requires LongDivision(f, g).Ok?
    ensures var (q, r) := LongDivision(f, g).value;
            Eval(f, x) == Eval(q, x) * Eval(g, x) + Eval(r, x)
  {
    var num, div, k := AllCoeffs(f), AllCoeffs(g), StepCount(f, g);
    var (q, r) := Steps(num, div, k).value;
    if k == 0 {
      assert (q, r) == ([], num);
    } else {
      StepsRecompose(num, div, k, x);
    }
    EvalNorm(q, x);
    EvalNorm(r, x);
    EvalAllCoeffs(f, x);
    EvalAllCoeffs(g, x);
  }

  /** `key(p) = degree(p) + 1`, the size Euclid's algorithm compares. The zero
      polynomial's degree is minus infinity; `-1` stands for it, as it is
      below every other key. */
  function Key(f: seq<int>): (k: int)
    requires IsNormal(f)
    ensures f == [] ==> k < 0
    ensures f != [] ==> k == |f| && k >= 1
  {
    if f == [] then -1 else |f|
  }

  lemma KeyOfConstants(c: int)
    ensures Key(One) == 1
    ensures c != 0 ==> Key([c]) == 1
  {
  }

  /** A successful division has a non-zero divisor and leaves a remainder of
      smaller key, which is what lets Euclid's algorithm run on polynomials. */
  lemma RemainderSmaller(f: seq<int>, g: seq<int>)
    requires IsNormal(g)
    requires LongDivision(f, g).Ok?
    ensures g != [] && Key(LongDivision(f, g).value.1) < Key(g)
  {
    if g == [] {
      DivideByZero(f);
    }
    var num, div, k := AllCoeffs(f), AllCoeffs(g), StepCount(f, g);
    if k > 0 {
      StepsRecompose(num, div, k, 0);
    }
  }

  /** Dividing by the zero polynomial fails, whatever the dividend. */
  lemma DivideByZero(f: seq<int>)
    ensures LongDivision(f, Zero) == Err(DivisionByZero)
  {
    assert StepCount(f, Zero) >= 1;
  }

  /** When `f` has fewer coefficients than `g` the loop does not run: the
      quotient is zero and the remainder is `f` itself. */
  lemma ShortDividend(f: seq<int>, g: seq<int>)
    requires IsNormal(f) && g != []
    requires |AllCoeffs(f)| < |g|
    ensures LongDivision(f, g) == Ok((Zero, f))
  {
    assert StepCount(f, g) == 0;
    assert Norm(AllCoeffs(f)) == f;
  }

  /** Zero divided by a non-zero polynomial is zero, with remainder zero. */
  lemma ZeroDividend(g: seq<int>)
    requires IsNormal(g) && g != []
    ensures LongDivision(Zero, g) == Ok((Zero, Zero))
  {
    if |g| >= 2 {
      ShortDividend(Zero, g);
    } else {
      Integers.DivModUnique(0, g[0], 0, 0);
      var rest := SubSeq([0], ScaleSeq(0, g) + Zeros(0));
      assert rest == [0] && rest[1..] == [];
      assert Steps([], g, 0) == Ok(([], []));
      assert [0] + [] == [0];
      assert Steps([0], g, 1) == Ok(([0], []));
    }
  }

  /** A successful division of a non-zero `f` by a `g` no longer than it has
      `len(f) - len(g) + 1` quotient coefficients, the first of them non-zero. */
  lemma QuotientLength(f: seq<int>, g: seq<int>)
    requires IsNormal(f) && IsNormal(g) && f != [] && |f| >= |g|
    requires LongDivision(f, g).Ok?
    ensures |LongDivision(f, g).value.0| == |f| - |g| + 1
  {
    assert g != [] by {
      RemainderSmaller(f, g);
    }
    var k := StepCount(f, g);
    assert k == |f| - |g| + 1;
    var q := Steps(f, g, k).value.0;
    assert |q| == k by {
      StepsRecompose(f, g, k, 0);
    }
    LeadingFactor(f, g, k);
  }

  /** The first factor of a run that succeeds is not zero when `num` leads with a non-zero coefficient. */
  lemma LeadingFactor(num: seq<int>, div: seq<int>, k: nat)
    requires |div| >= 1 && k >= 1 && |num| + 1 >= |div| + k && num[0] != 0
    requires Steps(num, div, k).Ok?
    ensures Steps(num, div, k).value.0[0] != 0
  {
    var c := Integers.Div(num[0], div[0]);
    var rest := SubSeq(num, ScaleSeq(c, div) + Zeros(|num| - |div|));
    var later := Steps(rest[1..], div, k - 1);
    assert Steps(num, div, k).value.0 == [c] + later.value.0;
    assert rest[0] == num[0] - c * div[0];
  }

  /** Over the integers a divisor with leading coefficient 1 or -1 always
      divides: every leading coefficient cancels. */
  lemma MonicDivides(f: seq<int>, g: seq<int>)
    requires g != [] && (g[0] == 1 || g[0] == -1)
    ensures LongDivision(f, g).Ok?
  {
    StepsMonic(AllCoeffs(f), g, StepCount(f, g));
  }

  lemma {:induction false} StepsMonic(num: seq<int>, div: seq<int>, k: nat)
    requires |div| >= 1 && (div[0] == 1 || div[0] == -1)
    requires k == 0 || |num| + 1 >= |div| + k
    ensures Steps(num, div, k).Ok?
    decreases k
  {
    if k > 0 {
      var c := Integers.Div(num[0], div[0]);
      Integers.DivModUnique(num[0], div[0], num[0] * div[0], 0);
      var rest := SubSeq(num, ScaleSeq(c, div) + Zeros(|num| - |div|));
      assert rest[0] == 0;
      StepsMonic(rest[1..], div, k - 1);
    }
  }

  /** (3X^3 + 2X^2 - 2X + 2) divided by (X^2 + 4) is 3X + 2 with remainder -14X - 6. */
  lemma DivisionExample()
    ensures LongDivision([3, 2, -2, 2], [1, 0, 4]) == Ok(([3, 2], [-14, -6]))
  {
    var div := [1, 0, 4];
    assert Integers.Div(3, 1) == 3 by { Integers.DivModUnique(3, 1, 3, 0); }
    assert Integers.Div(2, 1) == 2 by { Integers.DivModUnique(2, 1, 2, 0); }
    assert SubSeq([3, 2, -2, 2], ScaleSeq(3, div) + Zeros(1)) == [0, 2, -14, 2];
    assert SubSeq([2, -14, 2], ScaleSeq(2, div) + Zeros(0)) == [0, -14, -6];
    assert [0, 2, -14, 2][1..] == [2, -14, 2];
    assert [0, -14, -6][1..] == [-14, -6];
    assert Steps([-14, -6], div, 0) == Ok(([], [-14, -6]));
    assert [2] + [] == [2] && [3] + [2] == [3, 2];
    assert Steps([2, -14, 2], div, 1) == Ok(([2], [-14, -6]));
    assert Steps([3, 2, -2, 2], div, 2) == Ok(([3, 2], [-14, -6]));
  }

  /** (10X^5 - 4X^3 + 2X^2 - 2X + 2) by (2X^3 + X + 4) fails over the integers:
      the third step leaves a leading -9 that 2 does not divide. */
  lemma UndivisableExample()
    ensures LongDivision([10, 0, -4, 2, -2, 2], [2, 0, 1, 4]) == Err(NotDivisible)
  {
    var div := [2, 0, 1, 4];
    assert Integers.Div(10, 2) == 5 by { Integers.DivModUnique(10, 2, 5, 0); }
    assert Integers.Div(0, 2) == 0 by { Integers.DivModUnique(0, 2, 0, 0); }
    assert Integers.Div(-9, 2) == -5 by { Integers.DivModUnique(-9, 2, -5, 1); }
    assert SubSeq([10, 0, -4, 2, -2, 2], ScaleSeq(5, div) + Zeros(2)) == [0, 0, -9, -18, -2, 2];
    assert SubSeq([0, -9, -18, -2, 2], ScaleSeq(0, div) + Zeros(1)) == [0, -9, -18, -2, 2];
    assert SubSeq([-9, -18, -2, 2], ScaleSeq(-5, div) + Zeros(0)) == [1, -18, 3, 22];
    assert Steps([-9, -18, -2, 2], div, 1) == Err(NotDivisible);
    assert Steps([0, -9, -18, -2, 2], div, 2) == Err(NotDivisible);
    assert Steps([10, 0, -4, 2, -2, 2], div, 3) == Err(NotDivisible);
  }

  // Residues and membership ...........................................

  /** Why `all_mod` fails: over the integers the coefficient field cannot be
      iterated (and the zero polynomial's degree is not a count), so only a
      constant modulus gets through; a failing `mod` is passed on. */
  datatype AllModError = NotIterable | Division(error: DivError)

  /** `all_mod(f)`: the remainders modulo `f` of every polynomial of degree
      below `deg f`. A constant has a single such polynomial, the empty
      coefficient tuple, so its residues are `{mod(0, f)}`. */
  function AllMod(f: seq<int>): (r: Result<set<seq<int>>, AllModError>)
    requires IsNormal(f)
    ensures r.Ok? <==> |f| == 1
    ensures r.Ok? ==> forall p :: p in r.value <==> IsNormal(p) && Key(p) < Key(f)
  {
    if |f| != 1 then Err(NotIterable)
    else
      assert LongDivision(Zero, f) == Ok((Zero, Zero)) by {
        ZeroDividend(f);
      }
      match LongDivision(Zero, f)
      case Ok((_, rem)) => Ok({rem})
      case Err(e) => Err(Division(e))
  }

  /** `__contains__`: a polynomial belongs to the ring when every coefficient
      belongs to the integers (the generator is left out, as the model has
      a single variable). */
  predicate Contains(coeffs: seq<real>): (b: bool)
    ensures b <==> forall i :: 0 <= i < |coeffs| ==> exists n: int :: Integers.AsReal(n) == coeffs[i]
  {
    assert forall i :: 0 <= i < |coeffs| ==>
      (Integers.Contains(coeffs[i]) <==> exists n: int :: Integers.AsReal(n) == coeffs[i]);
    forall i :: 0 <= i < |coeffs| ==> Integers.Contains(coeffs[i])
  }

  lemma ContainsExamples(f: seq<int>)
    ensures Contains(seq(|f|, i requires 0 <= i < |f| => f[i] as real))
    ensures !Contains([1.0, 0.5])
  {
    forall i | 0 <= i < |f|
      ensures Integers.Contains(f[i] as real)
    {
      Integers.ContainsIntegers(f[i]);
    }
    Integers.ContainsIntegers(0);
    assert !Integers.Contains([1.0, 0.5][1]);
  }
}
