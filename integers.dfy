/**
 * The field of integers (`Integers` in coding/fields/base.py): ordinary
 * `+`, unary `-` and `*`, and Python's floor division `//` and floor
 * remainder `%`, which differ from Dafny's Euclidean `/` and `%` when the
 * divisor is negative.
 */
module Integers {

  const Zero: int := 0
  const One: int := 1

  function Add(x: int, y: int): int { x + y }

  function Neg(x: int): int { -x }

  function Mul(x: int, y: int): int { x * y }

  /** The integers' own subtraction agrees with the generic `add(x, neg(y))`. */
  function Sub(x: int, y: int): (r: int)
    ensures r == Add(x, Neg(y))
    ensures Add(r, y) == x
  {
    x - y
  }

  /** Python's `x // y`: the floor of the exact quotient. For a positive
      divisor it counts how often `y` is stepped off `x` to land in
      `0 <= x < y`; a negative divisor mirrors the positive case
      (see `DivModDefinition`). */
  function Div(x: int, y: int): int
    requires y != 0
    decreases y < 0, if x < 0 then y - x else x
  {
    if y < 0 then Div(-x, -y)
    else if x < 0 then Div(x + y, y) - 1
    else if x >= y then Div(x - y, y) + 1
    else 0
  }

  /** Python's `x % y`: the remainder of floor division, which has the sign of
      `y`. For a positive divisor, `x` is stepped by `y` into `0 <= r < y`; a
      negative divisor mirrors the positive case. `ModPositive` relates it to
      Dafny's own `%`. */
  function Mod(x: int, y: int): (r: int)
    requires y != 0
    ensures y > 0 ==> 0 <= r < y
    ensures y < 0 ==> y < r <= 0
    decreases y < 0, if x < 0 then y - x else x
  {
    if y < 0 then -Mod(-x, -y)
    else if x < 0 then Mod(x + y, y)
    else if x >= y then Mod(x - y, y)
    else x
  }

  /** Floor division and its remainder recompose the dividend, and the
      quotient is the floor of the exact quotient. */
  lemma {:induction false} DivModDefinition(x: int, y: int)
    requires y != 0
    ensures x == Div(x, y) * y + Mod(x, y)
    ensures y > 0 ==> Div(x, y) * y <= x < Div(x, y) * y + y
    ensures y < 0 ==> Div(x, y) * y >= x > Div(x, y) * y + y
    decreases y < 0, if x < 0 then y - x else x
  {
    if y < 0 {
      var q := Div(-x, -y);
      DivModDefinition(-x, -y);
      assert Div(x, y) == q && Mod(x, y) == -Mod(-x, -y);
      MulShiftBy(q, -y, 0);
    } else if x < 0 {
      var q := Div(x + y, y);
      DivModDefinition(x + y, y);
      assert Div(x, y) == q - 1 && Mod(x, y) == Mod(x + y, y);
      MulShiftBy(q, y, -1);
    } else if x >= y {
      var q := Div(x - y, y);
      DivModDefinition(x - y, y);
      assert Div(x, y) == q + 1 && Mod(x, y) == Mod(x - y, y);
      MulShiftBy(q, y, 1);
    }
  }

  /** `(q + k) * y` and `q * (-y)` expanded, for the steps of `DivModDefinition`. */
  lemma MulShiftBy(q: int, y: int, k: int)
    ensures (q + k) * y == q * y + k * y
    ensures q * (-y) == -(q * y)
  {
  }

  /** The generic `divmod(x, y) == (div(x, y), mod(x, y))` over the integers. */
  function DivMod(x: int, y: int): (r: (int, int))
    requires y != 0
    ensures r.0 * y + r.1 == x
    ensures y > 0 ==> 0 <= r.1 < y
    ensures y < 0 ==> y < r.1 <= 0
  {
    DivModDefinition(x, y);
    (Div(x, y), Mod(x, y))
  }

  /** `all_mod(x)`: every residue modulo `x`, that is `range(x)` as a set. */
  function AllMod(x: int): (s: set<int>)
    ensures forall i :: i in s <==> 0 <= i < x
    decreases x
  {
    if x <= 0 then {} else AllMod(x - 1) + {x - 1}
  }

  /** An integer as a real number. */
  function AsReal(n: int): real { n as real }

  /** Membership, `x % 1 == 0`: Python's floor remainder of `x` by 1 is
      `x - floor(x)`, which is zero exactly for the integers. */
  predicate Contains(x: real): (b: bool)
    ensures b <==> exists n: int :: AsReal(n) == x
  {
    var f := x.Floor;
    if x - f as real == 0.0 then assert AsReal(f) == x; true else false
  }

  /** The ordering key used by Euclid's algorithm: the identity. */
  function Key(x: int): int { x }

  /** `max` and `min` under the key order the integers as `<=` does. */
  lemma KeyOrders(x: int, y: int)
    ensures Key(x) <= Key(y) <==> x <= y
    ensures Key(x) == Key(y) <==> x == y
  {
  }

  lemma {:induction false} AllModSize(x: int)
    ensures |AllMod(x)| == if x < 0 then 0 else x
    decreases x
  {
    if x > 0 {
      AllModSize(x - 1);
    }
  }

  /** Every integer is a member; a number with a fractional part is not. */
  lemma ContainsIntegers(n: int)
    ensures Contains(n as real)
    ensures !Contains(n as real + 0.5)
  {
  }

  /** Floor division is determined by its defining equation and the range of its remainder. */
  lemma DivModUnique(x: int, y: int, q: int, r: int)
    requires y != 0
    requires x == q * y + r
    requires y > 0 ==> 0 <= r < y
    requires y < 0 ==> y < r <= 0
    ensures Div(x, y) == q && Mod(x, y) == r
  {
    var q', r' := Div(x, y), Mod(x, y);
    DivModDefinition(x, y);
    if q > q' {
      MulSub(q, q', y);
      MulAtLeast(q - q', y);
    } else if q < q' {
      MulSub(q', q, y);
      MulAtLeast(q' - q, y);
    }
  }

  lemma MulSub(a: int, b: int, y: int)
    ensures (a - b) * y == a * y - b * y
  {
  }

  lemma MulAtLeast(a: int, y: int)
    requires a >= 1
    ensures y > 0 ==> a * y >= y
    ensures y < 0 ==> a * y <= y
  {
    assert a * y == (a - 1) * y + y;
    if y > 0 {
      assert (a - 1) * y >= 0;
    } else if y < 0 {
      assert (a - 1) * y <= 0;
    }
  }

  /** For a positive divisor, Python's `%` and `//` coincide with Dafny's. */
  lemma ModPositive(x: int, y: int)
    requires y > 0
    ensures Mod(x, y) == x % y && Div(x, y) == x / y
  {
    DivModUnique(x, y, x / y, x % y);
  }

  lemma ModAddMultiple(x: int, k: int, p: int)
    requires p != 0
    ensures Mod(x + k * p, p) == Mod(x, p)
  {
    var q, r := Div(x, p), Mod(x, p);
    DivModDefinition(x, p);
    assert x + k * p == (q + k) * p + r;
    DivModUnique(x + k * p, p, q + k, r);
  }

  lemma ModIdempotent(x: int, p: int)
    requires p != 0
    ensures Mod(Mod(x, p), p) == Mod(x, p)
  {
    DivModUnique(Mod(x, p), p, 0, Mod(x, p));
  }

  /** Reducing an addend first does not change the residue of a sum. */
  lemma ModAddLeft(x: int, y: int, p: int)
    requires p != 0
    ensures Mod(Mod(x, p) + y, p) == Mod(x + y, p)
  {
    var q := Div(x, p);
    DivModDefinition(x, p);
    assert Mod(x, p) + y == (x + y) + (-q) * p;
    ModAddMultiple(x + y, -q, p);
  }

  /** Reducing a factor first does not change the residue of a product. */
  lemma ModMulLeft(x: int, y: int, p: int)
    requires p != 0
    ensures Mod(Mod(x, p) * y, p) == Mod(x * y, p)
  {
    var q, r := Div(x, p), Mod(x, p);
    DivModDefinition(x, p);
    MulShift(x, y, q, p, r);
    ModAddMultiple(x * y, -(q * y), p);
  }

  lemma MulShift(x: int, y: int, q: int, p: int, r: int)
    requires x == q * p + r
    ensures r * y == x * y + (-(q * y)) * p
  {
    MulSub(x, q * p, y);
    assert (q * p) * y == (q * y) * p;
  }

  lemma ModAddBoth(x: int, y: int, p: int)
    requires p != 0
    ensures Mod(Mod(x, p) + Mod(y, p), p) == Mod(x + y, p)
  {
    ModAddLeft(x, Mod(y, p), p);
    ModAddLeft(y, x, p);
  }

  lemma ModMulBoth(x: int, y: int, p: int)
    requires p != 0
    ensures Mod(Mod(x, p) * Mod(y, p), p) == Mod(x * y, p)
  {
    ModMulLeft(x, Mod(y, p), p);
    ModMulLeft(y, x, p);
  }
}
