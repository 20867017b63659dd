/**
 * The older finite field of coding/fields.py: the same tables under the
 * names `opposite`, `multiply` and `inverse`, its own `subtract` and
 * `divide`, plain iteration over the element set, and `integer_field(p)`,
 * which uses the absolute-value Euclid of coding/util/euclides.py and is
 * wrapped in a `memoize` cache.
 */
module LegacyFields {
  import opened Wrappers
  import opened Integers
  import opened NumberTheory
  import opened FieldLaws
  import EuclidAbs
  import FiniteFields

  class LegacyFiniteField<T(==)> {
    const numbers: set<T>
    const zero: T
    const one: T
    var addTable: map<(T, T), T>
    var oppositeTable: map<T, T>
    var multiplyTable: map<(T, T), T>
    var inverseTable: map<T, T>

    /** The constructor's three assertions, which every object keeps. */
    ghost predicate Valid()
    {
      zero in numbers && one in numbers && zero != one
    }

    /** The field's current tables as a value. */
    function Contents(): Tables<T>
      reads this
    {
      Tables(numbers, zero, one, addTable, oppositeTable, multiplyTable, inverseTable)
    }

    constructor(numbers: set<T>, zero: T, one: T, add: map<(T, T), T>, opposite: map<T, T>,
                multiply: map<(T, T), T>, inverse: map<T, T>)
      requires zero in numbers && one in numbers && one != zero
      ensures Valid()
      ensures Contents() == Tables(numbers, zero, one, add, opposite, multiply, inverse)
    {
      this.numbers := numbers;
      this.zero := zero;
      this.one := one;
      addTable := add;
      oppositeTable := opposite;
      multiplyTable := multiply;
      inverseTable := inverse;
    }

    function Add(x: T, y: T): (r: T)
      reads this
      requires (x, y) in addTable
      ensures Closed(Contents()) ==> r in numbers
    {
      addTable[(x, y)]
    }

    function Opposite(x: T): (r: T)
      reads this
      requires x in oppositeTable
      ensures Closed(Contents()) ==> r in numbers
    {
      oppositeTable[x]
    }

    function Multiply(x: T, y: T): (r: T)
      reads this
      requires (x, y) in multiplyTable
      ensures Closed(Contents()) ==> r in numbers
    {
      multiplyTable[(x, y)]
    }

    function Inverse(x: T): (r: T)
      reads this
      requires x in inverseTable
      ensures Closed(Contents()) ==> r in numbers
    {
      inverseTable[x]
    }

    /** `subtract(x, y)`, the sum with the opposite, which in a field undoes `add`. */
    function Subtract(x: T, y: T): (r: T)
      reads this
      requires y in oppositeTable && (x, oppositeTable[y]) in addTable
      ensures IsField(Contents()) && x in numbers && y in numbers ==>
                (r, y) in addTable && addTable[(r, y)] == x
    {
      FieldLaws.Subtract(Contents(), x, y)
    }

    /** `divide(x, y)`, the product with the inverse, which in a field undoes `multiply`. */
    function Divide(x: T, y: T): (r: T)
      reads this
      requires y in inverseTable && (x, inverseTable[y]) in multiplyTable
      ensures IsField(Contents()) && x in numbers && y in numbers && y != zero ==>
                (r, y) in multiplyTable && multiplyTable[(r, y)] == x
    {
      FieldLaws.Divide(Contents(), x, y)
    }

    predicate Contains(item: T)
    {
      item in numbers
    }

    /** `iter(field)`: every element once, in an order the set does not fix. */
    method Elements() returns (xs: seq<T>)
      ensures forall i, j :: 0 <= i < j < |xs| ==> xs[i] != xs[j]
      ensures forall x :: x in xs <==> x in numbers
      ensures |xs| == |numbers|
    {
      xs := [];
      var rest := numbers;
      while rest != {}
        invariant forall i, j :: 0 <= i < j < |xs| ==> xs[i] != xs[j]
        invariant rest <= numbers
        invariant forall x :: x in xs <==> x in numbers && x !in rest
        invariant |xs| + |rest| == |numbers|
        decreases |rest|
      {
        var x :| x in rest;
        xs := xs + [x];
        rest := rest - {x};
      }
    }

    /** `check()`: the nine `check_*` predicates on the current tables. */
    method Check() returns (ok: bool, failed: seq<Law>)
      requires WellFormed(Contents())
      ensures ok <==> IsField(Contents())
      ensures forall law :: law in failed <==> !Holds(Contents(), law)
    {
      ok, failed := CheckLaws(Contents());
    }
  }

  /** `integer_field(p)` without its cache: the residues modulo `p` with
      Python's `%`, and inverses from the absolute-value Euclid. It fails with
      `ValueError` when some residue shares a factor with `p`, and with the
      constructor's assertion when `p < 2`; so it succeeds exactly for primes,
      and then builds the same tables as `FiniteField.modulo(p)`. */
  method IntegerField(p: int) returns (res: Result<LegacyFiniteField<int>, FiniteFields.ModuloError>)
    ensures res.Err? <==> !IsPrime(p)
    ensures res.Err? ==> res.error == if p < 2 then FiniteFields.AssertionFailed else FiniteFields.NotPrime
    ensures res.Ok? ==> && fresh(res.value) && res.value.Valid()
                        && InverseTable(p, res.value.inverseTable)
                        && res.value.Contents() == ModTables(p, res.value.inverseTable)
                        && IsField(res.value.Contents())
  {
    var inverses := IntegerInverses(p);
    if inverses.Err? {
      return Err(inverses.error);
    }
    if p < 2 {
      return Err(FiniteFields.AssertionFailed);
    }
    var inverse := inverses.value;
    var ff := new LegacyFiniteField(AllMod(p), 0, 1, AddTable(p), NegTable(p), MulTable(p), inverse);
    ModTablesAreField(p, inverse);
    res := Ok(ff);
  }

  /** The loop of `integer_field` that fills `inverse`, in the set's order. */
  method IntegerInverses(p: int) returns (res: Result<map<int, int>, FiniteFields.ModuloError>)
    ensures res.Err? <==> p >= 2 && !IsPrime(p)
    ensures res.Err? ==> res.error == FiniteFields.NotPrime
    ensures p < 2 ==> res == Ok(map[])
    ensures res.Ok? && p >= 1 ==> InverseTable(p, res.value)
  {
    var inverse, failed := FillInverses(p);
    if failed {
      return Err(FiniteFields.NotPrime);
    }
    FiniteFields.InversesComplete(p, inverse);
    res := Ok(inverse);
  }

  /** Runs the loop until it finishes or meets a residue without an inverse;
      `failed` says which happened. */
  method FillInverses(p: int) returns (inverse: map<int, int>, failed: bool)
    ensures failed ==> p >= 2 && !IsPrime(p)
    ensures !failed ==> inverse.Keys == FiniteFields.NonZeroResidues(p) && FiniteFields.CoprimeInverses(p, inverse)
  {
    var nonZero := FiniteFields.NonZeroResidues(p);
    var rest := nonZero;
    inverse := map[];
    while rest != {}
      invariant rest <= nonZero && inverse.Keys == nonZero - rest
      invariant FiniteFields.CoprimeInverses(p, inverse)
      decreases |rest|
    {
      var a :| a in rest;
      var inv := IntegerInverse(a, p);
      if inv.Err? {
        FiniteFields.SharedFactorNotPrime(p, a);
        return inverse, true;
      }
      FiniteFields.FillStep(p, inverse, nonZero, rest, a, inv.value);
      inverse := inverse[a := inv.value];
      rest := rest - {a};
    }
    failed := false;
  }

  /** One pass of that loop: `gcd, t, s = euclides(a, p)`; the gcd is below
      `p`, so `gcd % p != 1` rejects exactly a gcd other than 1, and the
      inverse is `s % p`, the reduced coefficient of the smaller operand `a`. */
  method IntegerInverse(a: int, p: int) returns (res: Result<int, FiniteFields.ModuloError>)
    requires 1 <= a < p
    ensures res.Ok? <==> Gcd(p, a) == 1
    ensures res.Err? ==> res.error == FiniteFields.NotPrime
    ensures res.Ok? ==> 0 <= res.value < p && Mod(a * res.value, p) == 1
  {
    var gcd, t, s := EuclidAbs.Euclides(a, p);
    IntegerStep(p, a, gcd, t, s);
    if Mod(gcd, p) != 1 {
      return Err(FiniteFields.NotPrime);
    }
    res := Ok(Mod(s, p));
  }

  /** What `integer_field` concludes from one run of the absolute-value Euclid. */
  lemma IntegerStep(p: int, a: int, d: int, t: int, s: int)
    requires 1 <= a < p
    requires d == t * EuclidAbs.Max(Abs(a), Abs(p)) + s * EuclidAbs.Min(Abs(a), Abs(p))
    requires d == Gcd(Abs(a), Abs(p))
    ensures Mod(d, p) == 1 <==> Gcd(p, a) == 1
    ensures Gcd(p, a) == 1 ==> 0 <= Mod(s, p) < p && Mod(a * Mod(s, p), p) == 1
  {
    GcdSymmetric(a, p);
    GcdPositive(p, a);
    GcdIsGcd(p, a);
    DivisorAtMost(d, a);
    ModOfResidue(d, p);
    if d == 1 {
      FiniteFields.CoprimeInverse(p, a, t, s);
    }
  }

  /** `@memoize` on `integer_field`: a dictionary from `p` to the field built
      for it. Only successful calls are stored (an exception leaves before the
      store), and a repeated call hands back the very object stored, so a
      change a caller makes to its tables is seen by every later caller. */
  class IntegerFieldCache {
    var cache: map<int, LegacyFiniteField<int>>

    /** Every stored modulus is prime. */
    ghost predicate Valid()
      reads this
    {
      forall p :: p in cache ==> IsPrime(p)
    }

    constructor()
      ensures Valid() && cache == map[]
    {
      cache := map[];
    }

    method Call(p: int) returns (res: Result<LegacyFiniteField<int>, FiniteFields.ModuloError>)
      requires Valid()
      modifies this
      ensures Valid()
      ensures p in old(cache) ==> res == Ok(old(cache)[p]) && cache == old(cache)
      ensures p !in old(cache) && res.Ok? ==> fresh(res.value) && cache == old(cache)[p := res.value]
      ensures p !in old(cache) && res.Err? ==> cache == old(cache)
      ensures res.Err? <==> !IsPrime(p)
      ensures p !in old(cache) && res.Ok? ==> IsField(res.value.Contents())
    {
      if p in cache {
        return Ok(cache[p]);
      }
      res := IntegerField(p);
      if res.Ok? {
        cache := cache[p := res.value];
      }
    }
  }
}
