/**
 * The finite field of coding/fields/finite.py: an element set, two
 * identities and four lookup tables that the object keeps as mutable fields,
 * the nine-law `check`, and `modulo(p)`, which builds the integers modulo p
 * and finds inverses with Euclid's algorithm.
 */
module FiniteFields {
  import opened Wrappers
  import opened Integers
  import opened NumberTheory
  import opened FieldLaws
  import Euclid

  /** Why `modulo(p)` fails: the constructor's assertion (`p < 2`) or the
      `ValueError` for a residue that shares a factor with `p`. */
  datatype ModuloError = AssertionFailed | NotPrime

  class FiniteField<T(==)> {
    const numbers: set<T>
    const zero: T
    const one: T
    var addTable: map<(T, T), T>
    var negTable: map<T, T>
    var mulTable: map<(T, T), T>
    var invTable: map<T, T>

    /** The constructor's three assertions, which every object keeps. */
    ghost predicate Valid()
    {
      zero in numbers && one in numbers && zero != one
    }

    /** The field's current tables as a value. */
    function Contents(): Tables<T>
      reads this
    {
      Tables(numbers, zero, one, addTable, negTable, mulTable, invTable)
    }

    constructor(numbers: set<T>, zero: T, one: T,
                add: map<(T, T), T>, neg: map<T, T>, mul: map<(T, T), T>, inv: map<T, T>)
      requires zero in numbers && one in numbers && one != zero
      ensures Valid()
      ensures Contents() == Tables(numbers, zero, one, add, neg, mul, inv)
    {
      this.numbers := numbers;
      this.zero := zero;
      this.one := one;
      addTable := add;
      negTable := neg;
      mulTable := mul;
      invTable := inv;
    }

    /** `add(x, y)`: a lookup, which lands in the field when its tables are closed. */
    function Add(x: T, y: T): (r: T)
      reads this
      requires (x, y) in addTable
      ensures Closed(Contents()) ==> r in numbers
    {
      addTable[(x, y)]
    }

    function Neg(x: T): (r: T)
      reads this
      requires x in negTable
      ensures Closed(Contents()) ==> r in numbers
    {
      negTable[x]
    }

    function Mul(x: T, y: T): (r: T)
      reads this
      requires (x, y) in mulTable
      ensures Closed(Contents()) ==> r in numbers
    {
      mulTable[(x, y)]
    }

    /** `inv(x)`; zero has no entry in a table built by `modulo`. */
    function Inv(x: T): (r: T)
      reads this
      requires x in invTable
      ensures Closed(Contents()) ==> r in numbers
    {
      invTable[x]
    }

    /** `item in field`. */
    predicate Contains(item: T)
    {
      item in numbers
    }

    /** `len(field)`. */
    function Len(): nat
    {
      |numbers|
    }

    /** `iter(field)`: zero, then one, then every other element once, in an
        order the set does not fix. */
    method Elements() returns (xs: seq<T>)
      requires Valid()
      ensures |xs| >= 2 && xs[0] == zero && xs[1] == one
      ensures forall i, j :: 0 <= i < j < |xs| ==> xs[i] != xs[j]
      ensures forall x :: x in xs <==> x in numbers
      ensures |xs| == Len()
    {
      xs := [zero, one];
      var rest := numbers - {zero, one};
      assert |rest| == |numbers| - 2 by {
        assert numbers == rest + {zero, one};
      }
      while rest != {}
        invariant |xs| >= 2 && xs[0] == zero && xs[1] == one
        invariant forall i, j :: 0 <= i < j < |xs| ==> xs[i] != xs[j]
        invariant rest <= numbers
        invariant forall x :: x in xs <==> x in numbers && x !in rest
        invariant |xs| + |rest| == |numbers|
        decreases |rest|
      {
        var x :| x in rest;
        xs := xs + [x];
        rest := rest - {x};
      }
    }

    /** `check()`: runs all nine `check_*` predicates on the current tables. */
    method Check() returns (ok: bool, failed: seq<Law>)
      requires WellFormed(Contents())
      ensures ok <==> IsField(Contents())
      ensures forall law :: law in failed <==> !Holds(Contents(), law)
    {
      ok, failed := CheckLaws(Contents());
    }

    /** The tests' `ff._add[(x, y)] = v`: one entry of the addition table
        is overwritten. Doing so to a field, off the diagonal and with a
        different element, makes `check()` false. */
    method SetAdd(x: T, y: T, v: T)
      modifies this
      ensures addTable == old(addTable)[(x, y) := v]
      ensures negTable == old(negTable) && mulTable == old(mulTable) && invTable == old(invTable)
      ensures old(IsFieldChange(x, y, v, true)) ==> WellFormed(Contents()) && !IsField(Contents())
    {
      if IsFieldChange(x, y, v, true) {
        ChangedAddBreaksField(Contents(), x, y, v);
      }
      addTable := addTable[(x, y) := v];
    }

    /** The tests' `ff._mul[(x, y)] = v`, which breaks a field the same way. */
    method SetMul(x: T, y: T, v: T)
      modifies this
      ensures mulTable == old(mulTable)[(x, y) := v]
      ensures addTable == old(addTable) && negTable == old(negTable) && invTable == old(invTable)
      ensures old(IsFieldChange(x, y, v, false)) ==> WellFormed(Contents()) && !IsField(Contents())
    {
      if IsFieldChange(x, y, v, false) {
        ChangedMulBreaksField(Contents(), x, y, v);
      }
      mulTable := mulTable[(x, y) := v];
    }

    /** The object is a field, and `v` would replace the entry at `(x, y)`, off
        the diagonal, of the addition (`onAdd`) or multiplication table by a
        different element. */
    ghost predicate IsFieldChange(x: T, y: T, v: T, onAdd: bool)
      reads this
    {
      && IsField(Contents()) && x in numbers && y in numbers && x != y && v in numbers
      && v != (if onAdd then addTable[(x, y)] else mulTable[(x, y)])
    }
  }

  /** `FiniteField.modulo(p)` over the integers: the residues `0 <= a < p`
      with addition, negation and multiplication modulo p, and for every
      non-zero residue the inverse read off Euclid's Bezout coefficient.
      It fails exactly when `p` is not prime. */
  method Modulo(p: int) returns (res: Result<FiniteField<int>, ModuloError>)
    ensures res.Err? <==> !IsPrime(p)
    ensures res.Err? ==> res.error == if p < 2 then AssertionFailed else NotPrime
    ensures res.Ok? ==> && fresh(res.value) && res.value.Valid()
                        && InverseTable(p, res.value.invTable)
                        && res.value.Contents() == ModTables(p, res.value.invTable)
                        && IsField(res.value.Contents())
  {
    var inverses := ModularInverses(p);
    if inverses.Err? {
      return Err(inverses.error);
    }
    if p < 2 {
      return Err(AssertionFailed);
    }
    var inv := inverses.value;
    var ff := new FiniteField(AllMod(p), 0, 1, AddTable(p), NegTable(p), MulTable(p), inv);
    ModTablesAreField(p, inv);
    res := Ok(ff);
  }

  /** The loop of `modulo` that fills `inv`: each non-zero residue, in the
      set's order, is run through Euclid with `p`; the first one whose reduced
      gcd is not 1 raises `ValueError`, otherwise its inverse is the reduced
      coefficient of `a`. With fewer than two residues nothing happens. */
  method ModularInverses(p: int) returns (res: Result<map<int, int>, ModuloError>)
    ensures res.Err? <==> p >= 2 && !IsPrime(p)
    ensures res.Err? ==> res.error == NotPrime
    ensures p < 2 ==> res == Ok(map[])
    ensures res.Ok? && p >= 1 ==> InverseTable(p, res.value)
  {
    var inv, failed := FillInverses(p);
    if failed {
      return Err(NotPrime);
    }
    InversesComplete(p, inv);
    res := Ok(inv);
  }

  /** Runs the loop until it finishes or meets a residue without an inverse;
      `failed` says which happened. */
  method FillInverses(p: int) returns (inv: map<int, int>, failed: bool)
    ensures failed ==> p >= 2 && !IsPrime(p)
    ensures !failed ==> inv.Keys == NonZeroResidues(p) && CoprimeInverses(p, inv)
  {
    var nonZero := NonZeroResidues(p);
    var rest := nonZero;
    inv := map[];
    while rest != {}
      invariant rest <= nonZero && inv.Keys == nonZero - rest
      invariant CoprimeInverses(p, inv)
      decreases |rest|
    {
      var a :| a in rest;
      var inverse := InverseModulo(a, p);
      if inverse.Err? {
        SharedFactorNotPrime(p, a);
        return inv, true;
      }
      FillStep(p, inv, nonZero, rest, a, inverse.value);
      inv := inv[a := inverse.value];
      rest := rest - {a};
    }
    failed := false;
  }

  /** One pass of the loop: Euclid on `(a, p)`, its result reduced modulo p,
      and either the `ValueError` or the reduced coefficient of `a`. */
  method InverseModulo(a: int, p: int) returns (res: Result<int, ModuloError>)
    requires 1 <= a < p
    ensures res.Ok? <==> Gcd(p, a) == 1
    ensures res.Err? ==> res.error == NotPrime
    ensures res.Ok? ==> 0 <= res.value < p && Mod(a * res.value, p) == 1
  {
    var gcd, s, t := Euclid.Euclides(a, p);
    ModuloStep(p, a, gcd, s, t);
    gcd := Mod(gcd, p);
    if Key(gcd) != 1 {
      return Err(NotPrime);
    }
    res := Ok(Mod(t, p));
  }

  lemma SharedFactorNotPrime(p: int, a: int)
    requires 1 <= a < p && Gcd(p, a) != 1
    ensures !IsPrime(p)
  {
    PrimeIffCoprime(p);
  }

  /** The residues the loop visits: `all_mod(p)` without zero. */
  function NonZeroResidues(p: int): (s: set<int>)
    ensures forall a :: a in s <==> 1 <= a < p
  {
    AllMod(p) - {0}
  }

  /** What the loop has gathered so far: residues coprime to `p`, each with
      its inverse modulo `p`. */
  ghost predicate CoprimeInverses(p: int, inv: map<int, int>)
  {
    forall a :: a in inv ==> 1 <= a < p && 0 <= inv[a] < p && Mod(a * inv[a], p) == 1 && Gcd(p, a) == 1
  }

  /** Recording one more inverse keeps the table's meaning. */
  lemma CoprimeInversesAdd(p: int, inv: map<int, int>, a: int, x: int)
    requires CoprimeInverses(p, inv)
    requires 1 <= a < p && 0 <= x < p && Mod(a * x, p) == 1 && Gcd(p, a) == 1
    ensures CoprimeInverses(p, inv[a := x])
  {
  }

  /** Moving `a` from the residues still to visit to the visited ones. */
  /** One round of the inverse loop: recording `a`'s inverse keeps the loop's
      invariants and shrinks the residues left to visit. */
  lemma FillStep(p: int, inv: map<int, int>, all: set<int>, rest: set<int>, a: int, x: int)
    requires rest <= all && inv.Keys == all - rest && CoprimeInverses(p, inv)
    requires a in rest
    requires 1 <= a < p && 0 <= x < p && Mod(a * x, p) == 1 && Gcd(p, a) == 1
    ensures rest - {a} <= all && inv[a := x].Keys == all - (rest - {a})
    ensures CoprimeInverses(p, inv[a := x])
    ensures |rest - {a}| < |rest|
  {
    CoprimeInversesAdd(p, inv, a, x);
    VisitStep(inv.Keys, all, rest, a);
  }

  lemma VisitStep(visited: set<int>, all: set<int>, rest: set<int>, a: int)
    requires a in rest && rest <= all && visited == all - rest
    ensures rest - {a} <= all && visited + {a} == all - (rest - {a})
    ensures |rest - {a}| < |rest|
  {
  }

  /** A finished inverse table: every non-zero residue has its inverse, so
      `p` is prime when it is at least 2, and there is nothing to invert below 2. */
  lemma InversesComplete(p: int, inv: map<int, int>)
    requires inv.Keys == NonZeroResidues(p) && CoprimeInverses(p, inv)
    ensures p >= 1 ==> InverseTable(p, inv)
    ensures p >= 2 ==> IsPrime(p)
    ensures p < 2 ==> inv == map[]
  {
    if p >= 2 {
      CoprimeToAllIsPrime(p, inv);
    } else {
      assert inv.Keys == {};
    }
  }

  lemma CoprimeToAllIsPrime(p: int, inv: map<int, int>)
    requires p >= 2 && inv.Keys == AllMod(p) - {0}
    requires forall a :: a in inv ==> Gcd(p, a) == 1
    ensures IsPrime(p)
  {
    PrimeIffCoprime(p);
    forall a | 1 <= a < p
      ensures Gcd(p, a) == 1
    {
      assert a in AllMod(p) - {0};
    }
  }

  /** What `modulo` concludes from one run of Euclid on `(a, p)`: the reduced
      result is 1 exactly when `a` and `p` are coprime, and then the
      coefficient of `a`, reduced, is an inverse of `a`. */
  lemma ModuloStep(p: int, a: int, d: int, s: int, t: int)
    requires 1 <= a < p
    requires d == s * Euclid.Larger(a, p) + t * Euclid.Smaller(a, p)
    requires var g := Euclid.LastRemainder(Euclid.Larger(a, p), Euclid.Smaller(a, p));
             d == if g == One then g else Integers.Neg(g)
    ensures Key(Mod(d, p)) == 1 <==> Gcd(p, a) == 1
    ensures Gcd(p, a) == 1 ==> 0 <= Mod(t, p) < p && Mod(a * Mod(t, p), p) == 1
  {
    Euclid.EuclidesOfNaturals(a, p);
    if Gcd(p, a) == 1 {
      CoprimeInverse(p, a, s, t);
    } else {
      SharedFactor(p, a);
    }
  }

  /** From `1 == s*p + t*a`, the coefficient of `a` reduced modulo p is an inverse of `a`. */
  lemma CoprimeInverse(p: int, a: int, s: int, t: int)
    requires 1 <= a < p && 1 == s * p + t * a
    ensures Mod(1, p) == 1 && Mod(a * Mod(t, p), p) == 1
  {
    ModOfResidue(1, p);
    var m := Mod(t, p);
    assert Mod(a * m, p) == Mod(t * a, p) by {
      ModMulLeft(t, a, p);
      assert m * a == a * m;
    }
    assert Mod(t * a, p) == 1 by {
      assert t * a == 1 + (-s) * p;
      ModAddMultiple(1, -s, p);
    }
  }

  /** A gcd `g >= 2` of `p` and a smaller `a` leaves `-g mod p == p - g`, which is not 1. */
  lemma SharedFactor(p: int, a: int)
    requires 1 <= a < p && Gcd(p, a) != 1
    ensures Mod(-(Gcd(p, a) as int), p) != 1
  {
    var g: int := Gcd(p, a);
    GcdIsGcd(p, a);
    GcdPositive(p, a);
    DivisorAtMost(g, a);
    DivModUnique(-g, p, -1, p - g);
    if p - g == 1 {
      DividesRefl(g);
      DividesShift(g, p, g, 1);
      DivisorAtMost(g, 1);
    }
  }
}
