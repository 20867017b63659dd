/**
 * The nine field axioms that `FiniteField.check` tests exhaustively
 * (coding/fields/finite.py and coding/fields.py), stated over the explicit
 * operation tables of a finite field, and the tables of the integers modulo p
 * that `modulo(p)` and `integer_field(p)` build.
 */
module FieldLaws {
  import opened Integers
  import opened NumberTheory

  /** One `check_*` predicate each. */
  datatype Law =
    | AddAssoc | AddComm | AddNeutral | AddNegate
    | MulAssoc | MulComm | MulNeutral | MulInverse
    | Distributive

  /** The laws in the order the class declares its `check_*` members. */
  function AllLaws(): (laws: seq<Law>)
    ensures |laws| == 9
    ensures forall i, j :: 0 <= i < j < |laws| ==> laws[i] != laws[j]
  {
    [AddAssoc, AddComm, AddNeutral, AddNegate, MulAssoc, MulComm, MulNeutral, MulInverse, Distributive]
  }

  lemma AllLawsComplete(law: Law)
    ensures law in AllLaws()
  {
    match law
    case AddAssoc => assert AllLaws()[0] == law;
    case AddComm => assert AllLaws()[1] == law;
    case AddNeutral => assert AllLaws()[2] == law;
    case AddNegate => assert AllLaws()[3] == law;
    case MulAssoc => assert AllLaws()[4] == law;
    case MulComm => assert AllLaws()[5] == law;
    case MulNeutral => assert AllLaws()[6] == law;
    case MulInverse => assert AllLaws()[7] == law;
    case Distributive => assert AllLaws()[8] == law;
  }

  /** The element set, the two identities and the four lookup tables. */
  datatype Tables<T> = Tables(
    numbers: set<T>, zero: T, one: T,
    add: map<(T, T), T>, neg: map<T, T>, mul: map<(T, T), T>, inv: map<T, T>)

  /** Every lookup the checks perform is defined and stays inside the element set. */
  ghost predicate WellFormed<T>(tb: Tables<T>)
  {
    Total(tb) && Closed(tb)
  }

  /** The identities are distinct elements and every table has an entry for
      every (non-zero, for `inv`) element or pair of elements. */
  ghost predicate Total<T>(tb: Tables<T>)
  {
    && tb.zero in tb.numbers && tb.one in tb.numbers && tb.zero != tb.one
    && (forall a, b {:trigger (a, b) in tb.add} :: a in tb.numbers && b in tb.numbers ==> (a, b) in tb.add)
    && (forall a, b {:trigger (a, b) in tb.mul} :: a in tb.numbers && b in tb.numbers ==> (a, b) in tb.mul)
    && (forall a {:trigger a in tb.neg} :: a in tb.numbers ==> a in tb.neg)
    && (forall a {:trigger a in tb.inv} :: a in tb.numbers && a != tb.zero ==> a in tb.inv)
  }

  /** Every table entry is an element. */
  ghost predicate Closed<T>(tb: Tables<T>)
  {
    && (forall k {:trigger tb.add[k]} :: k in tb.add ==> tb.add[k] in tb.numbers)
    && (forall k {:trigger tb.mul[k]} :: k in tb.mul ==> tb.mul[k] in tb.numbers)
    && (forall a {:trigger tb.neg[a]} :: a in tb.neg ==> tb.neg[a] in tb.numbers)
    && (forall a {:trigger tb.inv[a]} :: a in tb.inv ==> tb.inv[a] in tb.numbers)
  }

  /** The `check_*` predicate for `law`, quantified over all elements. */
  predicate Holds<T(==)>(tb: Tables<T>, law: Law)
    requires WellFormed(tb)
  {
    var N := tb.numbers;
    match law
    case AddAssoc =>
      forall a, b, c {:trigger tb.add[(tb.add[(a, b)], c)]} | a in N && b in N && c in N ::
        tb.add[(tb.add[(a, b)], c)] == tb.add[(a, tb.add[(b, c)])]
    case AddComm =>
      forall a, b {:trigger tb.add[(a, b)]} | a in N && b in N :: tb.add[(a, b)] == tb.add[(b, a)]
    case AddNeutral =>
      forall a {:trigger tb.add[(tb.zero, a)]} | a in N :: tb.add[(tb.zero, a)] == a
    case AddNegate =>
      forall a {:trigger tb.neg[a]} | a in N :: tb.add[(a, tb.neg[a])] == tb.zero
    case MulAssoc =>
      forall a, b, c {:trigger tb.mul[(tb.mul[(a, b)], c)]} | a in N && b in N && c in N ::
        tb.mul[(tb.mul[(a, b)], c)] == tb.mul[(a, tb.mul[(b, c)])]
    case MulComm =>
      forall a, b {:trigger tb.mul[(a, b)]} | a in N && b in N :: tb.mul[(a, b)] == tb.mul[(b, a)]
    case MulNeutral =>
      forall a {:trigger tb.mul[(tb.one, a)]} | a in N :: tb.mul[(tb.one, a)] == a
    case MulInverse =>
      forall a {:trigger tb.inv[a]} | a in N && a != tb.zero :: tb.mul[(a, tb.inv[a])] == tb.one
    case Distributive =>
      forall a, b, c {:trigger tb.mul[(tb.add[(a, b)], c)]} | a in N && b in N && c in N ::
        tb.mul[(tb.add[(a, b)], c)] == tb.add[(tb.mul[(a, c)], tb.mul[(b, c)])]
  }

  ghost predicate IsField<T>(tb: Tables<T>)
  {
    WellFormed(tb) && forall law :: Holds(tb, law)
  }

  /** `check()`: evaluates every law in turn, without stopping at a failure,
      and reports the ones that do not hold (whose descriptions the source
      prints). */
  method CheckLaws<T(==)>(tb: Tables<T>) returns (ok: bool, failed: seq<Law>)
    requires WellFormed(tb)
    ensures ok <==> IsField(tb)
    ensures forall law :: law in failed <==> !Holds(tb, law)
  {
    ok, failed := true, [];
    var laws := AllLaws();
    var i := 0;
    while i < |laws|
      invariant 0 <= i <= |laws|
      invariant forall law :: law in failed <==> law in laws[..i] && !Holds(tb, law)
      invariant ok <==> failed == []
    {
      if !Holds(tb, laws[i]) {
        failed := failed + [laws[i]];
        ok := false;
      }
      i := i + 1;
    }
    assert laws[..i] == laws;
    if ok {
      forall law
        ensures Holds(tb, law)
      {
        AllLawsComplete(law);
      }
    } else {
      assert failed[0] in failed;
    }
  }

  /** Overwriting one off-diagonal entry of the addition table with a different
      element breaks commutativity of addition. */
  lemma ChangedAddBreaksField<T>(tb: Tables<T>, x: T, y: T, v: T)
    requires IsField(tb)
    requires x in tb.numbers && y in tb.numbers && x != y && v in tb.numbers
    requires v != tb.add[(x, y)]
    ensures WellFormed(tb.(add := tb.add[(x, y) := v]))
    ensures !Holds(tb.(add := tb.add[(x, y) := v]), AddComm)
  {
    var tb' := tb.(add := tb.add[(x, y) := v]);
    assert Holds(tb, AddComm);
    assert tb'.add[(x, y)] != tb'.add[(y, x)];
  }

  /** Overwriting one off-diagonal entry of the multiplication table with a
      different element breaks commutativity of multiplication. */
  lemma ChangedMulBreaksField<T>(tb: Tables<T>, x: T, y: T, v: T)
    requires IsField(tb)
    requires x in tb.numbers && y in tb.numbers && x != y && v in tb.numbers
    requires v != tb.mul[(x, y)]
    ensures WellFormed(tb.(mul := tb.mul[(x, y) := v]))
    ensures !Holds(tb.(mul := tb.mul[(x, y) := v]), MulComm)
  {
    var tb' := tb.(mul := tb.mul[(x, y) := v]);
    assert Holds(tb, MulComm);
    assert tb'.mul[(x, y)] != tb'.mul[(y, x)];
  }

  // The integers modulo p ...............................................

  /** The pairs `(a, b)` with `b` a residue below `n`. */
  function Row(a: int, n: int): (s: set<(int, int)>)
    ensures forall k :: k in s <==> k.0 == a && 0 <= k.1 < n
    decreases n
  {
    if n <= 0 then {} else Row(a, n - 1) + {(a, n - 1)}
  }

  /** `product(all_mod(m), all_mod(n))` as a set of pairs. */
  function Grid(m: int, n: int): (s: set<(int, int)>)
    ensures forall k :: k in s <==> 0 <= k.0 < m && 0 <= k.1 < n
    decreases m
  {
    if m <= 0 then {} else Grid(m - 1, n) + Row(m - 1, n)
  }

  /** `{(a, b): (a + b) mod p for a, b in product(numbers, numbers)}`,
      with `numbers == all_mod(p)`, the residues `0 <= a < p`. */
  function AddTable(p: int): (t: map<(int, int), int>)
    requires p >= 1
    ensures forall k :: k in t <==> 0 <= k.0 < p && 0 <= k.1 < p
    ensures forall k :: k in t ==> 0 <= t[k] < p
  {
    map k | k in Grid(p, p) :: Mod(k.0 + k.1, p)
  }

  /** `{(a, b): (a * b) mod p for a, b in product(numbers, numbers)}`. */
  function MulTable(p: int): (t: map<(int, int), int>)
    requires p >= 1
    ensures forall k :: k in t <==> 0 <= k.0 < p && 0 <= k.1 < p
    ensures forall k :: k in t ==> 0 <= t[k] < p
  {
    map k | k in Grid(p, p) :: Mod(k.0 * k.1, p)
  }

  /** `{a: (-a) mod p for a in numbers}`. */
  function NegTable(p: int): (t: map<int, int>)
    requires p >= 1
    ensures forall a :: a in t <==> 0 <= a < p
    ensures forall a :: a in t ==> 0 <= t[a] < p
  {
    map a | a in AllMod(p) :: Mod(-a, p)
  }

  /** `inv` maps every non-zero residue to a residue that it multiplies to 1. */
  ghost predicate InverseTable(p: int, inv: map<int, int>)
    requires p >= 1
  {
    && inv.Keys == AllMod(p) - {0}
    && forall a :: a in inv ==> 0 <= inv[a] < p && Mod(a * inv[a], p) == 1
  }

  function ModTables(p: int, inv: map<int, int>): Tables<int>
    requires p >= 1
  {
    Tables(AllMod(p), 0, 1, AddTable(p), NegTable(p), MulTable(p), inv)
  }

  lemma ModOfResidue(a: int, p: int)
    requires 0 <= a < p
    ensures Mod(a, p) == a
  {
    DivModUnique(a, p, 0, a);
  }

  lemma AddAt(p: int, a: int, b: int)
    requires p >= 1 && 0 <= a < p && 0 <= b < p
    ensures (a, b) in AddTable(p) && AddTable(p)[(a, b)] == Mod(a + b, p)
  {
  }

  lemma MulAt(p: int, a: int, b: int)
    requires p >= 1 && 0 <= a < p && 0 <= b < p
    ensures (a, b) in MulTable(p) && MulTable(p)[(a, b)] == Mod(a * b, p)
  {
  }

  lemma NegAt(p: int, a: int)
    requires p >= 1 && 0 <= a < p
    ensures a in NegTable(p) && NegTable(p)[a] == Mod(-a, p)
  {
    assert a in AllMod(p);
  }

  /** The modular tables are total and closed over the residues. */
  lemma ModTablesWellFormed(p: int, inv: map<int, int>)
    requires p >= 2 && InverseTable(p, inv)
    ensures WellFormed(ModTables(p, inv))
  {
    ModTablesTotal(p, inv);
    ModTablesClosed(p, inv);
  }

  lemma ModTablesTotal(p: int, inv: map<int, int>)
    requires p >= 2 && InverseTable(p, inv)
    ensures Total(ModTables(p, inv))
  {
    assert 0 in AllMod(p) && 1 in AllMod(p);
    forall a | a in AllMod(p) && a != 0
      ensures a in inv
    {
      assert a in AllMod(p) - {0};
    }
  }

  lemma ModTablesClosed(p: int, inv: map<int, int>)
    requires p >= 2 && InverseTable(p, inv)
    ensures Closed(ModTables(p, inv))
  {
  }

  lemma ModAddAssoc(p: int, a: int, b: int, c: int)
    requires p >= 1
    ensures Mod(Mod(a + b, p) + c, p) == Mod(a + Mod(b + c, p), p)
  {
    var bc := Mod(b + c, p);
    ModAddLeft(a + b, c, p);
    ModAddLeft(b + c, a, p);
    assert a + bc == bc + a;
    assert (b + c) + a == (a + b) + c;
  }

  lemma ModMulAssoc(p: int, a: int, b: int, c: int)
    requires p >= 1
    ensures Mod(Mod(a * b, p) * c, p) == Mod(a * Mod(b * c, p), p)
  {
    var ab, bc := a * b, b * c;
    var m := Mod(bc, p);
    ModMulLeft(ab, c, p);
    ModMulLeft(bc, a, p);
    MulRotate(a, b, c);
    assert a * m == m * a;
  }

  lemma MulRotate(a: int, b: int, c: int)
    ensures (a * b) * c == (b * c) * a
  {
  }

  lemma ModDistributive(p: int, a: int, b: int, c: int)
    requires p >= 1
    ensures Mod(Mod(a + b, p) * c, p) == Mod(Mod(a * c, p) + Mod(b * c, p), p)
  {
    ModMulLeft(a + b, c, p);
    ModAddBoth(a * c, b * c, p);
    assert (a + b) * c == a * c + b * c;
  }

  lemma ModNeutralNegate(p: int, a: int)
    requires p >= 1 && 0 <= a < p
    ensures Mod(0 + a, p) == a && Mod(1 * a, p) == a
    ensures Mod(a + Mod(-a, p), p) == 0
  {
    ModOfResidue(a, p);
    ModAddLeft(-a, a, p);
    DivModUnique(0, p, 0, 0);
  }

  /** The integers modulo p, with any table of inverses, satisfy all nine laws. */
  lemma ModTablesAreField(p: int, inv: map<int, int>)
    requires p >= 2 && InverseTable(p, inv)
    ensures IsField(ModTables(p, inv))
  {
    ModTablesWellFormed(p, inv);
    forall law
      ensures Holds(ModTables(p, inv), law)
    {
      ModLawHolds(p, inv, law);
    }
  }

  lemma ModLawHolds(p: int, inv: map<int, int>, law: Law)
    requires p >= 2 && InverseTable(p, inv)
    requires WellFormed(ModTables(p, inv))
    ensures Holds(ModTables(p, inv), law)
  {
    match law
    case AddAssoc => ModAddAssocHolds(p, inv);
    case MulAssoc => ModMulAssocHolds(p, inv);
    case Distributive => ModDistributiveHolds(p, inv);
    case AddComm => ModAddCommHolds(p, inv);
    case MulComm => ModMulCommHolds(p, inv);
    case AddNeutral => ModAddNeutralHolds(p, inv);
    case MulNeutral => ModMulNeutralHolds(p, inv);
    case AddNegate => ModAddNegateHolds(p, inv);
    case MulInverse => ModMulInverseHolds(p, inv);
  }

  lemma ModAddAssocHolds(p: int, inv: map<int, int>)
    requires p >= 2 && InverseTable(p, inv) && WellFormed(ModTables(p, inv))
    ensures Holds(ModTables(p, inv), AddAssoc)
  {
    var tb := ModTables(p, inv);
    forall a, b, c | a in tb.numbers && b in tb.numbers && c in tb.numbers
      ensures tb.add[(tb.add[(a, b)], c)] == tb.add[(a, tb.add[(b, c)])]
    {
      AddAssocAt(p, a, b, c);
    }
  }

  lemma ModMulAssocHolds(p: int, inv: map<int, int>)
    requires p >= 2 && InverseTable(p, inv) && WellFormed(ModTables(p, inv))
    ensures Holds(ModTables(p, inv), MulAssoc)
  {
    var tb := ModTables(p, inv);
    forall a, b, c | a in tb.numbers && b in tb.numbers && c in tb.numbers
      ensures tb.mul[(tb.mul[(a, b)], c)] == tb.mul[(a, tb.mul[(b, c)])]
    {
      MulAssocAt(p, a, b, c);
    }
  }

  lemma ModDistributiveHolds(p: int, inv: map<int, int>)
    requires p >= 2 && InverseTable(p, inv) && WellFormed(ModTables(p, inv))
    ensures Holds(ModTables(p, inv), Distributive)
  {
    var tb := ModTables(p, inv);
    forall a, b, c | a in tb.numbers && b in tb.numbers && c in tb.numbers
      ensures tb.mul[(tb.add[(a, b)], c)] == tb.add[(tb.mul[(a, c)], tb.mul[(b, c)])]
    {
      DistributiveAt(p, a, b, c);
    }
  }

  lemma ModAddCommHolds(p: int, inv: map<int, int>)
    requires p >= 2 && InverseTable(p, inv) && WellFormed(ModTables(p, inv))
    ensures Holds(ModTables(p, inv), AddComm)
  {
    var tb := ModTables(p, inv);
    forall a, b | a in tb.numbers && b in tb.numbers
      ensures tb.add[(a, b)] == tb.add[(b, a)]
    {
      AddAt(p, a, b);
      AddAt(p, b, a);
      assert a + b == b + a;
    }
  }

  lemma ModMulCommHolds(p: int, inv: map<int, int>)
    requires p >= 2 && InverseTable(p, inv) && WellFormed(ModTables(p, inv))
    ensures Holds(ModTables(p, inv), MulComm)
  {
    var tb := ModTables(p, inv);
    forall a, b | a in tb.numbers && b in tb.numbers
      ensures tb.mul[(a, b)] == tb.mul[(b, a)]
    {
      MulAt(p, a, b);
      MulAt(p, b, a);
      assert a * b == b * a;
    }
  }

  lemma ModAddNeutralHolds(p: int, inv: map<int, int>)
    requires p >= 2 && InverseTable(p, inv) && WellFormed(ModTables(p, inv))
    ensures Holds(ModTables(p, inv), AddNeutral)
  {
    var tb := ModTables(p, inv);
    forall a | a in tb.numbers
      ensures tb.add[(0, a)] == a
    {
      AddAt(p, 0, a);
      ModOfResidue(a, p);
    }
  }

  lemma ModMulNeutralHolds(p: int, inv: map<int, int>)
    requires p >= 2 && InverseTable(p, inv) && WellFormed(ModTables(p, inv))
    ensures Holds(ModTables(p, inv), MulNeutral)
  {
    var tb := ModTables(p, inv);
    forall a | a in tb.numbers
      ensures tb.mul[(1, a)] == a
    {
      MulAt(p, 1, a);
      ModOfResidue(a, p);
    }
  }

  lemma ModAddNegateHolds(p: int, inv: map<int, int>)
    requires p >= 2 && InverseTable(p, inv) && WellFormed(ModTables(p, inv))
    ensures Holds(ModTables(p, inv), AddNegate)
  {
    var tb := ModTables(p, inv);
    forall a | a in tb.numbers
      ensures tb.add[(a, tb.neg[a])] == 0
    {
      AddNegateAt(p, a);
    }
  }

  lemma ModMulInverseHolds(p: int, inv: map<int, int>)
    requires p >= 2 && InverseTable(p, inv) && WellFormed(ModTables(p, inv))
    ensures Holds(ModTables(p, inv), MulInverse)
  {
    var tb := ModTables(p, inv);
    forall a | a in tb.numbers && a != 0
      ensures tb.mul[(a, tb.inv[a])] == 1
    {
      MulAt(p, a, inv[a]);
    }
  }

  lemma AddAssocAt(p: int, a: int, b: int, c: int)
    requires p >= 1 && 0 <= a < p && 0 <= b < p && 0 <= c < p
    ensures AddTable(p)[(AddTable(p)[(a, b)], c)] == AddTable(p)[(a, AddTable(p)[(b, c)])]
  {
    AddAt(p, a, b);
    AddAt(p, b, c);
    AddAt(p, Mod(a + b, p), c);
    AddAt(p, a, Mod(b + c, p));
    ModAddAssoc(p, a, b, c);
  }

  lemma MulAssocAt(p: int, a: int, b: int, c: int)
    requires p >= 1 && 0 <= a < p && 0 <= b < p && 0 <= c < p
    ensures MulTable(p)[(MulTable(p)[(a, b)], c)] == MulTable(p)[(a, MulTable(p)[(b, c)])]
  {
    MulAt(p, a, b);
    MulAt(p, b, c);
    MulAt(p, Mod(a * b, p), c);
    MulAt(p, a, Mod(b * c, p));
    ModMulAssoc(p, a, b, c);
  }

  lemma DistributiveAt(p: int, a: int, b: int, c: int)
    requires p >= 1 && 0 <= a < p && 0 <= b < p && 0 <= c < p
    ensures MulTable(p)[(AddTable(p)[(a, b)], c)]
         == AddTable(p)[(MulTable(p)[(a, c)], MulTable(p)[(b, c)])]
  {
    AddAt(p, a, b);
    MulAt(p, a, c);
    MulAt(p, b, c);
    MulAt(p, Mod(a + b, p), c);
    AddAt(p, Mod(a * c, p), Mod(b * c, p));
    ModDistributive(p, a, b, c);
  }

  lemma AddNegateAt(p: int, a: int)
    requires p >= 1 && 0 <= a < p
    ensures AddTable(p)[(a, NegTable(p)[a])] == 0
  {
    NegAt(p, a);
    AddAt(p, a, Mod(-a, p));
    ModNeutralNegate(p, a);
  }

  // Operations every field derives from its tables (the `Field` defaults) ..

  /** `sub(x, y) == add(x, neg(y))`: the two lookups must exist, and in a
      field adding `y` back gives `x`. */
  function Subtract<T>(tb: Tables<T>, x: T, y: T): (r: T)
    requires y in tb.neg && (x, tb.neg[y]) in tb.add
    ensures Closed(tb) ==> r in tb.numbers
    ensures IsField(tb) && x in tb.numbers && y in tb.numbers ==>
              (r, y) in tb.add && tb.add[(r, y)] == x
  {
    SubInverts(tb, x, y);
    tb.add[(x, tb.neg[y])]
  }

  /** `div(x, y) == mul(x, inv(y))`: the two lookups must exist (zero has no
      inverse), and in a field multiplying by `y` gives `x` back. */
  function Divide<T>(tb: Tables<T>, x: T, y: T): (r: T)
    requires y in tb.inv && (x, tb.inv[y]) in tb.mul
    ensures Closed(tb) ==> r in tb.numbers
    ensures IsField(tb) && x in tb.numbers && y in tb.numbers && y != tb.zero ==>
              (r, y) in tb.mul && tb.mul[(r, y)] == x
  {
    DivInverts(tb, x, y);
    tb.mul[(x, tb.inv[y])]
  }

  /** The default `mod(x, y)` as the base class writes it, `sub(x, div(x, y))`:
      in a field it is `x` less the quotient, so adding the quotient back
      gives `x` (rather than adding `quotient * y`). */
  function RemainderAsWritten<T>(tb: Tables<T>, x: T, y: T): (r: T)
    requires WellFormed(tb) && x in tb.numbers && y in tb.numbers && y != tb.zero
    ensures IsField(tb) ==> (r, Divide(tb, x, y)) in tb.add && tb.add[(r, Divide(tb, x, y))] == x
  {
    Subtract(tb, x, Divide(tb, x, y))
  }

  /** The remainder of division, `sub(x, mul(div(x, y), y))`: in a field
      every division is exact, so it is zero. */
  function Remainder<T>(tb: Tables<T>, x: T, y: T): (r: T)
    requires WellFormed(tb) && x in tb.numbers && y in tb.numbers && y != tb.zero
    ensures IsField(tb) ==> r == tb.zero
  {
    SubSelf(tb, x);
    Subtract(tb, x, tb.mul[(Divide(tb, x, y), y)])
  }

  /** The default `divmod(x, y) == (div(x, y), mod(x, y))` with the `mod` as
      written: in a field the pair is `(x / y, x - x / y)`. */
  function DivModAsWritten<T>(tb: Tables<T>, x: T, y: T): (r: (T, T))
    requires WellFormed(tb) && x in tb.numbers && y in tb.numbers && y != tb.zero
    ensures IsField(tb) ==> (r.0, y) in tb.mul && tb.mul[(r.0, y)] == x
    ensures IsField(tb) ==> (r.1, r.0) in tb.add && tb.add[(r.1, r.0)] == x
  {
    (Divide(tb, x, y), RemainderAsWritten(tb, x, y))
  }

  /** `divmod` with the remainder of division in place of the `mod` as
      written: in a field the remainder is zero and the pair recomposes its
      dividend, `add(mul(q, y), r) == x`. */
  function DivModCorrected<T>(tb: Tables<T>, x: T, y: T): (r: (T, T))
    requires WellFormed(tb) && x in tb.numbers && y in tb.numbers && y != tb.zero
    ensures IsField(tb) ==> r.1 == tb.zero
    ensures IsField(tb) ==> (r.0, y) in tb.mul && (tb.mul[(r.0, y)], r.1) in tb.add
    ensures IsField(tb) ==> tb.add[(tb.mul[(r.0, y)], r.1)] == x
  {
    AddZeroRight(tb, x);
    (Divide(tb, x, y), Remainder(tb, x, y))
  }

  /** In a field, adding the negation of `y` and then `y` gives `x` back. */
  lemma SubInverts<T>(tb: Tables<T>, x: T, y: T)
    ensures IsField(tb) && x in tb.numbers && y in tb.numbers ==>
              tb.add[(tb.add[(x, tb.neg[y])], y)] == x
  {
    if IsField(tb) && x in tb.numbers && y in tb.numbers {
      var add, ny := tb.add, tb.neg[y];
      assert Holds(tb, AddAssoc) && Holds(tb, AddComm) && Holds(tb, AddNeutral) && Holds(tb, AddNegate);
      assert add[(add[(x, ny)], y)] == add[(x, add[(ny, y)])];
      assert add[(ny, y)] == add[(y, ny)] == tb.zero;
      assert add[(x, tb.zero)] == add[(tb.zero, x)] == x;
    }
  }

  /** In a field, multiplying by the inverse of `y` and then by `y` gives `x` back. */
  lemma DivInverts<T>(tb: Tables<T>, x: T, y: T)
    ensures IsField(tb) && x in tb.numbers && y in tb.numbers && y != tb.zero ==>
              tb.mul[(tb.mul[(x, tb.inv[y])], y)] == x
  {
    if IsField(tb) && x in tb.numbers && y in tb.numbers && y != tb.zero {
      var mul, iy := tb.mul, tb.inv[y];
      assert Holds(tb, MulAssoc) && Holds(tb, MulComm) && Holds(tb, MulNeutral) && Holds(tb, MulInverse);
      assert mul[(mul[(x, iy)], y)] == mul[(x, mul[(iy, y)])];
      assert mul[(iy, y)] == mul[(y, iy)] == tb.one;
      assert mul[(x, tb.one)] == mul[(tb.one, x)] == x;
    }
  }

  /** `x - x == 0` in a field. */
  lemma SubSelf<T>(tb: Tables<T>, x: T)
    ensures IsField(tb) && x in tb.numbers ==> Subtract(tb, x, x) == tb.zero
  {
    if IsField(tb) && x in tb.numbers {
      assert Holds(tb, AddNegate);
    }
  }

  /** Zero is neutral on the right too, by commutativity. */
  lemma AddZeroRight<T>(tb: Tables<T>, x: T)
    ensures IsField(tb) && x in tb.numbers ==> tb.add[(x, tb.zero)] == x
  {
    if IsField(tb) && x in tb.numbers {
      assert Holds(tb, AddComm) && Holds(tb, AddNeutral);
      assert tb.add[(x, tb.zero)] == tb.add[(tb.zero, x)];
    }
  }

  /** The default `mod` as written does not give the remainder of division:
      modulo any p >= 3, `mod(1, 2)` is `(1 - inv(2)) mod p`, which is not
      zero (in GF(5) it is 3), whereas `DivModCorrected` shows the remainder
      of an exact division is zero. */
  lemma ModAsWrittenCounterexample(p: int, inv: map<int, int>)
    requires p >= 3 && InverseTable(p, inv)
    ensures WellFormed(ModTables(p, inv)) && 2 in inv
    ensures RemainderAsWritten(ModTables(p, inv), 1, 2) == Mod(1 - inv[2], p)
    ensures RemainderAsWritten(ModTables(p, inv), 1, 2) != 0
  {
    ModTablesWellFormed(p, inv);
    assert 2 in AllMod(p) - {0};
    var i2 := inv[2];
    AsWrittenUnfolds(ModTables(p, inv), 1, 2);
    AsWrittenAtOneTwo(p, i2);
    OneMinusHalfNonZero(p, i2);
  }

  /** The `mod` as written, spelled out as the four lookups it makes. */
  lemma AsWrittenUnfolds<T>(tb: Tables<T>, x: T, y: T)
    requires WellFormed(tb) && x in tb.numbers && y in tb.numbers && y != tb.zero
    ensures RemainderAsWritten(tb, x, y) == tb.add[(x, tb.neg[tb.mul[(x, tb.inv[y])]])]
  {
  }

  /** Those lookups in the residue tables for `mod(1, 2)`: `1 - inv(2)` reduced. */
  lemma AsWrittenAtOneTwo(p: int, i2: int)
    requires p >= 3 && 0 <= i2 < p
    ensures AddTable(p)[(1, NegTable(p)[MulTable(p)[(1, i2)]])] == Mod(1 - i2, p)
  {
    MulAt(p, 1, i2);
    ModOfResidue(i2, p);
    NegAt(p, i2);
    AddAt(p, 1, Mod(-i2, p));
    ModAddLeft(-i2, 1, p);
  }

  /** `1 - inv(2)` is not zero modulo `p >= 3`: otherwise `inv(2)` would be 1. */
  lemma OneMinusHalfNonZero(p: int, i: int)
    requires p >= 3 && 0 <= i < p && Mod(2 * i, p) == 1
    ensures Mod(1 - i, p) != 0
  {
    if i == 1 {
      ModOfResidue(2, p);
    } else if i == 0 {
      ModOfResidue(1, p);
    } else {
      DivModUnique(1 - i, p, -1, 1 - i + p);
    }
  }

  /** Modulo p, a residue has at most one inverse. */
  lemma InverseUnique(p: int, a: int, x: int, y: int)
    requires p >= 1 && 0 <= x < p && 0 <= y < p
    requires Mod(a * x, p) == 1 && Mod(a * y, p) == 1
    ensures x == y
  {
    ModOfResidue(x, p);
    ModOfResidue(y, p);
    ModMulLeft(a * y, x, p);
    ModMulLeft(a * x, y, p);
    MulRotate(a, y, x);
    MulRotate(a, x, y);
    assert (a * y) * x == (a * x) * y by {
      assert (a * y) * x == (y * x) * a == (x * y) * a == (a * x) * y;
    }
  }

  /** The table of inverses modulo p is determined by `p`, so every
      construction that builds one builds the same one. */
  lemma InverseTableUnique(p: int, inv1: map<int, int>, inv2: map<int, int>)
    requires p >= 1 && InverseTable(p, inv1) && InverseTable(p, inv2)
    ensures inv1 == inv2
  {
    forall a | a in inv1
      ensures inv1[a] == inv2[a]
    {
      InverseUnique(p, a, inv1[a], inv2[a]);
    }
  }
}
