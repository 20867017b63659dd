/**
 * Discrete-logarithm solvers over the integers (coding/dlp/solvers.py):
 * given `g`, `G` and `p`, find `n` with `g^n mod p == G`. The brute-force
 * search walks the powers of `g`; baby-step giant-step tabulates `m` powers
 * of `g` and walks `G` down in strides of `g^(-m)`.
 */
module DlpSolvers {
  import opened Wrappers
  import opened Integers
  import opened NumberTheory
  import Euclid
  import DlpBasics

  /** What the solvers raise: the constructor's `assert`, `F.mod` by zero,
      and `math.sqrt` of a negative modulus. */
  datatype DlpError = AssertionFailed | ZeroDivisionError | MathDomainError

  /** A problem `g^n mod p == G` (`DlpProblem`). */
  datatype Problem = Problem(g: int, G: int, p: int)

  /** The running value of the search loops: `one`, then the previous value
      times `g`, reduced modulo `p`. */
  function Running(g: int, p: int, n: nat): int
    requires p != 0 || n == 0
  {
    if n == 0 then One else Mod(Mul(Running(g, p, n - 1), g), p)
  }

  /** The running value is `powermod(g, n, p)`. */
  lemma {:induction false} RunningIsPowMod(g: int, p: int, n: nat)
    requires p != 0 || n == 0
    ensures Running(g, p, n) == DlpBasics.PowMod(g, n, p)
  {
    if n > 0 {
      RunningIsPowMod(g, p, n - 1);
      if n == 1 {
        assert Mod(Mul(One, g), p) == Mod(Pow(g, 1), p);
      } else {
        ModMulLeft(Pow(g, n - 1), g, p);
        assert Pow(g, n - 1) * g == Pow(g, n);
      }
    }
  }

  /** `BruteForce.solve`: counts up from `n = 0` until the running value is
      `G`. The loop only ends when some power hits `G`; `bound` is such a
      power, which the caller vouches for. */
  method BruteForce(prob: Problem, ghost bound: nat) returns (r: Result<nat, DlpError>)
    requires prob.p != 0 ==> Running(prob.g, prob.p, bound) == prob.G
    ensures r.Err? <==> prob.p == 0 && prob.G != One
    ensures r.Err? ==> r.error == ZeroDivisionError
    ensures r.Ok? ==> prob.p != 0 || r.value == 0
    ensures r.Ok? ==> Running(prob.g, prob.p, r.value) == prob.G
    ensures r.Ok? ==> forall i :: 0 <= i < r.value ==> Running(prob.g, prob.p, i) != prob.G
  {
    var n := 0;
    var current := One;
    while current != prob.G
      invariant prob.p != 0 ==> n <= bound
      invariant prob.p == 0 ==> n == 0
      invariant current == Running(prob.g, prob.p, n)
      invariant forall i :: 0 <= i < n ==> Running(prob.g, prob.p, i) != prob.G
      decreases bound - n
    {
      if prob.p == 0 {
        return Err(ZeroDivisionError);
      }
      n := n + 1;
      current := Mod(Mul(current, prob.g), prob.p);
    }
    r := Ok(n);
  }

  /** The brute-force answer passes the tests' check `powermod(g, n, p) == G`. */
  lemma BruteForceAnswers(prob: Problem, n: nat)
    requires prob.p != 0 && Running(prob.g, prob.p, n) == prob.G
    ensures DlpBasics.PowMod(prob.g, n, prob.p) == prob.G
  {
    RunningIsPowMod(prob.g, prob.p, n);
  }

  /** `BabyStepGaintStep(g, G, p)`: Euclid on `g` and `p` must return `one`
      as its first component. */
  method NewBabyStepGiantStep(g: int, G: int, p: int) returns (r: Result<Problem, DlpError>)
    ensures var last := Euclid.LastRemainder(Euclid.Larger(g, p), Euclid.Smaller(g, p));
            r.Ok? <==> last == 1 || last == -1
    ensures g >= 0 && p >= 0 ==> (r.Ok? <==> Gcd(Euclid.Larger(g, p), Euclid.Smaller(g, p)) == 1)
    ensures r.Ok? ==> r.value == Problem(g, G, p)
    ensures r.Err? ==> r.error == AssertionFailed
  {
    var gcd, _, _ := Euclid.Euclides(g, p);
    if g >= 0 && p >= 0 {
      Euclid.EuclidesOfNaturals(g, p);
    }
    if gcd != One {
      return Err(AssertionFailed);
    }
    r := Ok(Problem(g, G, p));
  }

  /** `(12, 34)` is refused: their gcd is 2, and Euclid returns -2. */
  lemma NotCoprimeExample()
    ensures Euclid.LastRemainder(Euclid.Larger(12, 34), Euclid.Smaller(12, 34)) == 2
  {
    Euclid.LastRemainderOfNaturals(34, 12);
    assert Gcd(34, 12) == Gcd(12, 10) == Gcd(10, 2) == Gcd(2, 0);
  }

  /** `math.ceil(math.sqrt(p))`, computed exactly: the least `m` with `m * m >= p`. */
  function CeilSqrt(p: nat): (m: nat)
    ensures m * m >= p && (m == 0 || (m - 1) * (m - 1) < p)
  {
    SqrtSearch(p, 0)
  }

  function SqrtSearch(p: nat, m: nat): (r: nat)
    requires m == 0 || (m - 1) * (m - 1) < p
    ensures r * r >= p && (r == 0 || (r - 1) * (r - 1) < p)
    decreases p - m
  {
    if m * m >= p then m
    else
      assert m < p by {
        if m >= 1 {
          assert m <= m * m;
        }
      }
      SqrtSearch(p, m + 1)
  }

  /** The residues the baby steps record: `g^i mod p` for `i < m`. */
  function BabyResidues(g: int, p: int, m: nat): set<int>
    requires p > 0
  {
    set i | 0 <= i < m :: Mod(Running(g, p, i), p)
  }

  /** `M` after the baby steps: every residue `g^i mod p` with `i < m` is a
      key, and it maps to the last such `i`, as later steps overwrite. */
  predicate IsBabyTable(M: map<int, nat>, g: int, p: int, m: nat)
    requires p > 0
  {
    && (forall i :: 0 <= i < m ==> Mod(Running(g, p, i), p) in M)
    && (forall x :: x in M ==> M[x] < m && Mod(Running(g, p, M[x]), p) == x)
    && (forall x, j :: x in M && M[x] < j < m ==> Mod(Running(g, p, j), p) != x)
  }

  /** The baby steps of `solve`: `M[x mod p] = i`, then `x` is multiplied by `g`. */
  method BabySteps(g: int, p: int, m: nat) returns (M: map<int, nat>)
    requires p > 0
    ensures IsBabyTable(M, g, p, m)
    ensures M.Keys == BabyResidues(g, p, m)
  {
    M := map[];
    var x := One;
    for i := 0 to m
      invariant x == Running(g, p, i)
      invariant IsBabyTable(M, g, p, i)
      invariant M.Keys == BabyResidues(g, p, i)
    {
      BabyStep(M, g, p, i);
      BabyStepKeys(M, g, p, i);
      M := M[Mod(x, p) := i];
      x := Mod(Mul(x, g), p);
    }
  }

  /** Recording step `i` overwrites the entry of its residue and keeps the table's meaning. */
  lemma BabyStep(M: map<int, nat>, g: int, p: int, i: nat)
    requires p > 0 && IsBabyTable(M, g, p, i)
    ensures IsBabyTable(M[Mod(Running(g, p, i), p) := i], g, p, i + 1)
  {
    var x := Mod(Running(g, p, i), p);
    var M' := M[x := i];
    forall y, j | y in M' && M'[y] < j < i + 1
      ensures Mod(Running(g, p, j), p) != y
    {
      if y != x {
        assert M'[y] == M[y];
        if j == i {
          assert Mod(Running(g, p, j), p) == x;
        }
      }
    }
  }

  /** The keys grow by the residue of step `i`. */
  lemma BabyStepKeys(M: map<int, nat>, g: int, p: int, i: nat)
    requires p > 0 && M.Keys == BabyResidues(g, p, i)
    ensures M[Mod(Running(g, p, i), p) := i].Keys == BabyResidues(g, p, i + 1)
  {
    assert BabyResidues(g, p, i + 1) == BabyResidues(g, p, i) + {Mod(Running(g, p, i), p)};
  }

  /** `y` at giant step `k`: `orig_y` to the `k`-th power, reduced at each step. */
  function GiantY(origY: int, p: int, k: nat): int
    requires p > 0
  {
    Running(origY, p, k)
  }

  /** `power = (-m - 1) mod p` and `orig_y = powermod(g, power, p)`: the
      stride of the giant steps. */
  function OrigY(g: int, p: int): int
    requires p > 0
  {
    var m := CeilSqrt(p);
    DlpBasics.PowMod(g, Mod(-(m as int) - 1, p), p)
  }

  /** Giant step `k` is the first whose `G * y mod p` is among the baby
      residues, and `i` is the index the table keeps for it. */
  predicate FoundAt(prob: Problem, k: nat, i: nat)
    requires prob.p > 0
  {
    var m := CeilSqrt(prob.p);
    var res := Mod(prob.G * GiantY(OrigY(prob.g, prob.p), prob.p, k), prob.p);
    && i < m && Mod(Running(prob.g, prob.p, i), prob.p) == res
    && (forall j :: i < j < m ==> Mod(Running(prob.g, prob.p, j), prob.p) != res)
    && (forall k' :: 0 <= k' < k ==>
          Mod(prob.G * GiantY(OrigY(prob.g, prob.p), prob.p, k'), prob.p) !in BabyResidues(prob.g, prob.p, m))
  }

  /** `BabyStepGaintStep.solve`: baby steps fill `M`, then giant steps `k = 0, 1, ...`
      look `G * y mod p` up in `M`, and the first hit gives `(M[res] + k * m) mod p`.
      The giant-step loop has no bound of its own; `bound` is a step that
      hits, which the caller vouches for. */
  method Solve(prob: Problem, ghost bound: nat) returns (r: Result<int, DlpError>)
    requires prob.p > 0 ==>
               Mod(prob.G * GiantY(OrigY(prob.g, prob.p), prob.p, bound), prob.p)
                 in BabyResidues(prob.g, prob.p, CeilSqrt(prob.p))
    ensures r.Err? <==> prob.p <= 0
    ensures r.Err? ==> r.error == if prob.p < 0 then MathDomainError else ZeroDivisionError
    ensures r.Ok? ==> prob.p > 0 && exists k: nat, i: nat ::
              FoundAt(prob, k, i) && r.value == Mod(i + k * CeilSqrt(prob.p), prob.p)
  {
    var p := prob.p;
    if p < 0 {
      return Err(MathDomainError);
    }
    var m := CeilSqrt(p);
    if p == 0 {
      return Err(ZeroDivisionError);
    }
    var M := BabySteps(prob.g, p, m);
    var power := Mod(Sub(Neg(m), One), p);
    var orig := DlpBasics.PowerMod(prob.g, power, p);
    var origY := orig.value;
    var y := One;
    var k: nat := 0;
    while true
      invariant k <= bound
      invariant y == GiantY(origY, p, k)
      invariant forall k' :: 0 <= k' < k ==> Mod(prob.G * GiantY(origY, p, k'), p) !in M
      decreases bound - k
    {
      var res := Mod(Mul(prob.G, y), p);
      if res in M {
        GiantHit(prob, M, k, res);
        return Ok(Mod(Add(M[res], Mul(k, m)), p));
      }
      y := Mod(Mul(y, origY), p);
      k := k + 1;
    }
  }

  /** The first giant step whose residue is a key of the baby table is a hit
      at the index the table keeps for it. */
  lemma GiantHit(prob: Problem, M: map<int, nat>, k: nat, res: int)
    requires prob.p > 0
    requires IsBabyTable(M, prob.g, prob.p, CeilSqrt(prob.p))
    requires M.Keys == BabyResidues(prob.g, prob.p, CeilSqrt(prob.p))
    requires res == Mod(prob.G * GiantY(OrigY(prob.g, prob.p), prob.p, k), prob.p) && res in M
    requires forall k' :: 0 <= k' < k ==> Mod(prob.G * GiantY(OrigY(prob.g, prob.p), prob.p, k'), prob.p) !in M
    ensures FoundAt(prob, k, M[res])
  {
  }
}
