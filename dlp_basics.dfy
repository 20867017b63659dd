/**
 * The building blocks of the discrete-logarithm solvers
 * (coding/dlp/basics.py): the binary decomposition `bits(n)` and modular
 * exponentiation `powermod(g, n, p)` over the integers.
 */
module DlpBasics {
  import opened Wrappers
  import opened Integers
  import opened NumberTheory

  /** What `powermod` raises: `F.mod` by a zero modulus. */
  datatype ArithmeticError = ZeroDivisionError

  predicate IsPowerOfTwo(b: int)
    decreases b
  {
    b == 1 || (b >= 2 && b % 2 == 0 && IsPowerOfTwo(b / 2))
  }

  /** `n & (~n + 1)`, the lowest set bit of `n`, taken by halving
      (`LowBitIsLowestSetBit` says what it is). */
  function LowBit(n: nat): (b: nat)
    requires n > 0
    ensures 1 <= b <= n
  {
    if n % 2 == 1 then 1 else 2 * LowBit(n / 2)
  }

  /** The lowest set bit is a power of two that divides `n` and leaves an odd cofactor. */
  lemma {:induction false} LowBitIsLowestSetBit(n: nat)
    requires n > 0
    ensures var b := LowBit(n); IsPowerOfTwo(b) && n % b == 0 && (n / b) % 2 == 1
    decreases n
  {
    if n % 2 == 0 {
      var half := LowBit(n / 2);
      LowBitIsLowestSetBit(n / 2);
      LowBitDoubled(n, half);
      assert (2 * half) / 2 == half;
    }
  }

  lemma LowBitDoubled(n: nat, half: nat)
    requires n > 0 && n % 2 == 0 && half > 0
    requires half <= n / 2 && (n / 2) % half == 0 && ((n / 2) / half) % 2 == 1
    ensures 2 * half <= n && n % (2 * half) == 0 && (n / (2 * half)) % 2 == 1
  {
    var q := (n / 2) / half;
    assert n / 2 == q * half;
    assert n == q * (2 * half);
    DivModUnique(n, 2 * half, q, 0);
    ModPositive(n, 2 * half);
  }

  function Doubled(s: seq<nat>): (r: seq<nat>)
    ensures |r| == |s| && forall i :: 0 <= i < |s| ==> r[i] == 2 * s[i]
  {
    seq(|s|, i requires 0 <= i < |s| => 2 * s[i])
  }

  /** The binary expansion of `n` as the ascending list of the powers of two
      it is made of, read off by halving: the reference `bits` is checked against. */
  function Binary(n: nat): seq<nat>
    decreases n
  {
    if n == 0 then [] else (if n % 2 == 1 then [1] else []) + Doubled(Binary(n / 2))
  }

  function Sum(s: seq<nat>): nat
  {
    if s == [] then 0 else Sum(s[..|s| - 1]) + s[|s| - 1]
  }

  /** `bits(n)`: repeatedly takes off the lowest set bit (`n ^= b` clears it,
      which for a set bit is `n - b`), listing the bits as it goes. */
  method Bits(n: nat) returns (bs: seq<nat>)
    ensures bs == Binary(n)
  {
    var m := n;
    bs := [];
    while m != 0
      invariant bs + Binary(m) == Binary(n)
      decreases m
    {
      var b := LowBit(m);
      BitsStep(bs, m, n);
      bs := bs + [b];
      m := m - b;
    }
    assert bs + [] == bs;
  }

  /** One round of `bits`: moving the low bit of `m` from the rest of the
      expansion to the list keeps the whole expansion of `n`. */
  lemma BitsStep(bs: seq<nat>, m: nat, n: nat)
    requires m > 0 && bs + Binary(m) == Binary(n)
    ensures (bs + [LowBit(m)]) + Binary(m - LowBit(m)) == Binary(n)
  {
    var b := LowBit(m);
    BinaryPeel(m);
    assert bs + ([b] + Binary(m - b)) == (bs + [b]) + Binary(m - b);
  }

  /** The expansion starts with the lowest set bit, and the rest is the
      expansion of what is left once it is cleared. */
  lemma {:induction false} BinaryPeel(n: nat)
    requires n > 0
    ensures Binary(n) == [LowBit(n)] + Binary(n - LowBit(n))
    decreases n
  {
    if n % 2 == 1 {
      BinaryPeelOdd(n);
    } else {
      var h := n / 2;
      LowBitEven(n, h);
      BinaryPeel(h);
      BinaryPeelEven(n, h, LowBit(h));
    }
  }

  lemma LowBitEven(n: nat, h: nat)
    requires n > 0 && n % 2 == 0 && h == n / 2
    ensures LowBit(n) == 2 * LowBit(h)
  {
  }

  lemma BinaryPeelOdd(n: nat)
    requires n % 2 == 1
    ensures Binary(n) == [1] + Binary(n - 1)
  {
    assert (n - 1) / 2 == n / 2;
    assert Binary(n - 1) == Doubled(Binary(n / 2));
  }

  /** Doubling every bit of `h`'s expansion gives the expansion of `n == 2 * h`. */
  lemma BinaryPeelEven(n: nat, h: nat, b: nat)
    requires n % 2 == 0 && h == n / 2 && 1 <= b <= h
    requires Binary(h) == [b] + Binary(h - b)
    ensures Binary(n) == [2 * b] + Binary(n - 2 * b)
  {
    var rest := Binary(h - b);
    BinaryEven(n, h);
    DoubledCons(b, rest);
    if h == b {
      assert Doubled(rest) == [] == Binary(n - 2 * b);
    } else {
      BinaryEven(n - 2 * b, h - b);
    }
  }

  lemma BinaryEven(n: nat, h: nat)
    requires h > 0 && n == 2 * h
    ensures Binary(n) == Doubled(Binary(h))
  {
    assert n % 2 == 0 && n / 2 == h;
  }

  lemma DoubledCons(b: nat, s: seq<nat>)
    ensures Doubled([b] + s) == [2 * b] + Doubled(s)
  {
  }

  lemma {:induction false} SumAppend(s: seq<nat>, t: seq<nat>)
    ensures Sum(s + t) == Sum(s) + Sum(t)
    decreases |t|
  {
    if t == [] {
      assert s + t == s;
    } else {
      assert (s + t)[..|s + t| - 1] == s + t[..|t| - 1];
      SumAppend(s, t[..|t| - 1]);
    }
  }

  lemma {:induction false} SumDoubled(s: seq<nat>)
    ensures Sum(Doubled(s)) == 2 * Sum(s)
    decreases |s|
  {
    if s != [] {
      assert Doubled(s)[..|s| - 1] == Doubled(s[..|s| - 1]);
      SumDoubled(s[..|s| - 1]);
    }
  }

  /** The bits add up to `n`. */
  lemma {:induction false} BinarySum(n: nat)
    ensures Sum(Binary(n)) == n
    decreases n
  {
    if n > 0 {
      var low := if n % 2 == 1 then [1] else [];
      BinarySum(n / 2);
      SumDoubled(Binary(n / 2));
      SumAppend(low, Doubled(Binary(n / 2)));
      assert Sum(low) == n % 2 by {
        if low != [] {
          assert low[..0] == [];
        }
      }
    }
  }

  /** The bits are powers of two, in strictly ascending order (so distinct). */
  lemma {:induction false} BinaryAscending(n: nat)
    ensures forall i :: 0 <= i < |Binary(n)| ==> IsPowerOfTwo(Binary(n)[i])
    ensures forall i, j :: 0 <= i < j < |Binary(n)| ==> Binary(n)[i] < Binary(n)[j]
    ensures n % 2 == 0 ==> forall i :: 0 <= i < |Binary(n)| ==> Binary(n)[i] >= 2
    decreases n
  {
    if n > 0 {
      BinaryAscending(n / 2);
      var d := Doubled(Binary(n / 2));
      forall i | 0 <= i < |d|
        ensures IsPowerOfTwo(d[i]) && d[i] >= 2
      {
        assert d[i] / 2 == Binary(n / 2)[i];
      }
    }
  }

  /** `bits(221) == [1, 4, 8, 16, 64, 128]`, built up from the expansions of
      13, 27, 55 and 110 (each one is the next halved). */
  lemma BitsExample()
    ensures Binary(221) == [1, 4, 8, 16, 64, 128]
  {
    BinaryOf110();
  }

  lemma BinaryOf110()
    ensures Binary(110) == [2, 4, 8, 32, 64]
  {
    BinaryOf55();
  }

  lemma BinaryOf55()
    ensures Binary(55) == [1, 2, 4, 16, 32]
  {
    BinaryOf27();
  }

  lemma BinaryOf27()
    ensures Binary(27) == [1, 2, 8, 16]
  {
    BinaryOf13();
  }

  lemma BinaryOf13()
    ensures Binary(13) == [1, 4, 8]
  {
    assert Binary(1) == [1];
    assert Binary(3) == [1, 2];
    assert Binary(6) == [2, 4];
  }

  /** What `powermod(g, n, p)` computes: `g^n mod p`, except that for `n == 0`
      no reduction happens and `one` comes back as it is. */
  function PowMod(g: int, n: nat, p: int): int
    requires p != 0 || n == 0
  {
    if n == 0 then One else Mod(Pow(g, n), p)
  }

  /** `powermod(g, n, p)`: reduces `g^b` for each bit `b` of `n` and multiplies
      the residues together, reducing after each product. (`g in F` and
      `p in F` always hold for integers.) */
  method PowerMod(g: int, n: nat, p: int) returns (r: Result<int, ArithmeticError>)
    ensures r.Err? <==> p == 0 && n > 0
    ensures r.Ok? ==> r.value == PowMod(g, n, p)
  {
    var powers := Bits(n);
    BinarySum(n);
    if p == 0 && |powers| > 0 {
      return Err(ZeroDivisionError);
    }
    if p == 0 {
      return Ok(One);
    }
    var results := seq(|powers|, i requires 0 <= i < |powers| => Mod(Pow(g, powers[i]), p));
    var res := One;
    for i := 0 to |results|
      invariant i == 0 ==> res == One
      invariant i > 0 ==> res == Mod(Pow(g, Sum(powers[..i])), p)
    {
      MultiplyResidue(g, p, powers[..i], powers[i], res);
      assert powers[..i + 1] == powers[..i] + [powers[i]];
      res := Mod(Mul(res, results[i]), p);
    }
    assert powers[..|results|] == powers;
    r := Ok(res);
  }

  /** One round of the product loop: the residue so far times the residue of
      `g^b` is the residue of `g` to the summed exponent. */
  lemma MultiplyResidue(g: int, p: int, done: seq<nat>, b: nat, res: int)
    requires p != 0
    requires done == [] ==> res == One
    requires done != [] ==> res == Mod(Pow(g, Sum(done)), p)
    ensures Mod(res * Mod(Pow(g, b), p), p) == Mod(Pow(g, Sum(done + [b])), p)
  {
    assert (done + [b])[..|done + [b]| - 1] == done;
    if done == [] {
      ModIdempotent(Pow(g, b), p);
    } else {
      ModMulBoth(Pow(g, Sum(done)), Pow(g, b), p);
      ModIdempotent(Pow(g, Sum(done)), p);
      ModIdempotent(Pow(g, b), p);
      PowAdd(g, Sum(done), b);
    }
  }
}
