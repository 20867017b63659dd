# Finite fields, polynomials and discrete logarithms, in Dafny

This project models the arithmetic core of the `coding` package, a small
Python library for coding theory:

- the field of integers, the generic `Field` operations derived from
  `add`/`neg`/`mul`/`inv`, and two versions of the extended Euclidean
  algorithm;
- finite fields given by explicit operation tables. This covers the current
  `FiniteField` with its `check` of the nine field laws and its `modulo(p)`
  constructor, and the older `FiniteField`/`integer_field` pair with its
  `memoize` cache;
- integer polynomials (`PolynomialField` over `Integers`) with addition,
  negation, schoolbook multiplication and long division;
- the discrete-logarithm code: `bits`, `powermod`, the brute-force solver
  and baby-step giant-step;
- the `memoize` and `multimap` containers.

The integers are unbounded, as Python's are. Integer division and remainder
round toward minus infinity, as Python's `//` and `%` do (`Integers.Div`,
`Integers.Mod`). The operations whose failures the callers see (`modulo`,
`integer_field`, polynomial division, `powermod`, the solvers, `flatten`)
return a `Result` whose error names the exception. The table lookups and the
arithmetic below them instead require what keeps Python from raising; each
such `requires` is listed under "Left out".

Both versions of Euclid's algorithm return their Bezout coefficients for
the larger and the smaller operand, not for `a` and `b` as their docstrings
say (`d == t*a + s*b` in coding/util/euclides.py:5-6, `d == s*a + t*b` in
coding/util/algos.py:7-8). The model follows the code and proves that the
docstrings' reading fails whenever `a < b` (with `a >= 0` for the
absolute-value version) and the two coefficients differ, as for `(3, 5)`.
The callers rely on the code's convention: `integer_field`
(coding/fields.py:114-118) and `modulo` (coding/fields/finite.py:178-182)
call Euclid with a residue `a < p` and take the coefficient of `a` from the
third slot, the one that belongs to the smaller operand.

A polynomial is its coefficient list, highest degree first, with no leading
zero (`Polynomials.IsNormal`). This is the normal form sympy's `Poly` keeps,
and the zero polynomial is the empty list. Its meaning is its value at every
integer point (`Polynomials.Eval`). The properties of addition,
multiplication and division are stated both coefficient by coefficient and
as identities of these values.

Each source file maps to one module:

| source | module | file |
|---|---|---|
| coding/fields/base.py | `Integers`, `FieldLaws` (derived operations) | integers.dfy, field_laws.dfy |
| coding/util/algos.py | `Euclid` | euclid.dfy |
| coding/util/euclides.py | `EuclidAbs` | euclid_abs.dfy |
| coding/fields/finite.py | `FieldLaws`, `FiniteFields` | field_laws.dfy, finite_field.dfy |
| coding/fields.py | `LegacyFields` | legacy_fields.dfy |
| coding/fields/polynomials.py | `Polynomials` | polynomials.dfy |
| coding/dlp/basics.py | `DlpBasics` | dlp_basics.dfy |
| coding/dlp/solvers.py | `DlpSolvers` | dlp_solvers.dfy |
| coding/util/etc.py | `Containers` | containers.dfy |

`NumberTheory` (divisibility, gcd, primality, powers) and `Wrappers` (the
`Result` type) hold the mathematics the contracts are stated in.

Notes on where the model had to choose a reading of the code:

- coding/dlp/solvers.py:54-55 is not valid Python, because a parenthesis closes
  one line late. The model follows the evident reading, `power = (-m - 1) mod p`
  and `orig_y = powermod(g, power, p)`.
- The source calls `F.pow` and `F.from_int`, which no field class defines.
  `pow` is modelled as the mathematical power and `from_int` as the identity.
- `defzip` is not part of this model. In `divmod` it is read as a zip that
  pads the shorter list, the multiple of the divisor, with zeros on the right.
  `num` is never the shorter list there.

## Model

| member | source | states |
|---|---|---|
| Integers.Sub | coding/fields/base.py:40-41 | the integers' own `x - y`, which agrees with the generic `add(x, neg(y))` of base.py:11-12; adding `y` back gives `x` |
| Integers.Div | coding/fields/base.py:71-72 | `x // y`, the floor of the quotient; `DivModDefinition` and `DivModUnique` state what it is |
| Integers.Mod | coding/fields/base.py:74-75 | the remainder lies in `[0, y)` for a positive divisor and in `(y, 0]` for a negative one, as Python's `%` |
| Integers.DivModDefinition | coding/fields/base.py:71-75 | `x == (x // y) * y + x % y`, with the quotient rounded toward minus infinity |
| Integers.DivModUnique | coding/fields/base.py:71-75 | any quotient and remainder that recompose `x` within those bounds are `x // y` and `x % y` |
| Integers.DivMod | coding/fields/base.py:20-21 | the pair recomposes `x`, with the remainder's sign bounds |
| Integers.ModPositive | coding/fields/base.py:74-75 | for a positive divisor the floor remainder and quotient agree with the Euclidean ones |
| Integers.ModAddBoth | coding/fields/base.py:74-75 | reducing both summands first leaves the residue of a sum unchanged |
| Integers.ModMulBoth | coding/fields/base.py:74-75 | reducing both factors first leaves the residue of a product unchanged |
| Integers.AllMod | coding/fields/base.py:77-78 | `all_mod(x)` holds exactly `0 .. x-1` |
| Integers.AllModSize | coding/fields/base.py:77-78 | `all_mod(x)` has `x` elements, or none for negative `x` |
| Integers.Contains | coding/fields/base.py:80-84 | `x % 1 == 0` holds exactly when `x` is an integer |
| Integers.KeyOrders | coding/fields/base.py:9 | the identity `key` orders integers as `<=` does and separates distinct ones, so `Euclid.Larger`/`Smaller`, which compare keys, compare the numbers themselves |
| Integers.ContainsIntegers | coding/fields/base.py:80-84 | every integer passes `x % 1 == 0`; a half-integer does not |
| NumberTheory.GcdIsGcd | coding/util/algos.py:7-8 | the gcd divides both operands and every common divisor divides it |
| NumberTheory.PrimeIffCoprime | coding/fields/finite.py:165-166 | `p >= 2` is prime iff it is coprime to every `a` in `1 .. p-1`, which is what the inverse loop relies on |
| Euclid.Larger | coding/util/algos.py:15 | `max(a, b, key=F.key)` is one of the two and at least both |
| Euclid.Smaller | coding/util/algos.py:16 | `min(a, b, key=F.key)` is one of the two and at most both |
| Euclid.LastRemainderIsGcd | coding/util/algos.py:21-25 | the last non-zero remainder divides both operands and is divisible by every common divisor |
| Euclid.LastRemainderOfNaturals | coding/util/algos.py:21-25 | for non-negative operands the last remainder is their gcd |
| Euclid.Euclides | coding/util/algos.py:6-38 | `d == s*larger + t*smaller`; `d` is the last remainder, negated unless it is one; the closed form when the smaller operand is zero |
| Euclid.LastRow | coding/util/algos.py:20-25 | the row the loop stops at satisfies `g == s*x + t*y`, `g` is the last non-zero remainder, and `(x, 1, 0)` comes back when `y` is zero |
| Euclid.EuclidesOfNaturals | coding/util/algos.py:35-38 | for non-negative operands the remainder that is returned or negated is the gcd |
| Euclid.DocstringNeedsEqualCoefficients | coding/util/algos.py:7-16 | for `a < b` the returned coefficients satisfy the docstring's `d == s*a + t*b` only if `s == t`, because the code gives `s` to the larger operand |
| Euclid.DocstringFailsAt3And5 | coding/util/algos.py:7-16 | for `(3, 5)` no coefficients the code can return make the docstring's `s*3 + t*5` equal the gcd 1 |
| EuclidAbs.Euclides | coding/util/euclides.py:4-30 | `d == t*max(|a|,|b|) + s*min(|a|,|b|)` and `d` is the gcd of the absolute values; `(|a|, 1, 0)` when `b == 0` |
| EuclidAbs.DocstringNeedsEqualCoefficients | coding/util/euclides.py:5-10 | for `0 <= a < b` the returned coefficients satisfy the docstring's `d == t*a + s*b` only if `t == s`, because the code gives `t` to `max(|a|,|b|)` |
| EuclidAbs.DocstringFailsAt3And5 | coding/util/euclides.py:5-10 | for `(3, 5)` no coefficients the code can return make the docstring's `t*3 + s*5` equal the gcd 1 |
| FieldLaws.AllLaws | coding/fields/finite.py:119-158 | there are nine `check_*` laws, all distinct |
| FieldLaws.Holds | coding/fields/finite.py:119-158 | the body of each `check_*` predicate, quantified over all elements |
| FieldLaws.CheckLaws | coding/fields/finite.py:107-117 | the result is true iff all nine laws hold, and it lists exactly the laws that fail |
| FieldLaws.ChangedAddBreaksField | coding/fields/finite.py:211-214 | overwriting one off-diagonal sum of a field with another element breaks commutativity of addition |
| FieldLaws.ChangedMulBreaksField | coding/fields/finite.py:216-219 | overwriting one off-diagonal product of a field with another element breaks commutativity of multiplication |
| FieldLaws.Grid | coding/fields/finite.py:171-172 | `product(numbers, numbers)` over `0 .. p-1` is exactly the pairs of residues |
| FieldLaws.AddTable | coding/fields/finite.py:171 | the addition table has exactly the pairs of residues as keys and residues as entries; with the other tables it forms a field for prime `p` (`ModTablesAreField`) |
| FieldLaws.MulTable | coding/fields/finite.py:172 | the multiplication table has exactly the pairs of residues as keys and residues as entries |
| FieldLaws.NegTable | coding/fields/finite.py:173 | the negation table has exactly the residues as keys and residues as entries |
| FieldLaws.ModTablesWellFormed | coding/fields/finite.py:169-184 | the tables of `modulo(p)` contain zero and one, with `zero != one` |
| FieldLaws.ModTablesTotal | coding/fields/finite.py:169-184 | every lookup the laws make is defined |
| FieldLaws.ModTablesClosed | coding/fields/finite.py:169-184 | every table entry is a residue |
| FieldLaws.ModTablesAreField | coding/fields/finite.py:201-204 | for a prime `p` the tables of `modulo(p)` satisfy all nine laws |
| FieldLaws.ModLawHolds | coding/fields/finite.py:119-158 | each single law holds for the residue tables |
| FieldLaws.ModAddAssocHolds | coding/fields/finite.py:119-122 | addition modulo `p` is associative on the table |
| FieldLaws.ModAddCommHolds | coding/fields/finite.py:124-127 | addition modulo `p` is commutative on the table |
| FieldLaws.ModAddNeutralHolds | coding/fields/finite.py:129-131 | zero is neutral for the addition table |
| FieldLaws.ModAddNegateHolds | coding/fields/finite.py:133-135 | `a + neg(a)` is zero in the table |
| FieldLaws.ModMulAssocHolds | coding/fields/finite.py:137-140 | multiplication modulo `p` is associative on the table |
| FieldLaws.ModMulCommHolds | coding/fields/finite.py:142-145 | multiplication modulo `p` is commutative on the table |
| FieldLaws.ModMulNeutralHolds | coding/fields/finite.py:147-149 | one is neutral for the multiplication table |
| FieldLaws.ModMulInverseHolds | coding/fields/finite.py:151-153 | `a * inv(a)` is one for every non-zero residue |
| FieldLaws.ModDistributiveHolds | coding/fields/finite.py:155-158 | the tables distribute |
| FieldLaws.ModAddAssoc | coding/fields/finite.py:121 | reducing after each addition gives an associative sum |
| FieldLaws.ModMulAssoc | coding/fields/finite.py:139 | reducing after each multiplication gives an associative product |
| FieldLaws.ModDistributive | coding/fields/finite.py:157 | reduced products distribute over reduced sums |
| FieldLaws.ModNeutralNegate | coding/fields/finite.py:131-135 | for a residue, `0 + a` and `1 * a` reduce to `a`, and `a + (-a mod p)` reduces to zero |
| FieldLaws.Subtract | coding/fields/base.py:11-12 | `add(x, neg(y))` is an element of a closed table, and in a field adding `y` back gives `x` |
| FieldLaws.Divide | coding/fields/base.py:14-15 | `mul(x, inv(y))` is an element of a closed table, and in a field multiplying by `y` gives `x` back |
| FieldLaws.RemainderAsWritten | coding/fields/base.py:17-18 | the `mod` as written is `x` less the quotient: adding `div(x, y)` back gives `x` |
| FieldLaws.Remainder | coding/fields/base.py:17-18 | the remainder of division, `x - div(x, y) * y`, is zero in a field (the corrected `mod`) |
| FieldLaws.DivModAsWritten | coding/fields/base.py:20-21 | `divmod` as written is `(x / y, x - x / y)` in a field |
| FieldLaws.DivModCorrected | coding/fields/base.py:20-21 | `divmod` with the corrected remainder: the remainder is zero and `add(mul(q, y), r) == x` |
| FieldLaws.SubInverts | coding/fields/base.py:11-12 | in a field `add(add(x, neg(y)), y) == x` |
| FieldLaws.SubSelf | coding/fields/base.py:11-12 | in a field `sub(x, x)` is zero |
| FieldLaws.DivInverts | coding/fields/base.py:14-15 | in a field `mul(mul(x, inv(y)), y) == x` for non-zero `y` |
| FieldLaws.ModAsWrittenCounterexample | coding/fields/base.py:17-18 | as written, `mod(1, 2)` in the residue field for `p >= 3` is `1 - inv(2)`, which is not zero |
| FieldLaws.InverseUnique | coding/fields/finite.py:176-182 | a residue has at most one inverse modulo `p` |
| FieldLaws.InverseTableUnique | coding/fields/finite.py:176-182 | the inverse table of `modulo(p)` is determined by `p` |
| FiniteFields.FiniteField.constructor | coding/fields/finite.py:10-22 | stores the element set, zero, one and the four tables as given, once zero and one are elements and differ |
| FiniteFields.FiniteField.Add | coding/fields/finite.py:27-28 | a lookup in the addition table, an element when the tables are closed |
| FiniteFields.FiniteField.Neg | coding/fields/finite.py:30-31 | a lookup in the negation table, an element when the tables are closed |
| FiniteFields.FiniteField.Mul | coding/fields/finite.py:33-34 | a lookup in the multiplication table, an element when the tables are closed |
| FiniteFields.FiniteField.Inv | coding/fields/finite.py:36-37 | a lookup in the inverse table, an element when the tables are closed |
| FiniteFields.FiniteField.Contains | coding/fields/finite.py:44-45 | `item in field` is membership of the element set |
| FiniteFields.FiniteField.Len | coding/fields/finite.py:47-48 | `len(field)` is the size of the element set, which `Elements` yields |
| FiniteFields.FiniteField.Elements | coding/fields/finite.py:39-48 | iteration yields zero, then one, then every other element once; its length is `len` |
| FiniteFields.FiniteField.Check | coding/fields/finite.py:107-117 | true iff all nine laws hold; lists exactly the failing laws |
| FiniteFields.FiniteField.SetAdd | coding/fields/finite.py:213 | overwrites one sum, leaves the other tables alone, and a field stops being one |
| FiniteFields.FiniteField.SetMul | coding/fields/finite.py:218 | overwrites one product, leaves the other tables alone, and a field stops being one |
| FiniteFields.Modulo | coding/fields/finite.py:163-184 | succeeds iff `p` is prime, with the residue tables, which form a field; otherwise the constructor's assertion (`p < 2`) or the `ValueError` |
| FiniteFields.ModularInverses | coding/fields/finite.py:176-182 | raises iff `p >= 2` is not prime; otherwise the table maps each non-zero residue to its inverse |
| FiniteFields.FillInverses | coding/fields/finite.py:176-182 | a run that raises shows `p >= 2` composite; a finished run covers every non-zero residue with an inverse coprime to `p` |
| FiniteFields.InverseModulo | coding/fields/finite.py:178-182 | succeeds iff `a` is coprime to `p`, giving the residue `t` with `a * t mod p == 1` |
| FiniteFields.SharedFactorNotPrime | coding/fields/finite.py:180-181 | a residue sharing a factor with `p` shows `p` is not prime |
| FiniteFields.CoprimeToAllIsPrime | coding/fields/finite.py:177-182 | when every non-zero residue passes the gcd test, `p` is prime |
| FiniteFields.InversesComplete | coding/fields/finite.py:176-184 | a finished loop leaves an inverse for every non-zero residue: the table is an inverse table, `p >= 2` is prime, and below 2 the table is empty |
| FiniteFields.ModuloStep | coding/fields/finite.py:178-182 | the key of `gcd mod p` is 1 iff `a` and `p` are coprime, and then `t mod p` inverts `a` |
| LegacyFields.LegacyFiniteField.constructor | coding/fields.py:7-21 | stores the element set, zero, one and the four tables, once zero and one are elements and differ |
| LegacyFields.LegacyFiniteField.Add | coding/fields.py:23-24 | a table lookup, an element when the tables are closed |
| LegacyFields.LegacyFiniteField.Opposite | coding/fields.py:29-30 | a table lookup, an element when the tables are closed |
| LegacyFields.LegacyFiniteField.Multiply | coding/fields.py:32-33 | a table lookup, an element when the tables are closed |
| LegacyFields.LegacyFiniteField.Inverse | coding/fields.py:38-39 | a table lookup, an element when the tables are closed |
| LegacyFields.LegacyFiniteField.Subtract | coding/fields.py:26-27 | in a field, adding `y` back to `subtract(x, y)` gives `x` |
| LegacyFields.LegacyFiniteField.Divide | coding/fields.py:35-36 | in a field, multiplying `divide(x, y)` by `y` gives `x` |
| LegacyFields.LegacyFiniteField.Elements | coding/fields.py:41-42 | iteration yields every element exactly once |
| LegacyFields.LegacyFiniteField.Contains | coding/fields.py:44-45 | `item in field` is membership of the element set |
| LegacyFields.LegacyFiniteField.Check | coding/fields.py:47-57 | true iff all nine laws hold; lists exactly the failing laws |
| LegacyFields.IntegerField | coding/fields.py:102-120 | succeeds iff `p` is prime, with the residue tables, which form a field |
| LegacyFields.IntegerInverses | coding/fields.py:113-118 | raises iff `p >= 2` is not prime; otherwise the inverse table of the residues |
| LegacyFields.FillInverses | coding/fields.py:113-118 | a run that raises shows `p >= 2` composite; a finished run covers every non-zero residue with an inverse coprime to `p` |
| LegacyFields.IntegerInverse | coding/fields.py:114-118 | succeeds iff `a` is coprime to `p`, giving the inverse residue `s mod p` |
| LegacyFields.IntegerStep | coding/fields.py:115-118 | `gcd % p == 1` iff `a` and `p` are coprime, and then `s mod p` inverts `a` |
| LegacyFields.IntegerFieldCache.constructor | coding/fields.py:101 | the cache starts empty |
| LegacyFields.IntegerFieldCache.Call | coding/fields.py:101-102 | a cached modulus returns the same field object; a new prime builds one and caches it; a non-prime raises and caches nothing |
| Polynomials.Norm | coding/fields/polynomials.py:33 | `Poly(...)` drops leading zeros and keeps every coefficient |
| Polynomials.AllCoeffs | coding/fields/polynomials.py:28 | `all_coeffs()` has at least one entry and the same coefficients |
| Polynomials.PadCoeff | coding/fields/polynomials.py:25-29 | both lists padded to the longer length, with the same coefficients and the same values |
| Polynomials.Add | coding/fields/polynomials.py:31-33 | the sum is normalised, and each coefficient is the sum of the operands' |
| Polynomials.EvalAdd | coding/fields/polynomials.py:31-33 | the sum's value at every point is the sum of the values |
| Polynomials.AddComm | coding/fields/polynomials.py:31-33 | addition is commutative |
| Polynomials.AddZero | coding/fields/polynomials.py:23 | the zero polynomial is neutral |
| Polynomials.AddNeg | coding/fields/polynomials.py:35-36 | `f + neg(f)` is the zero polynomial |
| Polynomials.Neg | coding/fields/polynomials.py:35-36 | the negation is normalised and negates each coefficient |
| Polynomials.EvalProduct | coding/fields/polynomials.py:38-44 | the product's value at every point is the product of the values |
| Polynomials.ProductCoeff | coding/fields/polynomials.py:41-43 | coefficient `k` of the product is the convolution sum of `f_i * g_(k-i)` |
| Polynomials.Mul | coding/fields/polynomials.py:38-44 | `mul` pads both operands and yields their product |
| Polynomials.AddRow | coding/fields/polynomials.py:41-43 | one pass of the outer loop adds row `i` of partial products to every key |
| Polynomials.MulPadded | coding/fields/polynomials.py:40-44 | the double loop over `total_coeff` and the read-back give the product of the padded lists |
| Polynomials.ReadBackIsPadded | coding/fields/polynomials.py:44 | once every row is in, reading `total_coeff` from the highest key down gives the product's coefficients |
| Polynomials.ReadBackReverses | coding/fields/polynomials.py:44 | reading a map from the highest key down reverses the list it holds |
| Polynomials.StepCount | coding/fields/polynomials.py:52 | the loop runs `len(num) - len(div) + 1` times, or not at all |
| Polynomials.DivMod | coding/fields/polynomials.py:46-61 | the long-division loop computes the specified quotient and remainder, or the error |
| Polynomials.StepsUnfold | coding/fields/polynomials.py:53-59 | one iteration: leading factor, subtraction of the shifted multiple, the leading-zero test, then `pop(0)` |
| Polynomials.Div | coding/fields/polynomials.py:63-64 | the quotient of `divmod`, raising as it does |
| Polynomials.Mod | coding/fields/polynomials.py:66-67 | the remainder of `divmod`, raising as it does |
| Polynomials.StepsRecompose | coding/fields/polynomials.py:52-59 | the steps' quotient and remainder recompose the dividend at every point |
| Polynomials.DivisionRecomposes | coding/fields/polynomials.py:46-61 | when division succeeds, `f(x) == q(x) * g(x) + r(x)` at every point |
| Polynomials.Key | coding/fields/polynomials.py:17 | `degree + 1`: the length of a non-zero polynomial, and negative for zero |
| Polynomials.KeyOfConstants | coding/fields/polynomials.py:17 | the key of one, and of every non-zero constant, is 1 |
| Polynomials.RemainderSmaller | coding/fields/polynomials.py:52-61 | a successful division has a non-zero divisor and a remainder of smaller key |
| Polynomials.DivideByZero | coding/fields/polynomials.py:51-53 | dividing by zero raises `ZeroDivisionError` |
| Polynomials.ShortDividend | coding/fields/polynomials.py:107-110 | a dividend shorter than the divisor has quotient zero and is its own remainder |
| Polynomials.ZeroDividend | coding/fields/polynomials.py:47-61 | zero divided by a non-zero polynomial gives zero and zero |
| Polynomials.QuotientLength | coding/fields/polynomials.py:52-54 | a successful quotient has `len(f) - len(g) + 1` coefficients |
| Polynomials.LeadingFactor | coding/fields/polynomials.py:53-57 | a successful first step of a dividend with non-zero leading coefficient has a non-zero factor |
| Polynomials.MonicDivides | coding/fields/polynomials.py:53-58 | division by a polynomial with leading coefficient 1 or -1 never raises |
| Polynomials.DivisionExample | coding/fields/polynomials.py:100-105 | `[3, 2, -2, 2]` divided by `[1, 0, 4]` is `[3, 2]` remainder `[-14, -6]` |
| Polynomials.UndivisableExample | coding/fields/polynomials.py:112-116 | `[10, 0, -4, 2, -2, 2]` divided by `[2, 0, 1, 4]` raises `ValueError` |
| Polynomials.AllMod | coding/fields/polynomials.py:77-81 | iterating `Integers` only works for zero copies, so `all_mod` succeeds iff `f` is constant, and then holds exactly the polynomials of smaller key |
| Polynomials.Contains | coding/fields/polynomials.py:85-88 | a coefficient list belongs to the ring exactly when every coefficient is an integer |
| Polynomials.ContainsExamples | coding/fields/polynomials.py:85-88 | integer coefficients pass the membership test; a coefficient `0.5` does not |
| DlpBasics.LowBit | coding/dlp/basics.py:7 | `n & (~n + 1)` is between 1 and `n` |
| DlpBasics.LowBitIsLowestSetBit | coding/dlp/basics.py:7 | it is a power of two dividing `n` with an odd cofactor, the lowest set bit |
| DlpBasics.Bits | coding/dlp/basics.py:5-9 | clearing the lowest set bit until zero lists the binary expansion of `n` |
| DlpBasics.BinaryPeel | coding/dlp/basics.py:7-9 | the expansion starts with the lowest set bit, followed by the expansion of `n ^ b` |
| DlpBasics.BinarySum | coding/dlp/basics.py:5-9 | the bits add up to `n` |
| DlpBasics.BinaryAscending | coding/dlp/basics.py:5-9 | the bits are powers of two in strictly ascending order |
| DlpBasics.BitsExample | coding/dlp/basics.py:29-30 | `bits(221) == [1, 4, 8, 16, 64, 128]` |
| DlpBasics.PowerMod | coding/dlp/basics.py:12-22 | the result is `g^n mod p` (`one` for `n == 0`); a zero modulus raises once there is a bit |
| DlpBasics.MultiplyResidue | coding/dlp/basics.py:20-21 | one round of the product loop adds the bit to the exponent of the residue |
| DlpSolvers.RunningIsPowMod | coding/dlp/solvers.py:21-27 | the running value after `n` steps is `powermod(g, n, p)` |
| DlpSolvers.BruteForce | coding/dlp/solvers.py:21-27 | returns the least `n` whose running value is `G`; a zero modulus raises unless `G` is one |
| DlpSolvers.BruteForceAnswers | coding/dlp/solvers.py:83-88 | the brute-force answer passes the tests' check `powermod(g, n, p) == G` |
| DlpSolvers.NewBabyStepGiantStep | coding/dlp/solvers.py:35-38 | construction succeeds iff Euclid's result is one, which for non-negative inputs is `gcd(g, p) == 1` |
| DlpSolvers.NotCoprimeExample | coding/dlp/solvers.py:101-103 | `(12, 34)` is refused: Euclid's last remainder is 2 |
| DlpSolvers.CeilSqrt | coding/dlp/solvers.py:42 | `m` is the least number with `m * m >= p` |
| DlpSolvers.BabySteps | coding/dlp/solvers.py:45-49 | every residue `g^i mod p` with `i < m` is a key, mapped to the largest such `i` |
| DlpSolvers.BabyStep | coding/dlp/solvers.py:48 | recording step `i` overwrites its residue's entry and keeps the table's meaning |
| DlpSolvers.BabyStepKeys | coding/dlp/solvers.py:48 | the keys grow by exactly the residue of step `i` |
| DlpSolvers.Solve | coding/dlp/solvers.py:40-71 | raises for `p <= 0`; otherwise the first giant step `k` whose `G*y mod p` is a key gives `(M[res] + k*m) mod p` |
| DlpSolvers.GiantHit | coding/dlp/solvers.py:63-68 | the first giant step whose residue is a key of the baby table is a hit at the index the table keeps |
| Containers.Memoize.constructor | coding/util/etc.py:9-11 | starts with an empty cache around `f` |
| Containers.Memoize.Call | coding/util/etc.py:13-18 | returns `f(args)`; caches a missing key; a present key answers from the cache; no entry changes or disappears |
| Containers.FlatPairs | coding/util/etc.py:25-28 | the pairs `(k, v)` with `v` in the set under `k`, and no others |
| Containers.FlatPairsSplit | coding/util/etc.py:37-38 | removing one key removes as many pairs as its set has elements |
| Containers.SizeSumIsFlatCount | coding/util/etc.py:35-39 | the sum of the set sizes is the number of pairs |
| Containers.DistinctCount | coding/util/etc.py:25-39 | a repeat-free list of exactly the pairs has as many entries as `flat_len` counts |
| Containers.Multimap.constructor | coding/util/etc.py:22-23 | the multimap holds the given sets |
| Containers.Multimap.FlatItems | coding/util/etc.py:25-28 | yields each pair `(k, v)` exactly once, and no other |
| Containers.Multimap.FlatLen | coding/util/etc.py:35-39 | the sum of the set sizes, which is the number of pairs |
| Containers.Multimap.Flatten | coding/util/etc.py:41-47 | succeeds iff every set is a singleton, mapping each key to its element and emptying every set; otherwise a set of another size is left untouched and the visited singletons are emptied |
| Containers.SingletonPairs | coding/util/etc.py:41-47 | the flattened map has exactly the multimap's pairs |

## Left out

- Reals: `_RealField` and `RealPolyTests` work on floating point.
- Printing: the `output` tables of both `euclides`, `table_*`/`info`, and the messages of `check` and `solve`. `check` is modelled as the nine laws rather than as reflection over the class dictionary.
- `PolynomialField.inv` always raises, so there is nothing to state about it.
- `FiniteField.modulo_poly` and its GF(16)/GF(27) tests are not modelled. These are fields over polynomial residues.
- `mul_subgroup` and `mul_generators` are not modelled, because they call a `pow` that no field defines.
- The field parameter `F` of `euclides`, `modulo`, `PolynomialField`, `powermod` and the solvers is fixed to `Integers`, the default everywhere.
- sympy's `Poly` (coding/util/sympy_wrapper.py) is replaced by the normalised coefficient list.
- `PolynomialField.__contains__` is modelled as the coefficient test only. The `isinstance` check and the generator check have no counterpart in a list of integers.
- Polynomials.Key: the zero polynomial's key is `-oo` in sympy. The model gives it a negative number, which compares the same way with every other key.
- `update_wrapper` in `memoize` only copies metadata. `multimap.flat_values` is not modelled, as it is `flat_items` without the keys.
- The `defaultdict` behaviour of `multimap`, which inserts an empty set on lookup of a missing key, is not modelled. The model builds a multimap from a given map.
- Containers.Multimap.Flatten: Python dict order is not modelled. The key order is left open, so the contract says only that the failing set is untouched and the visited ones are emptied. Two keys that share one set object are also not modelled.
- DlpBasics.PowerMod: `n` is a natural number. For negative `n`, `bits` never terminates in Python.
- The concrete `powermod(113, 221, 310) == 193` test and the solver test values (for example `(11, 101, 149)`) are not modelled. These powers are too large to unfold in a proof.
- DlpSolvers.BruteForce: the loop has no bound in the source. The model takes a step at which the power hits `G` as a ghost argument, and so does not model the case where none exists and the loop runs forever.
- DlpSolvers.Solve: the same holds for the giant-step loop. The contract also does not state that `powermod(g, result, p) == G`, which needs Fermat's little theorem and a prime `p`.
- DlpSolvers.CeilSqrt: `math.ceil(math.sqrt(p))` is computed exactly. Floating-point rounding for very large `p` is not modelled.
- LegacyFields.LegacyFiniteField.Elements and FiniteFields.FiniteField.Elements: the frozenset's iteration order is left open.
- coding/tests.py is the test runner and is not modelled.
- Integers.Div, Integers.Mod and Integers.DivMod require a non-zero divisor, where Python raises `ZeroDivisionError`. The callers that can meet a zero modulus (`powermod`, the solvers, polynomial division) test for it and return the error themselves.
- FiniteFields.FiniteField.Add, FiniteFields.FiniteField.Neg, FiniteFields.FiniteField.Mul and FiniteFields.FiniteField.Inv require the key to be in the table, where Python raises `KeyError` (for example `inv(zero)`).
- LegacyFields.LegacyFiniteField.Add, LegacyFields.LegacyFiniteField.Opposite, LegacyFields.LegacyFiniteField.Multiply and LegacyFields.LegacyFiniteField.Inverse require the key to be in the table, where Python raises `KeyError`.
- LegacyFields.LegacyFiniteField.Subtract, LegacyFields.LegacyFiniteField.Divide, FieldLaws.Subtract and FieldLaws.Divide require both of their lookups to exist, where Python raises `KeyError`.
- FieldLaws.RemainderAsWritten, FieldLaws.Remainder, FieldLaws.DivModAsWritten and FieldLaws.DivModCorrected require well-formed tables and a non-zero divisor, where Python raises `KeyError` on the missing inverse or lookup.
- FieldLaws.CheckLaws, FiniteFields.FiniteField.Check and LegacyFields.LegacyFiniteField.Check require well-formed (total and closed) tables. On a partial or non-closed table Python's `check` raises `KeyError` from the first missing lookup; the model does not say which.
- FiniteFields.FiniteField.constructor and LegacyFields.LegacyFiniteField.constructor require the constructor's assertions (zero and one are distinct elements), where Python raises `AssertionError`. `modulo` and `integer_field` return that error for `p < 2` themselves.

## Findings

| source | as written | input that shows it | evidently intended | confidence | as-written member | corrected member |
|---|---|---|---|---|---|---|
| coding/fields/base.py:17-18 | `mod(x, y) = sub(x, div(x, y))`, that is `x - x/y` | `FiniteField.modulo(3)`: `mod(1, 2) = 1 - inv(2) = 1 - 2 = 2`, not the remainder 0 | `x - div(x, y) * y`, the remainder of `divmod`, which is zero in a field | medium, not executed | FieldLaws.ModAsWrittenCounterexample | FieldLaws.DivModCorrected |

