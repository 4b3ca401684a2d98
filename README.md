# Polynomials in one variable, modelled in Dafny

This project models the two classes of the Python.Polynomials repository:

- `Monomial` (monomial.py) is an immutable value `coefficient · x^exponent`. It has a non-negative integer exponent, the guarded operations `add`, `subtract` and `divide`, the total `multiply`, `evaluate`, and a text rendering.
- `Polynomial` (polynomial.py) is a mutable object. It holds a canonical list of monomials: never empty, exponents strictly descending, and no zero coefficient except in the single term `(0, 0)` that stands for zero. It has one mutator, `append`. `add`, `subtract` and `multiply` build a fresh result by repeated `append`. `evaluate` and `__str__` accumulate over the terms.

Files and modules:

- `text.dfy` (module `Text`): the pieces of Python's string machinery the renderers rely on. These are `str()` of a non-negative integer, `str.replace` and `str.strip`.
- `monomial.dfy` (module `Monomials`): a datatype with pure functions. The guarded operations return a `Result` whose `Err` is one of three failure values, where the source raises an exception.
- `polynomial.dfy` (module `Polynomials`): the class `Polynomial`, whose field `terms: seq<Monomial>` the methods rewrite with loops. The class is specified by pure functions of the term list:
  - `Insert` is one `append`.
  - `AppendAll` is a run of appends.
  - `Value` and `CoeffAt` give a term list its meaning.
  - `Canonical` is the class invariant (`Valid`).
- `append_as_written.dfy` (module `AppendAsWritten`): the loop of `append` exactly as the source writes it. See Findings.
- `samples.dfy` (module `Samples`): the four sample polynomials P1 to P4 of the demonstration script, built through the class. Each comes with the render its comment announces and the coefficients, exponents and degree the script prints. P1 is also evaluated at 0 and 1. One further case, not from the script, cancels a term by its negation.

`Monomials.Times(a, b)` is real multiplication `a * b` under a name of its own. Contracts that the product proofs chain together are stated with it. The contracts of `Monomials.MultiplyEvaluate` and `Polynomials.ProductValue` use `*`. `Polynomials.Polynomial.Multiply` keeps `Times` in its `ensures`.

## Model

| member | source | states |
|---|---|---|
| Monomials.Make | monomial.py:43-51 | construction succeeds iff the exponent is non-negative, and then stores both values unchanged; otherwise it fails with `InvalidExponent` |
| Monomials.Add | monomial.py:71-80 | defined iff the exponents are equal; the result keeps the exponent and has the sum of the coefficients; otherwise `IncompatibleExponents` |
| Monomials.Subtract | monomial.py:82-91 | like `Add`, with the difference of the coefficients |
| Monomials.Multiply | monomial.py:93-96 | total; the exponents add, and the product's coefficient is zero iff a factor's is; its value is given by `MultiplyEvaluate` |
| Monomials.Divide | monomial.py:98-109 | defined iff the divisor's coefficient is non-zero and its exponent is at most the dividend's; otherwise `InvalidDivision` |
| Monomials.Evaluate | monomial.py:111-113 | a constant term evaluates to its coefficient at every point, including 0; a zero coefficient evaluates to 0 |
| Monomials.Pow | monomial.py:113 | `value ** exponent` with `0 ** 0 = 1`: 1 at the base 1, 0 at the base 0 for a positive exponent, positive at a positive base |
| Monomials.PowAdd | monomial.py:111-113 | `x^(m+n) = x^m · x^n` for the power used by `evaluate` |
| Monomials.AddEvaluate | monomial.py:71-80 | the sum of two like terms evaluates to the sum of their values |
| Monomials.SubtractEvaluate | monomial.py:82-91 | the difference of two like terms evaluates to the difference of their values |
| Monomials.SubtractUndoesAdd | monomial.py:71-91 | subtracting a like term after adding it gives the original monomial |
| Monomials.CoefficientTimes | monomial.py:93-96 | the product's coefficient is the product of the coefficients |
| Monomials.MultiplyEvaluate | monomial.py:93-96 | the product evaluates to the product of the factors' values |
| Monomials.DivideUndoesMultiply | monomial.py:93-109 | dividing `a · b` by `b` gives `a` whenever `b`'s coefficient is non-zero |
| Monomials.MultiplyUndoesDivide | monomial.py:93-109 | a quotient that exists, multiplied by the divisor, gives the dividend |
| Monomials.SignChar | monomial.py:119 | `+` for a non-negative coefficient and `-` for a negative one; `Render`'s ensures state that the first character is `-` exactly for a negative coefficient |
| Monomials.PowerToken | monomial.py:125-134 | `""` for exponent 0, `" x"` for 1 and `" x^e"` above; `PowerTokenUnchanged` states that the replace leaves it alone |
| Monomials.Superscript | monomial.py:129-134 | the exponent part of a power contains no space |
| Monomials.Render | monomial.py:115-145 | an integer-coefficient render is a word of at least three characters; its first character is the sign (`-` exactly for a negative coefficient) and its second a space |
| Monomials.Uncollapsed | monomial.py:119-141 | the text `sign + str(abs(c)) + power` before the collapse; `UncollapsedReplaced` states what the replace does to it |
| Monomials.RenderByReplace | monomial.py:115-145 | `__str__` as written, with `str.replace`; `RenderMatchesReplace` proves it equal to `Render` |
| Monomials.PowerTokenUnchanged | monomial.py:129-134 | `replace(' 1 x', ' x')` leaves the power part unchanged |
| Monomials.ReplaceCollapses | monomial.py:143 | on `' 1 x'` followed by the exponent part, the replace removes the ` 1` once |
| Monomials.ReplaceKeeps | monomial.py:139-143 | a magnitude other than 1, or a unit constant, contains no `' 1 x'` and is left unchanged |
| Monomials.CollapseCase | monomial.py:139-143 | after a sign, a unit coefficient in front of a power of x collapses to the sign and the power |
| Monomials.UncollapsedReplaced | monomial.py:119-143 | on the text the source builds, the replace performs exactly the token choice that `Render` makes |
| Monomials.RenderMatchesReplace | monomial.py:115-145 | `Render` equals the source's rendering with `str.replace`, for every integer coefficient |
| Monomials.RenderCollapseSamples | monomial.py:138-143 | `- x^3` and `+ x`: a unit coefficient shows only its sign |
| Monomials.RenderKeepSamples | monomial.py:129-143 | `+ 21 x`, `+ 1`, `- 5` and `+ 0`: no collapse for another magnitude or a constant; zero renders `+ 0` |
| Text.NatToString | monomial.py:123 | `str(n)` is a non-empty string of decimal digits, one digit long iff `n < 10` |
| Text.NatToStringRoundTrip | monomial.py:123 | reading the digits of `str(n)` back gives `n` |
| Text.NatToStringIsOne | monomial.py:143 | only the number 1 is written `"1"` |
| Text.ReplaceAll | monomial.py:143 | `str.replace` of every non-overlapping occurrence, left to right; `ReplaceAllStep`, `ReplaceAllSkip`, `ReplaceCollapses` and `ReplaceKeeps` state what it does |
| Text.ReplaceAllStep | monomial.py:143 | where the pattern does not start the text, `replace` copies the first character through |
| Text.ReplaceAllSkip | monomial.py:143 | a prefix free of the pattern's first character is copied through by `replace` |
| Text.Spaced | polynomial.py:176-180 | the accumulator `result += " " + str(monomial)` after every word; `SpacedIsJoined` relates it to `Joined` |
| Text.Joined | polynomial.py:174-181 | the words joined by single spaces, the promised text; `JoinedWord` states that it neither starts nor ends with whitespace |
| Text.Strip | polynomial.py:181 | `str.strip()` for space, tab, newline and carriage return; `StripLeadingSpace` and `StripSpaced` state what it does to the accumulator |
| Text.SpacedIsJoined | polynomial.py:174-181 | the words, each after a space, are one space followed by the words joined by single spaces |
| Text.JoinedWord | polynomial.py:174-181 | words joined by single spaces form a word |
| Text.StripLeadingSpace | polynomial.py:181 | `strip()` removes exactly one leading space from a word |
| Text.StripSpaced | polynomial.py:174-181 | `strip()` of the space-prefixed words is the words joined by single spaces |
| Polynomials.Value | polynomial.py:165-172 | the value of a term list, the sum of its terms' values; `Polynomial.Evaluate` is proved to compute it |
| Polynomials.Scan | polynomial.py:91-119 | the scan of `append` with one combination at a like term; its length changes by at most one; `ScanInsertsAt`, `ScanCombinesAt`, `ScanCancelsAt` and `ScanAtEnd` state each branch |
| Polynomials.Repair | polynomial.py:120-129 | the result is never empty, a list of two or more terms is kept, and a single zero term is the zero polynomial `(0, 0)` |
| Polynomials.Insert | polynomial.py:76-129 | one `append`: a zero monomial changes nothing and a non-empty list stays non-empty; `InsertValue`, `InsertCoeff` and `InsertCanonical` state its meaning |
| Polynomials.ValueConcat | polynomial.py:165-172 | the value of a concatenation is the sum of the values |
| Polynomials.Canonical | polynomial.py:28-33 | the class invariant: never empty, exponents strictly descending, and no zero coefficient outside the single zero term; `InsertCanonical`, `AppendAllCanonical` and `CanonicalUnique` are proved about it |
| Polynomials.CoeffConcat | polynomial.py:28-33 | the coefficient at each power of a concatenation is the sum of the parts' coefficients |
| Polynomials.ScanFrom | polynomial.py:91-116 | past a prefix of larger exponents, the scan leaves the prefix unchanged |
| Polynomials.ScanAtEnd | polynomial.py:117-119 | with every exponent larger than `m`'s, `m` is added at the end |
| Polynomials.ScanInsertsAt | polynomial.py:99-101 | at the first smaller exponent, `m` is inserted in front of it |
| Polynomials.ScanCombinesAt | polynomial.py:107-109 | at an equal exponent with a non-zero sum, the sum replaces that term and nothing else changes |
| Polynomials.ScanCancelsAt | polynomial.py:107-112 | at an equal exponent with a zero sum, that term is removed and nothing else changes |
| Polynomials.ScanStrict | polynomial.py:91-119 | the scan keeps exponents strictly descending and coefficients non-zero, and adds no exponent above the larger of the old leading one and `m`'s |
| Polynomials.ConsStrict | polynomial.py:99-101 | a head above every term of a strict list keeps the list strict |
| Polynomials.ScanValue | polynomial.py:91-119 | the scan adds exactly `m`'s value |
| Polynomials.ScanCoeff | polynomial.py:91-119 | the scan adds `m`'s coefficient at `m`'s exponent and changes no other coefficient |
| Polynomials.InsertValue | polynomial.py:76-129 | `append(m)` adds exactly `m`'s value at every point |
| Polynomials.InsertCoeff | polynomial.py:76-129 | `append(m)` changes only the coefficient at `m`'s exponent, by `m`'s coefficient |
| Polynomials.InsertCanonical | polynomial.py:76-129 | `append` preserves the canonical form |
| Polynomials.ScanRemoves | polynomial.py:110-112 | scanning in the negation of a term removes exactly that term |
| Polynomials.InsertNegation | polynomial.py:110-129 | appending the negation of a term removes it; removing the only term gives the zero polynomial `[(0, 0)]` |
| Polynomials.AppendAll | polynomial.py:135-150 | a run of appends; `AppendAllCanonical`, `AppendAllValue` and `AppendAllCoeff` state its meaning |
| Polynomials.AppendAllSnoc | polynomial.py:131-163 | one more monomial is one more append |
| Polynomials.AppendAllConcat | polynomial.py:131-151 | appending two lists in turn is appending their concatenation |
| Polynomials.AppendAllPrefix | polynomial.py:131-163 | one more loop iteration is one more append |
| Polynomials.AppendAllCanonical | polynomial.py:131-163 | a run of appends keeps the canonical form |
| Polynomials.AppendAllValue | polynomial.py:131-163 | a run of appends adds the sum of the appended values |
| Polynomials.AppendAllCoeff | polynomial.py:131-163 | a run of appends adds the appended coefficients at each power |
| Polynomials.Negated | polynomial.py:148-150 | the negated list has the same length |
| Polynomials.NegatedValue | polynomial.py:148-150 | the negated terms have the opposite value |
| Polynomials.NegatedCoeff | polynomial.py:148-150 | the negated terms have the opposite coefficient at each power |
| Polynomials.Row | polynomial.py:159-162 | the inner loop's products `m1.multiply(m2)`, one per term of the operand; `RowValue` states its value |
| Polynomials.Products | polynomial.py:157-162 | all pairwise products in the order `multiply` appends them; `ProductsValue`, `ProductsRowStart`, `ProductsRowStep` and `ProductsRowEnd` state its meaning |
| Polynomials.RowValue | polynomial.py:158-162 | one row of products evaluates to the factor's value times the other operand's value |
| Polynomials.ProductsValue | polynomial.py:153-163 | all pairwise products evaluate to the product of the operands' values |
| Polynomials.ProductsRowStart | polynomial.py:157-158 | an empty row adds nothing to the products so far |
| Polynomials.ProductsRowStep | polynomial.py:158-162 | one more product in the row is one more element at the end |
| Polynomials.ProductsRowEnd | polynomial.py:157-162 | a complete row ends one outer iteration |
| Polynomials.SumValue | polynomial.py:131-140 | the terms `add` appends give a canonical list whose value is the sum |
| Polynomials.DifferenceValue | polynomial.py:142-151 | the terms `subtract` appends give a canonical list whose value is the difference |
| Polynomials.ProductValue | polynomial.py:153-163 | the terms `multiply` appends give a canonical list whose value is the product |
| Polynomials.CoeffAbsent | polynomial.py:28-33 | an exponent that occurs in no term has coefficient 0 |
| Polynomials.CoeffLeading | polynomial.py:28-33 | in a descending list only the leading term contributes at its exponent, and nothing contributes above it |
| Polynomials.StrictUnique | polynomial.py:28-33 | two strict lists without zero coefficients that agree at every power are equal |
| Polynomials.CanonicalUnique | polynomial.py:28-33 | a canonical list is determined by its coefficients at each power |
| Polynomials.AddCommutes | polynomial.py:131-140 | `a.add(b)` and `b.add(a)` give the same term list |
| Polynomials.AddZero | polynomial.py:131-140 | adding the zero polynomial, or copying a canonical list into a fresh polynomial, gives the list back |
| Polynomials.SubtractSelf | polynomial.py:142-151 | `p.subtract(p)` is the zero polynomial |
| Polynomials.ProductsByZero | polynomial.py:153-163 | every product with the zero polynomial has coefficient 0 at each power |
| Polynomials.MultiplyZero | polynomial.py:153-163 | `p.multiply(zero)` is the zero polynomial, since `append` skips zero terms |
| Polynomials.ProductsByOne | polynomial.py:153-163 | the products with the constant 1 are the terms themselves |
| Polynomials.MultiplyOne | polynomial.py:153-163 | `p.multiply(one)` builds `p` again |
| Polynomials.Renders | polynomial.py:174-181 | one render per term, each a word |
| Polynomials.LeadingExponent | polynomial.py:64-70 | the leading exponent of a canonical list is its maximum exponent |
| Polynomials.Polynomial.constructor | polynomial.py:40-44 | a fresh polynomial is `[(0, 0)]`: coefficients `[0]`, exponents `[0]`, degree 0 |
| Polynomials.Polynomial.Coefficients | polynomial.py:50-55 | the coefficients of the terms, in order |
| Polynomials.Polynomial.Exponents | polynomial.py:57-62 | the exponents of the terms, in order |
| Polynomials.Polynomial.Degree | polynomial.py:64-70 | the degree is the maximum exponent, and some term has it |
| Polynomials.Polynomial.Append | polynomial.py:76-129 | the new list is `Insert(old, m)` and stays canonical; a zero monomial changes nothing; the value grows by exactly `m`'s value |
| Polynomials.Polynomial.Add | polynomial.py:131-140 | a fresh canonical result, built by appending both term lists; neither operand changes; its value is the sum |
| Polynomials.Polynomial.Subtract | polynomial.py:142-151 | as `Add`, with the other operand's coefficients negated; its value is the difference |
| Polynomials.Polynomial.Multiply | polynomial.py:153-163 | a fresh canonical result, built by appending every pairwise product row by row; neither operand changes; its value is the product |
| Polynomials.Polynomial.Evaluate | polynomial.py:165-172 | the accumulated sum equals `Value(terms, x)` |
| Polynomials.Polynomial.ToString | polynomial.py:174-181 | the result is the terms' renders joined by single spaces |
| AppendAsWritten.Step | polynomial.py:93-116 | one pass of the loop as written; a pass that neither sets `appended` nor advances `i` has just added `m`'s coefficient to the like term at `i` |
| AppendAsWritten.AppendFor | polynomial.py:76-129 | `append` as written within `fuel` passes: a zero monomial changes nothing and a finished run never leaves the list empty; `AgreesWithoutLikeTerm` and `AppendLikeNeverStops` relate it to `Insert` |
| AppendAsWritten.Finish | polynomial.py:116-119 | after the loop, the monomial goes at the end unless the loop placed it |
| AppendAsWritten.Stopped | polynomial.py:93 | the negation of the loop condition `not appended and i < len(self.__terms)`; `Run`'s ensures say that every finished run ends in it |
| AppendAsWritten.Run | polynomial.py:93-116 | a run that ends does so on the loop's exit condition |
| AppendAsWritten.MergeNeverStops | polynomial.py:107-109 | at a like term of the same sign, the loop as written never stops, whatever the number of passes |
| AppendAsWritten.RunSkips | polynomial.py:114-115 | over larger exponents the loop only advances `i`, one pass per term |
| AppendAsWritten.AppendLikeNeverStops | polynomial.py:76-119 | appending a like term of the same sign never finishes |
| AppendAsWritten.RunInserts | polynomial.py:93-119 | without a like term, the loop as written finishes with the scan's result |
| AppendAsWritten.AgreesWithoutLikeTerm | polynomial.py:76-129 | without a like term, `append` as written equals `Insert` |
| AppendAsWritten.SampleNeverStops | polynomial.py:107-109 | appending `15 x^11` to `5 x^11 + 25 x^8 - 17 x^5` never finishes, where the intended result is `20 x^11 + 25 x^8 - 17 x^5` |
| AppendAsWritten.ProductNeverStops | polynomial.py:107-109 | appending `50 x^12` to `10 x^15 - 5 x^14 + 25 x^12 - 25 x^11`, the first row of P1 times P2, never finishes, where the intended result has `75 x^12` |
| AppendAsWritten.ProductRowIsRow | polynomial.py:157-162 | the first row that `multiply` appends for P1 times P2 is `10 x^15 - 5 x^14 + 25 x^12 - 25 x^11` |
| AppendAsWritten.DoubleCombination | polynomial.py:107-112 | appending `x` to `-2 x + 1` as written gives `1`, where the intended result is `-x + 1` |
| AppendAsWritten.DoubleCombinationPasses | polynomial.py:107-112 | the two passes behind that result: one combination, then a cancellation |
| AppendAsWritten.DoubleCombinationValue | polynomial.py:165-172 | that result has the wrong value: 1 at x = 1 instead of 0 |
| Samples.FirstRenders | polynomial.py:174-181 | P1 renders `+ 5 x^11 + 25 x^8 - 17 x^5` |
| Samples.SecondRenders | polynomial.py:174-181 | P2 renders `+ 2 x^4 - x^3 + 5 x - 5` |
| Samples.RenderedWith | monomial.py:115-145 | a term of magnitude other than 1 with an exponent of at least 2 renders as sign, magnitude, ` x^` and exponent |
| Samples.AppendsLast | polynomial.py:117-119 | a monomial below every exponent is appended at the end |
| Samples.FirstProperties | polynomial.py:50-70 | P1 has coefficients `[5, 25, -17]`, exponents `[11, 8, 5]` and degree 11 |
| Samples.BuildFirst | polynomial.py:76-129 | three appends build P1 and its text |
| Samples.BuildSecond | polynomial.py:76-129 | four appends build P2 and its text, with coefficients `[2, -1, 5, -5]`, exponents `[4, 3, 1, 0]` and degree 4 |
| Samples.SecondProperties | polynomial.py:50-63 | P2 has coefficients `[2, -1, 5, -5]` and exponents `[4, 3, 1, 0]` |
| Samples.BuildThird | polynomial.py:84-89 | one append replaces the zero polynomial and builds P3 = `+ 15 x^11`, with coefficients `[15]`, exponents `[11]` and degree 11 |
| Samples.BuildFourth | polynomial.py:84-89 | one append builds P4 = `+ 1`, with coefficients `[1]`, exponents `[0]` and degree 0 |
| Samples.SingleRender | polynomial.py:174-181 | the text of a one-term polynomial is the render of its term |
| Samples.EvaluateFirst | polynomial.py:165-172 | P1 evaluates to 0 at 0 and to 13 at 1 through the class |
| Samples.FirstValues | polynomial.py:165-172 | P1(0) = 0 and P1(1) = 13 |
| Samples.ThreeTermValues | monomial.py:111-113 | three terms of positive exponent have value 0 at 0 and the sum of their coefficients at 1 |
| Samples.Cancel | polynomial.py:110-129 | not a sample of the script: appending `5` and then `-5` gives the zero polynomial, which has degree 0 and renders `+ 0` |

## Left out

- main.py is not part of this model. It prints sample computations. Its four sample polynomials, their announced renders and printed properties, and P1's values at 0 and 1 appear in `samples.dfy`. The other printed evaluations, and the printed sums, differences and products, are not modelled.
- Coefficients are Dafny `real`, which is exact. Python floats, with rounding, and the evaluation points `-2.4` and `7.7` are not modelled.
- Monomials.Render: it and `Polynomials.Polynomial.ToString` stand for Python `int` coefficients only (`IsIntegral`). Any float coefficient, integral or not, is left out, because `str()` of a float always shows a decimal point (`str(2.0)` is `2.0`). This includes every quotient `divide` returns, since `/` is true division (monomial.py:105). So `Monomial(6, 3).divide(Monomial(3, 1))` renders `+ 2.0 x^2` in the source, and `Monomial(2, 1).divide(Monomial(2, 0))` renders `+ 1.0 x` with no unit collapse. The model gives `+ 2 x^2` and `+ x` for those values.
- Exceptions: `ValueError` and the bare `Exception` of the guarded operations become `Err` values of `Result`. Their messages are not modelled.
- Monomials.Render: the model chooses the collapsed token directly. `RenderMatchesReplace` proves this equals the source's `replace(' 1 x', ' x')` for every integer coefficient.
- Text.Strip: the whitespace set is space, tab, newline and carriage return, not Python's full Unicode set. Renders contain only spaces.
- Polynomials.Polynomial.Append: the merge branch combines once and stops, as the documentation says. The source behaves differently; see Findings. The as-written loop has no termination measure, so module `AppendAsWritten` models it as a run bounded by `fuel` passes.
- AppendAsWritten.Run: a run is bounded by `fuel` passes. `None` means that the loop has not stopped within that bound. Non-termination is stated as `None` for every bound.
- Aliasing: `add`, `subtract` and `multiply` may be called with the receiver as argument. The model allows this because only the fresh result is modified.
- Access to private fields and the read-only `coefficient`/`exponent` properties of monomial.py is the datatype's field access.

## Findings

| source | as written | input that shows it | evidently intended | confidence | as-written member | corrected member |
|---|---|---|---|---|---|---|
| polynomial.py:107-109 | when the sum with a like term is non-zero, the loop replaces the term but neither sets `appended` nor advances `i`, so it adds the monomial again on every pass | the demonstration's first product, P1 times P2 (main.py:53), never finishes: after the first row `10 x^15 - 5 x^14 + 25 x^12 - 25 x^11`, appending `50 x^12` meets a like term of the same sign; `5 x^11 + 25 x^8 - 17 x^5` plus `15 x^11` (P1 plus P3) never finishes either; `-2 x + 1` plus `x` gives `1` | combine once and stop (polynomial.py:30-31, 78-81), giving `75 x^12` in place of `25 x^12`, `20 x^11 + 25 x^8 - 17 x^5` and `-x + 1` | high (not executed) | AppendAsWritten.ProductNeverStops | Polynomials.Polynomial.Append |
