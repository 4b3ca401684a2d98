/** A monomial `coefficient · x^exponent`: an immutable value with a real
    coefficient and a non-negative integer exponent. The operations that the
    Python class guards with an exception return `Err` here instead. */
module Monomials {
  import opened Text

  /** The three ways a monomial operation can refuse its arguments. */
  datatype Failure = InvalidExponent | IncompatibleExponents | InvalidDivision

  datatype Result<T> = Ok(value: T) | Err(error: Failure)

  datatype Monomial = Monomial(coefficient: real, exponent: nat)

  /** `Monomial()`: the default arguments give M(x) = 0. */
  const Zero := Monomial(0.0, 0)

  /** `Monomial(coefficient, exponent)`: the exponent must be non-negative. */
  function Make(coefficient: real, exponent: int): (r: Result<Monomial>)
    ensures r.Ok? <==> exponent >= 0
    ensures r.Ok? ==> r.value.coefficient == coefficient && r.value.exponent == exponent
    ensures r.Err? ==> r.error == InvalidExponent
  {
    if exponent >= 0 then Ok(Monomial(coefficient, exponent)) else Err(InvalidExponent)
  }

  /** `x ** n` for a natural `n`; `0 ** 0` is 1, as in Python. */
  function Pow(x: real, n: nat): (p: real)
    ensures x == 1.0 ==> p == 1.0
    ensures x == 0.0 ==> (p == 1.0 <==> n == 0) && (n > 0 ==> p == 0.0)
    ensures x > 0.0 ==> p > 0.0
    decreases n
  {
    if n == 0 then 1.0 else x * Pow(x, n - 1)
  }

  lemma {:induction false} PowAdd(x: real, m: nat, n: nat)
    ensures Pow(x, m + n) == Pow(x, m) * Pow(x, n)
    decreases m
  {
    if m > 0 {
      PowAdd(x, m - 1, n);
      assert Pow(x, m + n) == x * Pow(x, (m - 1) + n);
    }
  }

  /** `evaluate(value)`: the value of the monomial at `x`. */
  function Evaluate(m: Monomial, x: real): (v: real)
    ensures m.exponent == 0 ==> v == m.coefficient
    ensures m.coefficient == 0.0 ==> v == 0.0
  {
    m.coefficient * Pow(x, m.exponent)
  }

  /** `add`: defined only for like terms. */
  function Add(a: Monomial, b: Monomial): (r: Result<Monomial>)
    ensures r.Ok? <==> a.exponent == b.exponent
    ensures r.Ok? ==> r.value.coefficient == a.coefficient + b.coefficient && r.value.exponent == a.exponent
    ensures r.Err? ==> r.error == IncompatibleExponents
  {
    if a.exponent == b.exponent then Ok(Monomial(a.coefficient + b.coefficient, a.exponent))
    else Err(IncompatibleExponents)
  }

  /** `subtract`: defined only for like terms. */
  function Subtract(a: Monomial, b: Monomial): (r: Result<Monomial>)
    ensures r.Ok? <==> a.exponent == b.exponent
    ensures r.Ok? ==> r.value.coefficient == a.coefficient - b.coefficient && r.value.exponent == a.exponent
    ensures r.Err? ==> r.error == IncompatibleExponents
  {
    if a.exponent == b.exponent then Ok(Monomial(a.coefficient - b.coefficient, a.exponent))
    else Err(IncompatibleExponents)
  }

  /** `multiply`: total. */
  function Multiply(a: Monomial, b: Monomial): (r: Monomial)
    ensures r.exponent == a.exponent + b.exponent
    ensures r.coefficient == 0.0 <==> a.coefficient == 0.0 || b.coefficient == 0.0
  {
    Monomial(a.coefficient * b.coefficient, a.exponent + b.exponent)
  }

  /** `divide`: the divisor must be non-zero and of no higher degree than the dividend. */
  function Divide(a: Monomial, divisor: Monomial): (r: Result<Monomial>)
    ensures r.Ok? <==> divisor.coefficient != 0.0 && a.exponent >= divisor.exponent
    ensures r.Err? ==> r.error == InvalidDivision
  {
    if divisor.coefficient != 0.0 && a.exponent >= divisor.exponent then
      Ok(Monomial(a.coefficient / divisor.coefficient, a.exponent - divisor.exponent))
    else Err(InvalidDivision)
  }

  /** The sum of two like terms evaluates to the sum of their values. */
  lemma AddEvaluate(a: Monomial, b: Monomial, x: real)
    requires a.exponent == b.exponent
    ensures Add(a, b).Ok? && Evaluate(Add(a, b).value, x) == Evaluate(a, x) + Evaluate(b, x)
  {
    assert (a.coefficient + b.coefficient) * Pow(x, a.exponent)
        == a.coefficient * Pow(x, a.exponent) + b.coefficient * Pow(x, a.exponent);
  }

  /** The difference of two like terms evaluates to the difference of their values. */
  lemma SubtractEvaluate(a: Monomial, b: Monomial, x: real)
    requires a.exponent == b.exponent
    ensures Subtract(a, b).Ok? && Evaluate(Subtract(a, b).value, x) == Evaluate(a, x) - Evaluate(b, x)
  {
    assert (a.coefficient - b.coefficient) * Pow(x, a.exponent)
        == a.coefficient * Pow(x, a.exponent) - b.coefficient * Pow(x, a.exponent);
  }

  /** Subtracting a term undoes adding it. */
  lemma SubtractUndoesAdd(a: Monomial, b: Monomial)
    requires a.exponent == b.exponent
    ensures Add(a, b).Ok? && Subtract(Add(a, b).value, b) == Ok(a)
  {
  }

  /** Real multiplication under a name of its own, so that equal factors
      give equal products by congruence alone. */
  function Times(a: real, b: real): real {
    a * b
  }

  lemma TimesDistributesLeft(k: real, u: real, v: real)
    ensures Times(k, u + v) == Times(k, u) + Times(k, v)
  {
  }

  lemma TimesDistributesRight(u: real, v: real, k: real)
    ensures Times(u + v, k) == Times(u, k) + Times(v, k)
  {
  }

  lemma EvaluateTimes(m: Monomial, x: real)
    ensures Evaluate(m, x) == Times(m.coefficient, Pow(x, m.exponent))
  {
  }

  lemma PowAddTimes(x: real, m: nat, n: nat)
    ensures Pow(x, m + n) == Times(Pow(x, m), Pow(x, n))
  {
    PowAdd(x, m, n);
  }

  lemma CoefficientTimes(a: Monomial, b: Monomial)
    ensures Multiply(a, b).coefficient == Times(a.coefficient, b.coefficient)
  {
  }

  /** The arithmetic behind `MultiplyEvaluate`, over plain reals. */
  lemma ProductLaw(ca: real, cb: real, pa: real, pb: real)
    ensures Times(Times(ca, cb), Times(pa, pb)) == Times(Times(ca, pa), Times(cb, pb))
  {
    assert (ca * cb) * (pa * pb) == (ca * pa) * (cb * pb);
  }

  /** The product evaluates to the product of the values. */
  lemma MultiplyEvaluate(a: Monomial, b: Monomial, x: real)
    ensures Evaluate(Multiply(a, b), x) == Evaluate(a, x) * Evaluate(b, x)
  {
    EvaluateTimes(Multiply(a, b), x);
    EvaluateTimes(a, x);
    EvaluateTimes(b, x);
    CoefficientTimes(a, b);
    PowAddTimes(x, a.exponent, b.exponent);
    ProductLaw(a.coefficient, b.coefficient, Pow(x, a.exponent), Pow(x, b.exponent));
  }

  /** Dividing a product by a non-zero factor gives back the other factor. */
  lemma DivideUndoesMultiply(a: Monomial, b: Monomial)
    requires b.coefficient != 0.0
    ensures Divide(Multiply(a, b), b) == Ok(a)
  {
    var p := Multiply(a, b);
    assert p.coefficient / b.coefficient == a.coefficient;
    assert p.exponent - b.exponent == a.exponent;
  }

  /** A successful quotient times the divisor gives back the dividend. */
  lemma MultiplyUndoesDivide(a: Monomial, b: Monomial)
    requires Divide(a, b).Ok?
    ensures Multiply(Divide(a, b).value, b) == a
  {
    assert (a.coefficient / b.coefficient) * b.coefficient == a.coefficient;
  }

  // ------------------------------------------------------------------
  // Rendering (`__str__`), for integer coefficients
  // ------------------------------------------------------------------

  predicate IsIntegral(r: real) {
    r.Floor as real == r
  }

  function Magnitude(c: int): nat {
    if c < 0 then -c else c
  }

  /** '+' for a non-negative coefficient, '-' otherwise. */
  function SignChar(c: int): char {
    if c >= 0 then '+' else '-'
  }

  /** `""` for x^0, `" x"` for x^1, `" x^e"` above that. */
  function PowerToken(e: nat): string {
    if e == 0 then "" else " x" + Superscript(e)
  }

  /** What follows the `x` of a power token: `"^e"` above the first power. */
  function Superscript(e: nat): (q: string)
    ensures forall k :: 0 <= k < |q| ==> q[k] != ' '
  {
    if e <= 1 then "" else "^" + NatToString(e)
  }

  /** The text `sign + str(abs(c)) + power` that the source builds before
      collapsing `" 1 x"`. */
  function Uncollapsed(c: int, e: nat): string {
    [SignChar(c), ' '] + NatToString(Magnitude(c)) + PowerToken(e)
  }

  /** `str(m)`, with the collapse of a unit coefficient written as a choice
      of tokens: a coefficient of magnitude 1 in front of a power of x
      contributes only its sign. */
  function Render(m: Monomial): (s: string)
    requires IsIntegral(m.coefficient)
    ensures |s| >= 3 && s[1] == ' ' && Word(s)
    ensures s[0] == '+' || s[0] == '-'
    ensures s[0] == '-' <==> m.coefficient < 0.0
  {
    var c := m.coefficient.Floor;
    if c == 0 then "+ 0"
    else if Magnitude(c) == 1 && m.exponent >= 1 then [SignChar(c)] + PowerToken(m.exponent)
    else Uncollapsed(c, m.exponent)
  }

  /** `str(m)` exactly as the source computes it, with a textual replace. */
  function RenderByReplace(m: Monomial): string
    requires IsIntegral(m.coefficient)
  {
    var c := m.coefficient.Floor;
    if c == 0 then "+ 0" else ReplaceAll(Uncollapsed(c, m.exponent), " 1 x", " x")
  }

  /** The power token never contains an occurrence of `" 1 x"`. */
  lemma PowerTokenUnchanged(e: nat)
    ensures ReplaceAll(PowerToken(e), " 1 x", " x") == PowerToken(e)
  {
    if e >= 1 {
      var q := Superscript(e);
      var p := PowerToken(e);
      assert p[1] == 'x';
      ReplaceAllStep(p, " 1 x", " x");
      DropSpace("x", q);
      ReplaceAllSkip("x" + q, "", " 1 x", " x");
      assert ("x" + q) + "" == "x" + q;
    }
  }

  /** A unit coefficient before a power of x: `" 1 x"` is found once, at the front. */
  lemma ReplaceCollapses(q: string)
    requires forall k :: 0 <= k < |q| ==> q[k] != ' '
    ensures ReplaceAll(" 1 x" + q, " 1 x", " x") == " x" + q
  {
    var s := " 1 x" + q;
    assert s[..4] == " 1 x" && s[4..] == q;
    ReplaceAllSkip(q, "", " 1 x", " x");
    assert q + "" == q;
  }

  lemma SingleOne(d: string)
    requires |d| == 1 && d[0] == '1'
    ensures d == "1"
  {
  }

  lemma DropSpace(d: string, p: string)
    ensures (" " + d + p)[1..] == d + p
  {
  }

  /** Any other magnitude, or a unit constant: `" 1 x"` does not occur. */
  lemma ReplaceKeeps(d: string, e: nat)
    requires |d| > 0 && AllDigits(d)
    requires !(d == "1" && e >= 1)
    ensures ReplaceAll(" " + d + PowerToken(e), " 1 x", " x") == " " + d + PowerToken(e)
  {
    var p := PowerToken(e);
    var pat := " 1 x";
    var tail := " " + d + p;
    if |d| == 1 && d[0] == '1' {
      SingleOne(d);
    }
    assert |d| == 1 && d[0] == '1' ==> p == "";
    if |tail| >= 4 {
      var front := tail[..4];
      assert front[1] == d[0];
      if d[0] == '1' {
        assert front[2] == d[1];
      }
      assert front != pat;
    }
    DropSpace(d, p);
    ReplaceAllStep(tail, pat, " x");
    ReplaceAllSkip(d, p, pat, " x");
    PowerTokenUnchanged(e);
  }

  /** The collapse: after a sign, `" 1"` and the power's `" x"` become just the power. */
  lemma CollapseCase(sc: char, e: nat)
    requires sc != ' ' && e >= 1
    ensures ReplaceAll([sc] + (" " + "1" + PowerToken(e)), " 1 x", " x") == [sc] + PowerToken(e)
  {
    var q := Superscript(e);
    UnitFront(q);
    ReplaceAllSkip([sc], " 1 x" + q, " 1 x", " x");
    ReplaceCollapses(q);
  }

  lemma UnitFront(q: string)
    ensures " " + "1" + (" x" + q) == " 1 x" + q
  {
  }

  lemma UncollapsedSplit(c: int, e: nat)
    ensures Uncollapsed(c, e) == [SignChar(c)] + (" " + NatToString(Magnitude(c)) + PowerToken(e))
  {
    SignSplit(SignChar(c), NatToString(Magnitude(c)), PowerToken(e));
  }

  lemma SignSplit(sc: char, d: string, p: string)
    ensures [sc, ' '] + d + p == [sc] + (" " + d + p)
  {
    assert [sc, ' '] == [sc] + " ";
  }

  /** On the text the source builds, the replace performs exactly the
      token choice `Render` makes. */
  lemma UncollapsedReplaced(c: int, e: nat)
    requires c != 0
    ensures ReplaceAll(Uncollapsed(c, e), " 1 x", " x")
         == if Magnitude(c) == 1 && e >= 1 then [SignChar(c)] + PowerToken(e) else Uncollapsed(c, e)
  {
    UncollapsedSplit(c, e);
    NatToStringIsOne(Magnitude(c));
    if Magnitude(c) == 1 && e >= 1 {
      CollapseCase(SignChar(c), e);
    } else {
      var d := NatToString(Magnitude(c));
      ReplaceAllSkip([SignChar(c)], " " + d + PowerToken(e), " 1 x", " x");
      ReplaceKeeps(d, e);
    }
  }

  /** The token choice agrees with the source's `replace(' 1 x', ' x')`
      on every render of an integer coefficient. */
  lemma RenderMatchesReplace(m: Monomial)
    requires IsIntegral(m.coefficient)
    ensures Render(m) == RenderByReplace(m)
  {
    if m.coefficient.Floor != 0 {
      UncollapsedReplaced(m.coefficient.Floor, m.exponent);
    }
  }

  /** Sample renders: a unit coefficient in front of a power of x shows only its sign. */
  lemma RenderCollapseSamples()
    ensures Render(Monomial(-1.0, 3)) == "- x^3"
    ensures Render(Monomial(1.0, 1)) == "+ x"
  {
    assert NatToString(3) == "3";
  }

  /** Sample renders the collapse must leave alone: another magnitude, a
      constant, and zero. */
  lemma RenderKeepSamples()
    ensures Render(Monomial(21.0, 1)) == "+ 21 x"
    ensures Render(Monomial(1.0, 0)) == "+ 1"
    ensures Render(Monomial(-5.0, 0)) == "- 5"
    ensures Render(Zero) == "+ 0"
  {
    assert NatToString(21) == "21";
  }
}
