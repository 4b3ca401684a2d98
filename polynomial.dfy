/** A polynomial in one variable as a canonical list of monomials, kept in
    canonical form by a single insertion primitive (`append`) from which
    addition, subtraction and multiplication are built.

    The pure functions below specify the class at the end of the file:
    `Insert` is what one `append` does to the term list, `AppendAll` what a
    run of appends does, and `Value`/`CoeffAt` give a term list its meaning. */
module Polynomials {
  import opened Text
  import opened Monomials

  // ------------------------------------------------------------------
  // Canonical form and meaning of a term list
  // ------------------------------------------------------------------

  /** Exponents strictly descending (hence pairwise distinct). */
  ghost predicate Descending(ts: seq<Monomial>) {
    forall i, j :: 0 <= i < j < |ts| ==> ts[i].exponent > ts[j].exponent
  }

  ghost predicate NonZero(ts: seq<Monomial>) {
    forall i :: 0 <= i < |ts| ==> ts[i].coefficient != 0.0
  }

  /** The class invariant: never empty, exponents strictly descending, and no
      zero coefficient except in the single term `(0, 0)` of the zero polynomial. */
  ghost predicate Canonical(ts: seq<Monomial>) {
    |ts| > 0 && Descending(ts) && (ts == [Zero] || NonZero(ts))
  }

  /** The value of the term list at `x`: the sum of its terms' values. */
  ghost function Value(ts: seq<Monomial>, x: real): real
    decreases |ts|
  {
    if ts == [] then 0.0 else Evaluate(ts[0], x) + Value(ts[1..], x)
  }

  /** The total coefficient the term list gives to `x^e`. */
  ghost function CoeffAt(ts: seq<Monomial>, e: nat): real
    decreases |ts|
  {
    if ts == [] then 0.0
    else (if ts[0].exponent == e then ts[0].coefficient else 0.0) + CoeffAt(ts[1..], e)
  }

  lemma TakeAll(ts: seq<Monomial>)
    ensures ts[..|ts|] == ts
  {
  }

  lemma {:induction false} ValueConcat(a: seq<Monomial>, b: seq<Monomial>, x: real)
    ensures Value(a + b, x) == Value(a, x) + Value(b, x)
    decreases |a|
  {
    if a != [] {
      assert (a + b)[1..] == a[1..] + b;
      ValueConcat(a[1..], b, x);
    } else {
      assert a + b == b;
    }
  }

  lemma {:induction false} CoeffConcat(a: seq<Monomial>, b: seq<Monomial>, e: nat)
    ensures CoeffAt(a + b, e) == CoeffAt(a, e) + CoeffAt(b, e)
    decreases |a|
  {
    if a != [] {
      assert (a + b)[1..] == a[1..] + b;
      CoeffConcat(a[1..], b, e);
    } else {
      assert a + b == b;
    }
  }

  // ------------------------------------------------------------------
  // One append (polynomial.py:76-129)
  // ------------------------------------------------------------------

  /** The scan of polynomial.py:91-119 from position 0: insert before the
      first smaller exponent, combine with an equal one (dropping the term
      when the sum is zero), or append at the end.

      The source's combine branch (polynomial.py:108-109) replaces the term
      but neither sets `appended` nor advances `i`, so its loop adds the same
      monomial again and again; this function follows the documented intent
      (polynomial.py:30-31, 78-81) and combines once. The as-written loop is
      modelled in module AppendAsWritten. */
  function Scan(ts: seq<Monomial>, m: Monomial): (r: seq<Monomial>)
    ensures |ts| - 1 <= |r| <= |ts| + 1
    decreases |ts|
  {
    if ts == [] then [m]
    else if m.exponent > ts[0].exponent then [m] + ts
    else if m.exponent == ts[0].exponent then
      if ts[0].coefficient + m.coefficient != 0.0 then [Monomials.Add(ts[0], m).value] + ts[1..]
      else ts[1..]
    else [ts[0]] + Scan(ts[1..], m)
  }

  /** The repair of polynomial.py:122-129: an emptied list, or a single term
      with coefficient zero, becomes the zero polynomial. */
  function Repair(ts: seq<Monomial>): (r: seq<Monomial>)
    ensures r != []
    ensures |ts| >= 2 ==> r == ts
    ensures |r| == 1 && r[0].coefficient == 0.0 ==> r == [Zero]
  {
    if |ts| == 0 then [Zero]
    else if |ts| == 1 && ts[0].coefficient == 0.0 then [Zero]
    else ts
  }

  /** The term list after `append(m)`. */
  function Insert(ts: seq<Monomial>, m: Monomial): (r: seq<Monomial>)
    ensures m.coefficient == 0.0 ==> r == ts
    ensures ts != [] ==> r != []
  {
    if m.coefficient == 0.0 then ts
    else if |ts| == 1 && ts[0].coefficient == 0.0 then [m]
    else Repair(Scan(ts, m))
  }

  /** The largest exponent the scan can produce. */
  function Top(ts: seq<Monomial>, m: Monomial): nat {
    if ts != [] && ts[0].exponent > m.exponent then ts[0].exponent else m.exponent
  }

  /** Past a prefix of exponents above `m`'s, the scan leaves the prefix alone. */
  lemma {:induction false} ScanFrom(ts: seq<Monomial>, i: nat, m: Monomial)
    requires i <= |ts| && forall j :: 0 <= j < i ==> ts[j].exponent > m.exponent
    ensures Scan(ts, m) == ts[..i] + Scan(ts[i..], m)
    decreases i
  {
    if i > 0 {
      ScanFrom(ts[1..], i - 1, m);
      assert ts[1..][..i - 1] == ts[1..i] && ts[1..][i - 1..] == ts[i..];
      assert ts[..i] == [ts[0]] + ts[1..i];
    }
  }

  /** Nothing below `m`'s exponent: the scan appends `m` at the end. */
  lemma ScanAtEnd(ts: seq<Monomial>, m: Monomial)
    requires forall j :: 0 <= j < |ts| ==> ts[j].exponent > m.exponent
    ensures Scan(ts, m) == ts + [m]
  {
    ScanFrom(ts, |ts|, m);
    assert ts[..|ts|] == ts && ts[|ts|..] == [];
  }

  /** The first exponent not above `m`'s is below it: `m` goes in front of it. */
  lemma ScanInsertsAt(ts: seq<Monomial>, i: nat, m: Monomial)
    requires i < |ts| && forall j :: 0 <= j < i ==> ts[j].exponent > m.exponent
    requires m.exponent > ts[i].exponent
    ensures Scan(ts, m) == ts[..i] + [m] + ts[i..]
  {
    ScanFrom(ts, i, m);
    assert ts[..i] + ([m] + ts[i..]) == ts[..i] + [m] + ts[i..];
  }

  /** A like term whose sum with `m` is not zero: the sum replaces it. */
  lemma ScanCombinesAt(ts: seq<Monomial>, i: nat, m: Monomial)
    requires i < |ts| && forall j :: 0 <= j < i ==> ts[j].exponent > m.exponent
    requires m.exponent == ts[i].exponent && ts[i].coefficient + m.coefficient != 0.0
    ensures Scan(ts, m) == ts[i := Monomials.Add(ts[i], m).value]
  {
    ScanFrom(ts, i, m);
    DropFirst(ts, i);
    Splice(ts, i, Monomials.Add(ts[i], m).value);
  }

  lemma DropFirst(ts: seq<Monomial>, i: nat)
    requires i < |ts|
    ensures ts[i..][0] == ts[i] && ts[i..][1..] == ts[i + 1..]
  {
  }

  lemma Splice(ts: seq<Monomial>, i: nat, v: Monomial)
    requires i < |ts|
    ensures ts[..i] + ([v] + ts[i + 1..]) == ts[i := v]
  {
  }

  /** A like term that `m` cancels: the term is removed. */
  lemma ScanCancelsAt(ts: seq<Monomial>, i: nat, m: Monomial)
    requires i < |ts| && forall j :: 0 <= j < i ==> ts[j].exponent > m.exponent
    requires m.exponent == ts[i].exponent && ts[i].coefficient + m.coefficient == 0.0
    ensures Scan(ts, m) == ts[..i] + ts[i + 1..]
  {
    ScanFrom(ts, i, m);
    DropFirst(ts, i);
  }

  lemma {:induction false} ScanStrict(ts: seq<Monomial>, m: Monomial)
    requires Descending(ts) && NonZero(ts) && m.coefficient != 0.0
    ensures Descending(Scan(ts, m)) && NonZero(Scan(ts, m))
    ensures forall k :: 0 <= k < |Scan(ts, m)| ==> Scan(ts, m)[k].exponent <= Top(ts, m)
    decreases |ts|
  {
    if ts != [] && m.exponent < ts[0].exponent {
      var rest := Scan(ts[1..], m);
      ScanStrict(ts[1..], m);
      assert |ts| > 1 ==> ts[1].exponent < ts[0].exponent;
      assert forall k :: 0 <= k < |rest| ==> rest[k].exponent < ts[0].exponent;
      ConsStrict(ts[0], rest);
    }
  }

  /** A head above every term of a strict list keeps it strict. */
  lemma ConsStrict(h: Monomial, rest: seq<Monomial>)
    requires Descending(rest) && NonZero(rest) && h.coefficient != 0.0
    requires forall k :: 0 <= k < |rest| ==> rest[k].exponent < h.exponent
    ensures Descending([h] + rest) && NonZero([h] + rest)
    ensures forall k :: 0 <= k < |[h] + rest| ==> ([h] + rest)[k].exponent <= h.exponent
  {
  }

  lemma {:induction false} ScanValue(ts: seq<Monomial>, m: Monomial, x: real)
    ensures Value(Scan(ts, m), x) == Value(ts, x) + Evaluate(m, x)
    decreases |ts|
  {
    if ts == [] {
    } else if m.exponent > ts[0].exponent {
      assert ([m] + ts)[1..] == ts;
    } else if m.exponent == ts[0].exponent {
      AddEvaluate(ts[0], m, x);
      if ts[0].coefficient + m.coefficient != 0.0 {
        assert ([Monomials.Add(ts[0], m).value] + ts[1..])[1..] == ts[1..];
      } else {
        assert Evaluate(ts[0], x) + Evaluate(m, x) == 0.0 * Pow(x, m.exponent);
      }
    } else {
      ScanValue(ts[1..], m, x);
      assert ([ts[0]] + Scan(ts[1..], m))[1..] == Scan(ts[1..], m);
    }
  }

  lemma {:induction false} ScanCoeff(ts: seq<Monomial>, m: Monomial, e: nat)
    ensures CoeffAt(Scan(ts, m), e) == CoeffAt(ts, e) + (if m.exponent == e then m.coefficient else 0.0)
    decreases |ts|
  {
    if ts == [] {
    } else if m.exponent > ts[0].exponent {
      assert ([m] + ts)[1..] == ts;
    } else if m.exponent == ts[0].exponent {
      if ts[0].coefficient + m.coefficient != 0.0 {
        assert ([Monomials.Add(ts[0], m).value] + ts[1..])[1..] == ts[1..];
      }
    } else {
      ScanCoeff(ts[1..], m, e);
      assert ([ts[0]] + Scan(ts[1..], m))[1..] == Scan(ts[1..], m);
    }
  }

  /** `append(m)` adds exactly `m` to the value, whatever the list. */
  lemma InsertValue(ts: seq<Monomial>, m: Monomial, x: real)
    ensures Value(Insert(ts, m), x) == Value(ts, x) + Evaluate(m, x)
  {
    if m.coefficient != 0.0 && !(|ts| == 1 && ts[0].coefficient == 0.0) {
      ScanValue(ts, m, x);
    }
  }

  /** `append(m)` adds exactly `m`'s coefficient at `m`'s exponent and
      changes no other coefficient. */
  lemma InsertCoeff(ts: seq<Monomial>, m: Monomial, e: nat)
    ensures CoeffAt(Insert(ts, m), e) == CoeffAt(ts, e) + (if m.exponent == e then m.coefficient else 0.0)
  {
    if m.coefficient != 0.0 && !(|ts| == 1 && ts[0].coefficient == 0.0) {
      ScanCoeff(ts, m, e);
    }
  }

  /** `append` preserves the canonical form. */
  lemma InsertCanonical(ts: seq<Monomial>, m: Monomial)
    requires Canonical(ts)
    ensures Canonical(Insert(ts, m))
  {
    if m.coefficient != 0.0 && !(|ts| == 1 && ts[0].coefficient == 0.0) {
      assert ts != [Zero];
      ScanStrict(ts, m);
    }
  }

  lemma {:induction false} ScanRemoves(ts: seq<Monomial>, k: nat)
    requires Descending(ts) && k < |ts|
    ensures Scan(ts, Monomial(-ts[k].coefficient, ts[k].exponent)) == ts[..k] + ts[k + 1..]
    decreases k
  {
    var m := Monomial(-ts[k].coefficient, ts[k].exponent);
    if k > 0 {
      ScanRemoves(ts[1..], k - 1);
      assert ts[1..][k - 1] == ts[k];
      assert ts[..k] + ts[k + 1..] == [ts[0]] + (ts[1..][..k - 1] + ts[1..][k..]);
    }
  }

  /** Appending the negation of a term removes that term; removing the only
      term leaves the zero polynomial. */
  lemma InsertNegation(ts: seq<Monomial>, k: nat)
    requires Canonical(ts) && k < |ts|
    ensures Insert(ts, Monomial(-ts[k].coefficient, ts[k].exponent))
         == if |ts| == 1 then [Zero] else ts[..k] + ts[k + 1..]
  {
    var m := Monomial(-ts[k].coefficient, ts[k].exponent);
    if m.coefficient != 0.0 && !(|ts| == 1 && ts[0].coefficient == 0.0) {
      ScanRemoves(ts, k);
      if |ts| > 1 {
        var r := ts[..k] + ts[k + 1..];
        assert r[0] == ts[0] || r[0] == ts[1];
      }
    }
  }

  // ------------------------------------------------------------------
  // Runs of appends: add, subtract, multiply (polynomial.py:131-163)
  // ------------------------------------------------------------------

  /** The term list after appending each of `ms`, in order, to `base`. */
  function AppendAll(base: seq<Monomial>, ms: seq<Monomial>): seq<Monomial>
    decreases |ms|
  {
    if ms == [] then base else Insert(AppendAll(base, ms[..|ms| - 1]), ms[|ms| - 1])
  }

  lemma AppendAllSnoc(base: seq<Monomial>, ms: seq<Monomial>, m: Monomial)
    ensures AppendAll(base, ms + [m]) == Insert(AppendAll(base, ms), m)
  {
    assert (ms + [m])[..|ms|] == ms;
  }

  lemma {:induction false} AppendAllConcat(base: seq<Monomial>, a: seq<Monomial>, b: seq<Monomial>)
    ensures AppendAll(AppendAll(base, a), b) == AppendAll(base, a + b)
    decreases |b|
  {
    if b == [] {
      assert a + b == a;
    } else {
      var init := b[..|b| - 1];
      AppendAllConcat(base, a, init);
      assert (a + b)[..|a + b| - 1] == a + init;
      assert (a + b)[|a + b| - 1] == b[|b| - 1];
    }
  }

  /** One more element of `ms` is one more append. */
  lemma AppendAllPrefix(base: seq<Monomial>, ms: seq<Monomial>, k: nat)
    requires k < |ms|
    ensures AppendAll(base, ms[..k + 1]) == Insert(AppendAll(base, ms[..k]), ms[k])
  {
    assert ms[..k + 1][..k] == ms[..k];
  }

  lemma {:induction false} AppendAllCanonical(base: seq<Monomial>, ms: seq<Monomial>)
    requires Canonical(base)
    ensures Canonical(AppendAll(base, ms))
    decreases |ms|
  {
    if ms != [] {
      AppendAllCanonical(base, ms[..|ms| - 1]);
      InsertCanonical(AppendAll(base, ms[..|ms| - 1]), ms[|ms| - 1]);
    }
  }

  lemma {:induction false} AppendAllValue(base: seq<Monomial>, ms: seq<Monomial>, x: real)
    ensures Value(AppendAll(base, ms), x) == Value(base, x) + Value(ms, x)
    decreases |ms|
  {
    if ms != [] {
      var init, last := ms[..|ms| - 1], ms[|ms| - 1];
      AppendAllValue(base, init, x);
      InsertValue(AppendAll(base, init), last, x);
      assert ms == init + [last];
      ValueConcat(init, [last], x);
    }
  }

  lemma {:induction false} AppendAllCoeff(base: seq<Monomial>, ms: seq<Monomial>, e: nat)
    ensures CoeffAt(AppendAll(base, ms), e) == CoeffAt(base, e) + CoeffAt(ms, e)
    decreases |ms|
  {
    if ms != [] {
      var init, last := ms[..|ms| - 1], ms[|ms| - 1];
      AppendAllCoeff(base, init, e);
      InsertCoeff(AppendAll(base, init), last, e);
      assert ms == init + [last];
      CoeffConcat(init, [last], e);
    }
  }

  /** The terms `subtract` appends for its second operand: each coefficient negated. */
  function Negated(ts: seq<Monomial>): (r: seq<Monomial>)
    ensures |r| == |ts|
  {
    seq(|ts|, k requires 0 <= k < |ts| => Monomial(-ts[k].coefficient, ts[k].exponent))
  }

  lemma {:induction false} NegatedValue(ts: seq<Monomial>, x: real)
    ensures Value(Negated(ts), x) == -Value(ts, x)
    decreases |ts|
  {
    if ts != [] {
      assert Negated(ts)[1..] == Negated(ts[1..]);
      NegatedValue(ts[1..], x);
    }
  }

  lemma {:induction false} NegatedCoeff(ts: seq<Monomial>, e: nat)
    ensures CoeffAt(Negated(ts), e) == -CoeffAt(ts, e)
    decreases |ts|
  {
    if ts != [] {
      assert Negated(ts)[1..] == Negated(ts[1..]);
      NegatedCoeff(ts[1..], e);
    }
  }

  /** The products `m * b[0]`, `m * b[1]`, ... that the inner loop of `multiply` appends. */
  function Row(m: Monomial, b: seq<Monomial>): (r: seq<Monomial>)
    ensures |r| == |b|
  {
    seq(|b|, k requires 0 <= k < |b| => Monomials.Multiply(m, b[k]))
  }

  /** All pairwise products in the order `multiply` appends them. */
  function Products(a: seq<Monomial>, b: seq<Monomial>): seq<Monomial>
    decreases |a|
  {
    if a == [] then [] else Products(a[..|a| - 1], b) + Row(a[|a| - 1], b)
  }

  lemma ValueSingle(m: Monomial, x: real)
    ensures Value([m], x) == Evaluate(m, x)
  {
    assert [m][1..] == [];
  }

  lemma {:induction false} RowValue(m: Monomial, b: seq<Monomial>, x: real)
    ensures Value(Row(m, b), x) == Times(Evaluate(m, x), Value(b, x))
    decreases |b|
  {
    if b != [] {
      var r := Row(m, b);
      assert r[1..] == Row(m, b[1..]);
      assert r[0] == Monomials.Multiply(m, b[0]);
      RowValue(m, b[1..], x);
      MultiplyEvaluate(m, b[0], x);
      TimesDistributesLeft(Evaluate(m, x), Evaluate(b[0], x), Value(b[1..], x));
    }
  }

  lemma {:induction false} ProductsValue(a: seq<Monomial>, b: seq<Monomial>, x: real)
    ensures Value(Products(a, b), x) == Times(Value(a, x), Value(b, x))
    decreases |a|
  {
    if a != [] {
      var init, last := a[..|a| - 1], a[|a| - 1];
      ProductsValue(init, b, x);
      RowValue(last, b, x);
      ValueConcat(Products(init, b), Row(last, b), x);
      SplitLast(a);
      ValueConcat(init, [last], x);
      ValueSingle(last, x);
      TimesDistributesRight(Value(init, x), Evaluate(last, x), Value(b, x));
    }
  }

  /** The loops of `multiply` at row `k`: the start of the row, one more
      product, and the end of the row. */
  lemma ProductsRowStart(a: seq<Monomial>, b: seq<Monomial>, k: nat)
    requires k < |a|
    ensures Products(a[..k], b) + Row(a[k], b[..0]) == Products(a[..k], b)
  {
    assert Row(a[k], b[..0]) == [];
  }

  lemma RowSnoc(m: Monomial, b: seq<Monomial>, j: nat)
    requires j < |b|
    ensures Row(m, b[..j + 1]) == Row(m, b[..j]) + [Monomials.Multiply(m, b[j])]
  {
  }

  lemma ProductsRowStep(a: seq<Monomial>, b: seq<Monomial>, k: nat, j: nat)
    requires k < |a| && j < |b|
    ensures Products(a[..k], b) + Row(a[k], b[..j + 1])
         == (Products(a[..k], b) + Row(a[k], b[..j])) + [Monomials.Multiply(a[k], b[j])]
  {
    RowSnoc(a[k], b, j);
    SnocAssoc(Products(a[..k], b), Row(a[k], b[..j]), Monomials.Multiply(a[k], b[j]));
  }

  lemma SnocAssoc(u: seq<Monomial>, v: seq<Monomial>, m: Monomial)
    ensures u + (v + [m]) == (u + v) + [m]
  {
  }

  lemma ProductsRowEnd(a: seq<Monomial>, b: seq<Monomial>, k: nat)
    requires k < |a|
    ensures Products(a[..k], b) + Row(a[k], b[..|b|]) == Products(a[..k + 1], b)
  {
    TakeAll(b);
    TakeNext(a, k);
  }

  lemma SplitLast(a: seq<Monomial>)
    requires a != []
    ensures a == a[..|a| - 1] + [a[|a| - 1]]
  {
  }

  lemma TakeNext(a: seq<Monomial>, k: nat)
    requires k < |a|
    ensures a[..k + 1][..k] == a[..k] && a[..k + 1][k] == a[k]
  {
  }

  /** Sum, difference and product, as the term lists the methods build. */
  lemma SumValue(a: seq<Monomial>, b: seq<Monomial>, x: real)
    ensures Canonical(AppendAll([Zero], a + b))
    ensures Value(AppendAll([Zero], a + b), x) == Value(a, x) + Value(b, x)
  {
    AppendAllCanonical([Zero], a + b);
    AppendAllValue([Zero], a + b, x);
    ValueConcat(a, b, x);
  }

  lemma DifferenceValue(a: seq<Monomial>, b: seq<Monomial>, x: real)
    ensures Canonical(AppendAll([Zero], a + Negated(b)))
    ensures Value(AppendAll([Zero], a + Negated(b)), x) == Value(a, x) - Value(b, x)
  {
    AppendAllCanonical([Zero], a + Negated(b));
    AppendAllValue([Zero], a + Negated(b), x);
    ValueConcat(a, Negated(b), x);
    NegatedValue(b, x);
  }

  lemma ProductValue(a: seq<Monomial>, b: seq<Monomial>, x: real)
    ensures Canonical(AppendAll([Zero], Products(a, b)))
    ensures Value(AppendAll([Zero], Products(a, b)), x) == Value(a, x) * Value(b, x)
  {
    AppendAllCanonical([Zero], Products(a, b));
    AppendAllValue([Zero], Products(a, b), x);
    ProductsValue(a, b, x);
  }

  // ------------------------------------------------------------------
  // Uniqueness of the canonical form
  // ------------------------------------------------------------------

  lemma {:induction false} CoeffAbsent(ts: seq<Monomial>, e: nat)
    requires forall k :: 0 <= k < |ts| ==> ts[k].exponent != e
    ensures CoeffAt(ts, e) == 0.0
    decreases |ts|
  {
    if ts != [] {
      CoeffAbsent(ts[1..], e);
    }
  }

  /** In a descending list the leading term alone contributes at its
      exponent, and nothing contributes above it. */
  lemma CoeffLeading(ts: seq<Monomial>, e: nat)
    requires Descending(ts) && ts != [] && e >= ts[0].exponent
    ensures CoeffAt(ts, e) == if e == ts[0].exponent then ts[0].coefficient else 0.0
  {
    CoeffAbsent(ts[1..], e);
  }

  /** Two strictly descending lists without zero coefficients that give every
      power the same coefficient are equal. */
  lemma {:induction false} StrictUnique(a: seq<Monomial>, b: seq<Monomial>)
    requires Descending(a) && NonZero(a) && Descending(b) && NonZero(b)
    requires forall e: nat :: CoeffAt(a, e) == CoeffAt(b, e)
    ensures a == b
    decreases |a|
  {
    if a == [] && b == [] {
    } else if a == [] {
      CoeffLeading(b, b[0].exponent);
      assert false;
    } else if b == [] {
      CoeffLeading(a, a[0].exponent);
      assert false;
    } else if a[0].exponent < b[0].exponent {
      CoeffLeading(a, b[0].exponent);
      CoeffLeading(b, b[0].exponent);
      assert false;
    } else if b[0].exponent < a[0].exponent {
      CoeffLeading(b, a[0].exponent);
      CoeffLeading(a, a[0].exponent);
      assert false;
    } else {
      CoeffLeading(a, a[0].exponent);
      CoeffLeading(b, b[0].exponent);
      assert a[0] == b[0];
      forall e: nat
        ensures CoeffAt(a[1..], e) == CoeffAt(b[1..], e)
      {
        assert CoeffAt(a, e) == CoeffAt(b, e);
      }
      StrictUnique(a[1..], b[1..]);
      assert a == [a[0]] + a[1..];
      assert b == [b[0]] + b[1..];
    }
  }

  /** A canonical term list is determined by its coefficients. */
  lemma CanonicalUnique(a: seq<Monomial>, b: seq<Monomial>)
    requires Canonical(a) && Canonical(b)
    requires forall e: nat :: CoeffAt(a, e) == CoeffAt(b, e)
    ensures a == b
  {
    if a == [Zero] && b != [Zero] {
      assert CoeffAt(a, b[0].exponent) == 0.0;
      CoeffLeading(b, b[0].exponent);
      assert false;
    } else if b == [Zero] && a != [Zero] {
      assert CoeffAt(b, a[0].exponent) == 0.0;
      CoeffLeading(a, a[0].exponent);
      assert false;
    } else if a != [Zero] {
      StrictUnique(a, b);
    }
  }

  /** `a.add(b)` and `b.add(a)` build the same term list. */
  lemma AddCommutes(a: seq<Monomial>, b: seq<Monomial>)
    ensures AppendAll([Zero], a + b) == AppendAll([Zero], b + a)
  {
    AppendAllCanonical([Zero], a + b);
    AppendAllCanonical([Zero], b + a);
    forall e: nat
      ensures CoeffAt(AppendAll([Zero], a + b), e) == CoeffAt(AppendAll([Zero], b + a), e)
    {
      AppendAllCoeff([Zero], a + b, e);
      AppendAllCoeff([Zero], b + a, e);
      CoeffConcat(a, b, e);
      CoeffConcat(b, a, e);
    }
    CanonicalUnique(AppendAll([Zero], a + b), AppendAll([Zero], b + a));
  }

  /** Adding the zero polynomial, or appending a canonical list's own terms
      into a fresh polynomial, gives that list back. */
  lemma AddZero(a: seq<Monomial>)
    requires Canonical(a)
    ensures AppendAll([Zero], a) == a
    ensures AppendAll([Zero], a + [Zero]) == a
  {
    AppendAllCanonical([Zero], a);
    AppendAllCanonical([Zero], a + [Zero]);
    forall e: nat
      ensures CoeffAt(AppendAll([Zero], a), e) == CoeffAt(a, e)
      ensures CoeffAt(AppendAll([Zero], a + [Zero]), e) == CoeffAt(a, e)
    {
      AppendAllCoeff([Zero], a, e);
      AppendAllCoeff([Zero], a + [Zero], e);
      CoeffConcat(a, [Zero], e);
    }
    CanonicalUnique(AppendAll([Zero], a), a);
    CanonicalUnique(AppendAll([Zero], a + [Zero]), a);
  }

  /** `p.subtract(p)` is the zero polynomial. */
  lemma SubtractSelf(a: seq<Monomial>)
    ensures AppendAll([Zero], a + Negated(a)) == [Zero]
  {
    AppendAllCanonical([Zero], a + Negated(a));
    forall e: nat
      ensures CoeffAt(AppendAll([Zero], a + Negated(a)), e) == CoeffAt([Zero], e)
    {
      AppendAllCoeff([Zero], a + Negated(a), e);
      CoeffConcat(a, Negated(a), e);
      NegatedCoeff(a, e);
    }
    CanonicalUnique(AppendAll([Zero], a + Negated(a)), [Zero]);
  }

  lemma {:induction false} ProductsByZero(a: seq<Monomial>, e: nat)
    ensures CoeffAt(Products(a, [Zero]), e) == 0.0
    decreases |a|
  {
    if a != [] {
      var init, last := a[..|a| - 1], a[|a| - 1];
      ProductsByZero(init, e);
      assert Row(last, [Zero]) == [Monomials.Multiply(last, Zero)];
      CoeffConcat(Products(init, [Zero]), Row(last, [Zero]), e);
    }
  }

  /** `p.multiply(zero)` is the zero polynomial. */
  lemma MultiplyZero(a: seq<Monomial>)
    ensures AppendAll([Zero], Products(a, [Zero])) == [Zero]
  {
    AppendAllCanonical([Zero], Products(a, [Zero]));
    forall e: nat
      ensures CoeffAt(AppendAll([Zero], Products(a, [Zero])), e) == CoeffAt([Zero], e)
    {
      AppendAllCoeff([Zero], Products(a, [Zero]), e);
      ProductsByZero(a, e);
    }
    CanonicalUnique(AppendAll([Zero], Products(a, [Zero])), [Zero]);
  }

  lemma {:induction false} ProductsByOne(a: seq<Monomial>)
    ensures Products(a, [Monomial(1.0, 0)]) == a
    decreases |a|
  {
    if a != [] {
      ProductsByOne(a[..|a| - 1]);
      assert Row(a[|a| - 1], [Monomial(1.0, 0)]) == [a[|a| - 1]];
      assert a == a[..|a| - 1] + [a[|a| - 1]];
    }
  }

  /** `p.multiply(one)` builds `p` again. */
  lemma MultiplyOne(a: seq<Monomial>)
    requires Canonical(a)
    ensures AppendAll([Zero], Products(a, [Monomial(1.0, 0)])) == a
  {
    ProductsByOne(a);
    AddZero(a);
  }

  // ------------------------------------------------------------------
  // Rendering (`__str__`, polynomial.py:174-181)
  // ------------------------------------------------------------------

  ghost predicate IntegralTerms(ts: seq<Monomial>) {
    forall k :: 0 <= k < |ts| ==> IsIntegral(ts[k].coefficient)
  }

  /** The render of each term, in order. */
  function Renders(ts: seq<Monomial>): (ws: seq<string>)
    requires IntegralTerms(ts)
    ensures |ws| == |ts| && forall k :: 0 <= k < |ws| ==> Word(ws[k])
  {
    seq(|ts|, k requires 0 <= k < |ts| => Render(ts[k]))
  }

  /** A term list's degree, the exponent of its leading term. */
  function LeadingExponent(ts: seq<Monomial>): (d: nat)
    requires Canonical(ts)
    ensures forall k :: 0 <= k < |ts| ==> ts[k].exponent <= d
    ensures exists k :: 0 <= k < |ts| && ts[k].exponent == d
  {
    assert ts[0].exponent == ts[0].exponent;
    ts[0].exponent
  }

  // ------------------------------------------------------------------
  // The class
  // ------------------------------------------------------------------

  class Polynomial {
    var terms: seq<Monomial>

    ghost predicate Valid()
      reads this
    {
      Canonical(terms)
    }

    /** `Polynomial()`: the zero polynomial, a single term `(0, 0)`. */
    constructor ()
      ensures Valid() && terms == [Zero]
      ensures Coefficients() == [0.0] && Exponents() == [0] && Degree() == 0
    {
      terms := [Zero];
    }

    /** The coefficients, index-aligned with `Exponents()`. */
    function Coefficients(): (cs: seq<real>)
      reads this
      ensures |cs| == |terms|
      ensures forall k :: 0 <= k < |terms| ==> cs[k] == terms[k].coefficient
    {
      var ts := terms;
      seq(|ts|, k requires 0 <= k < |ts| => ts[k].coefficient)
    }

    /** The exponents, strictly descending in a valid polynomial. */
    function Exponents(): (es: seq<nat>)
      reads this
      ensures |es| == |terms|
      ensures forall k :: 0 <= k < |terms| ==> es[k] == terms[k].exponent
    {
      var ts := terms;
      seq(|ts|, k requires 0 <= k < |ts| => ts[k].exponent)
    }

    /** The degree: the largest exponent, which the canonical order puts first. */
    function Degree(): (d: nat)
      reads this
      requires Valid()
      ensures forall k :: 0 <= k < |terms| ==> terms[k].exponent <= d
      ensures exists k :: 0 <= k < |terms| && terms[k].exponent == d
    {
      LeadingExponent(terms)
    }

    /** `append(m)`: insert `m`, combining it with a like term, keeping the
        list canonical. */
    method Append(m: Monomial)
      requires Valid()
      modifies this
      ensures Valid()
      ensures terms == Insert(old(terms), m)
      ensures m.coefficient == 0.0 ==> terms == old(terms)
      ensures forall x: real :: Value(terms, x) == Value(old(terms), x) + Monomials.Evaluate(m, x)
    {
      ghost var before := terms;
      if m.coefficient != 0.0 {
        if |terms| == 1 && terms[0].coefficient == 0.0 {
          terms := terms[0 := m];
        } else {
          ghost var ts := terms;
          var appended := false;
          var i := 0;
          while !appended && i < |terms|
            invariant 0 <= i <= |ts|
            invariant forall j :: 0 <= j < i ==> ts[j].exponent > m.exponent
            invariant !appended ==> terms == ts
            invariant appended ==> terms == Scan(ts, m)
            decreases if appended then 0 else |ts| - i + 1
          {
            if m.exponent > terms[i].exponent {
              ScanInsertsAt(ts, i, m);
              terms := terms[..i] + [m] + terms[i..];
              appended := true;
            } else if m.exponent == terms[i].exponent {
              if terms[i].coefficient + m.coefficient != 0.0 {
                // The source leaves `appended` unset here (polynomial.py:108-109),
                // which repeats this branch without end; the documented intent
                // is one combination, so the scan stops.
                ScanCombinesAt(ts, i, m);
                terms := terms[i := Monomials.Add(terms[i], m).value];
                appended := true;
              } else {
                ScanCancelsAt(ts, i, m);
                terms := terms[..i] + terms[i + 1..];
                appended := true;
              }
            } else {
              i := i + 1;
            }
          }
          if !appended {
            ScanAtEnd(ts, m);
            terms := terms + [m];
          }
          assert terms == Scan(ts, m);
          if |terms| == 0 {
            terms := [Zero];
          } else if |terms| == 1 && terms[0].coefficient == 0.0 {
            terms := [Zero];
          }
          assert terms == Repair(Scan(ts, m));
        }
      }
      InsertCanonical(before, m);
      forall x: real
        ensures Value(terms, x) == Value(before, x) + Monomials.Evaluate(m, x)
      {
        InsertValue(before, m, x);
      }
    }

    /** `add(other)`: a fresh polynomial built by appending this polynomial's
        terms and then the other's; neither operand changes. */
    method Add(other: Polynomial) returns (r: Polynomial)
      ensures fresh(r) && r.Valid()
      ensures terms == old(terms) && other.terms == old(other.terms)
      ensures r.terms == AppendAll([Zero], terms + other.terms)
      ensures forall x: real :: Value(r.terms, x) == Value(terms, x) + Value(other.terms, x)
    {
      r := new Polynomial();
      ghost var a, b := terms, other.terms;
      for k := 0 to |terms|
        invariant fresh(r) && r.Valid()
        invariant r.terms == AppendAll([Zero], a[..k])
      {
        AppendAllPrefix([Zero], a, k);
        r.Append(Monomial(terms[k].coefficient, terms[k].exponent));
      }
      TakeAll(a);
      ghost var mid := r.terms;
      for k := 0 to |other.terms|
        invariant fresh(r) && r.Valid()
        invariant r.terms == AppendAll(mid, b[..k])
      {
        AppendAllPrefix(mid, b, k);
        r.Append(Monomial(other.terms[k].coefficient, other.terms[k].exponent));
      }
      TakeAll(b);
      AppendAllConcat([Zero], a, b);
      forall x: real
        ensures Value(r.terms, x) == Value(a, x) + Value(b, x)
      {
        SumValue(a, b, x);
      }
    }

    /** `subtract(other)`: as `add`, with the other's coefficients negated. */
    method Subtract(other: Polynomial) returns (r: Polynomial)
      ensures fresh(r) && r.Valid()
      ensures terms == old(terms) && other.terms == old(other.terms)
      ensures r.terms == AppendAll([Zero], terms + Negated(other.terms))
      ensures forall x: real :: Value(r.terms, x) == Value(terms, x) - Value(other.terms, x)
    {
      r := new Polynomial();
      ghost var a, b := terms, Negated(other.terms);
      for k := 0 to |terms|
        invariant fresh(r) && r.Valid()
        invariant r.terms == AppendAll([Zero], a[..k])
      {
        AppendAllPrefix([Zero], a, k);
        r.Append(Monomial(terms[k].coefficient, terms[k].exponent));
      }
      TakeAll(a);
      ghost var mid := r.terms;
      for k := 0 to |other.terms|
        invariant fresh(r) && r.Valid()
        invariant r.terms == AppendAll(mid, b[..k])
      {
        assert b[k] == Monomial(-other.terms[k].coefficient, other.terms[k].exponent);
        AppendAllPrefix(mid, b, k);
        r.Append(Monomial(-other.terms[k].coefficient, other.terms[k].exponent));
      }
      TakeAll(b);
      AppendAllConcat([Zero], a, b);
      forall x: real
        ensures Value(r.terms, x) == Value(a, x) - Value(other.terms, x)
      {
        DifferenceValue(a, other.terms, x);
      }
    }

    /** `multiply(other)`: a fresh polynomial built by appending every
        pairwise product of terms, row by row. */
    method Multiply(other: Polynomial) returns (r: Polynomial)
      ensures fresh(r) && r.Valid()
      ensures terms == old(terms) && other.terms == old(other.terms)
      ensures r.terms == AppendAll([Zero], Products(terms, other.terms))
      ensures forall x: real :: Value(r.terms, x) == Times(Value(terms, x), Value(other.terms, x))
    {
      r := new Polynomial();
      ghost var a, b := terms, other.terms;
      for k := 0 to |terms|
        invariant fresh(r) && r.Valid()
        invariant r.terms == AppendAll([Zero], Products(a[..k], b))
      {
        ProductsRowStart(a, b, k);
        for j := 0 to |other.terms|
          invariant fresh(r) && r.Valid()
          invariant r.terms == AppendAll([Zero], Products(a[..k], b) + Row(a[k], b[..j]))
        {
          ProductsRowStep(a, b, k, j);
          AppendAllSnoc([Zero], Products(a[..k], b) + Row(a[k], b[..j]), Monomials.Multiply(a[k], b[j]));
          r.Append(Monomials.Multiply(terms[k], other.terms[j]));
        }
        ProductsRowEnd(a, b, k);
      }
      TakeAll(a);
      forall x: real
        ensures Value(r.terms, x) == Times(Value(terms, x), Value(other.terms, x))
      {
        ProductValue(terms, other.terms, x);
      }
    }

    /** `evaluate(value)`: the sum of the terms' values at `x`. */
    method Evaluate(x: real) returns (v: real)
      ensures v == Value(terms, x)
    {
      v := 0.0;
      for k := 0 to |terms|
        invariant v == Value(terms[..k], x)
      {
        ValueConcat(terms[..k], [terms[k]], x);
        assert terms[..k + 1] == terms[..k] + [terms[k]];
        v := v + Monomials.Evaluate(terms[k], x);
      }
      TakeAll(terms);
    }

    /** `__str__`: each term's render after a space, then `strip()`; the
        result is the renders joined by single spaces. */
    method ToString() returns (s: string)
      requires IntegralTerms(terms)
      ensures s == Joined(Renders(terms))
    {
      ghost var ws := Renders(terms);
      var acc := "";
      for k := 0 to |terms|
        invariant acc == Spaced(ws[..k])
      {
        SpacedPrefix(ws, k);
        acc := acc + " " + Render(terms[k]);
      }
      SpacedAll(ws);
      StripSpaced(ws);
      s := Strip(acc);
    }
  }
}
