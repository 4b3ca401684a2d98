/** The loop of `append` (polynomial.py:91-119) exactly as written, where
    the branch that combines a like term (polynomial.py:108-109) neither
    sets `appended` nor advances `i`. The loop then combines the same term
    with the monomial again on every pass: it stops only if the running sum
    happens to reach the negated coefficient, and it does not stop at all
    while the two coefficients have the same sign.

    Since that loop need not terminate, it is modelled as a state transition
    run for a bounded number of passes. `Polynomials.Insert` is the intended
    behaviour, which the class uses. */
module AppendAsWritten {
  import opened Monomials
  import opened Polynomials
  import Samples

  datatype Option<T> = None | Some(value: T)

  /** The loop's variables: the term list, the index `i` and the flag `appended`. */
  datatype Loop = Loop(terms: seq<Monomial>, i: nat, appended: bool)

  /** One pass of the loop body, following the source branch by branch. */
  function Step(s: Loop, m: Monomial): (r: Loop)
    requires !s.appended && s.i < |s.terms|
    ensures r.appended ==> r.i == s.i
    ensures !r.appended ==> |r.terms| == |s.terms| && r.i <= |r.terms|
    ensures !r.appended && r.i != s.i ==> r.i == s.i + 1 && r.terms == s.terms
    ensures !r.appended && r.i == s.i ==>
              r.terms[r.i].exponent == m.exponent == s.terms[s.i].exponent
              && r.terms[r.i].coefficient == s.terms[s.i].coefficient + m.coefficient
  {
    var t := s.terms[s.i];
    if m.exponent > t.exponent then
      Loop(s.terms[..s.i] + [m] + s.terms[s.i..], s.i, true)
    else if m.exponent == t.exponent then
      if t.coefficient + m.coefficient != 0.0 then
        Loop(s.terms[s.i := Monomials.Add(t, m).value], s.i, false)
      else
        Loop(s.terms[..s.i] + s.terms[s.i + 1..], s.i, true)
    else
      Loop(s.terms, s.i + 1, false)
  }

  /** Whether the loop condition `not appended and i < len(terms)` fails. */
  predicate Stopped(s: Loop) {
    s.appended || s.i >= |s.terms|
  }

  /** The loop run for at most `fuel` passes: the final state, or `None`
      if it is still running. */
  function Run(s: Loop, m: Monomial, fuel: nat): (r: Option<Loop>)
    ensures r.Some? ==> Stopped(r.value)
    ensures Stopped(s) ==> r == Some(s)
    decreases fuel
  {
    if Stopped(s) then Some(s)
    else if fuel == 0 then None
    else Run(Step(s, m), m, fuel - 1)
  }

  /** `append(m)` as written, given `fuel` passes of the loop: the new term
      list, or `None` if the loop has not stopped by then. */
  function AppendFor(ts: seq<Monomial>, m: Monomial, fuel: nat): (r: Option<seq<Monomial>>)
    ensures m.coefficient == 0.0 ==> r == Some(ts)
    ensures r.Some? && ts != [] ==> r.value != []
  {
    if m.coefficient == 0.0 then Some(ts)
    else if |ts| == 1 && ts[0].coefficient == 0.0 then Some([m])
    else match Run(Loop(ts, 0, false), m, fuel)
      case None => None
      case Some(s) => Some(Repair(Finish(s, m)))
  }

  /** After the loop: `m` goes at the end unless the loop placed it. */
  function Finish(s: Loop, m: Monomial): seq<Monomial> {
    if s.appended then s.terms else s.terms + [m]
  }

  /** Two coefficients of the same strict sign. */
  predicate SameSign(a: real, b: real) {
    (a > 0.0 && b > 0.0) || (a < 0.0 && b < 0.0)
  }

  /** At a like term whose coefficient has the monomial's sign, the loop
      never stops, however many passes it is given. */
  lemma {:induction false} MergeNeverStops(s: Loop, m: Monomial, fuel: nat)
    requires !s.appended && s.i < |s.terms|
    requires s.terms[s.i].exponent == m.exponent
    requires SameSign(s.terms[s.i].coefficient, m.coefficient)
    ensures Run(s, m, fuel) == None
    decreases fuel
  {
    if fuel > 0 {
      var r := Step(s, m);
      assert s.terms[s.i].coefficient + m.coefficient != 0.0;
      assert !r.appended && r.i == s.i;
      MergeNeverStops(r, m, fuel - 1);
    }
  }

  /** Appending a like term of the same sign never finishes. */
  lemma AppendLikeNeverStops(ts: seq<Monomial>, m: Monomial, k: nat, fuel: nat)
    requires !(|ts| == 1 && ts[0].coefficient == 0.0)
    requires k < |ts| && ts[k].exponent == m.exponent && SameSign(ts[k].coefficient, m.coefficient)
    requires forall j :: 0 <= j < k ==> ts[j].exponent > m.exponent
    ensures AppendFor(ts, m, fuel) == None
  {
    RunSkips(Loop(ts, 0, false), m, k, fuel);
    if fuel >= k {
      MergeNeverStops(Loop(ts, k, false), m, fuel - k);
    }
  }

  /** Over terms of larger exponent the loop only advances `i`. */
  lemma {:induction false} RunSkips(s: Loop, m: Monomial, k: nat, fuel: nat)
    requires !s.appended && s.i <= k < |s.terms|
    requires forall j :: s.i <= j < k ==> s.terms[j].exponent > m.exponent
    ensures fuel < k - s.i ==> Run(s, m, fuel) == None
    ensures fuel >= k - s.i ==> Run(s, m, fuel) == Run(Loop(s.terms, k, false), m, fuel - (k - s.i))
    decreases k - s.i
  {
    if s.i < k && fuel > 0 {
      RunSkips(Loop(s.terms, s.i + 1, false), m, k, fuel - 1);
    }
  }

  /** With no like term the merge branch never runs, and the loop as written
      does what `Insert` describes. */
  lemma AgreesWithoutLikeTerm(ts: seq<Monomial>, m: Monomial)
    requires forall k :: 0 <= k < |ts| ==> ts[k].exponent != m.exponent
    ensures AppendFor(ts, m, |ts|) == Some(Insert(ts, m))
  {
    if m.coefficient != 0.0 && !(|ts| == 1 && ts[0].coefficient == 0.0) {
      RunInserts(ts, 0, m, |ts|);
    }
  }

  /** From index `i`, with every earlier exponent above `m`'s and no like
      term, the loop finishes within `|ts| - i` passes with the scan's result. */
  lemma {:induction false} RunInserts(ts: seq<Monomial>, i: nat, m: Monomial, fuel: nat)
    requires i <= |ts| && fuel >= |ts| - i
    requires forall k :: 0 <= k < |ts| ==> ts[k].exponent != m.exponent
    requires forall j :: 0 <= j < i ==> ts[j].exponent > m.exponent
    ensures Run(Loop(ts, i, false), m, fuel).Some?
    ensures Finish(Run(Loop(ts, i, false), m, fuel).value, m) == Scan(ts, m)
    decreases |ts| - i
  {
    if i == |ts| {
      ScanAtEnd(ts, m);
    } else if m.exponent > ts[i].exponent {
      ScanInsertsAt(ts, i, m);
    } else {
      RunPasses(Loop(ts, i, false), m, fuel);
      StepSkips(Loop(ts, i, false), m);
      RunInserts(ts, i + 1, m, fuel - 1);
    }
  }

  /** A pass of a loop that has not stopped. */
  lemma RunPasses(s: Loop, m: Monomial, fuel: nat)
    requires !Stopped(s) && fuel > 0
    ensures Run(s, m, fuel) == Run(Step(s, m), m, fuel - 1)
  {
  }

  /** Past a term of larger exponent, a pass only advances `i`. */
  lemma StepSkips(s: Loop, m: Monomial)
    requires !Stopped(s) && m.exponent < s.terms[s.i].exponent
    ensures Step(s, m) == Loop(s.terms, s.i + 1, false)
  {
  }

  /** Appending 15 x^11 to P1 = 5 x^11 + 25 x^8 - 17 x^5 (`Samples.First`)
      never finishes, whereas the intended append gives 20 x^11 + 25 x^8 - 17 x^5. */
  lemma SampleNeverStops(fuel: nat)
    ensures AppendFor(Samples.First(), Monomial(15.0, 11), fuel) == None
    ensures Insert(Samples.First(), Monomial(15.0, 11))
         == [Monomial(20.0, 11), Monomial(25.0, 8), Monomial(-17.0, 5)]
  {
    AppendLikeNeverStops(Samples.First(), Monomial(15.0, 11), 0, fuel);
    ScanCombinesAt(Samples.First(), 0, Monomial(15.0, 11));
  }

  /** The first row of the product of 5 x^11 + 25 x^8 - 17 x^5 and
      2 x^4 - x^3 + 5 x - 5: 10 x^15 - 5 x^14 + 25 x^12 - 25 x^11. */
  function ProductRow(): seq<Monomial> {
    [Monomial(10.0, 15), Monomial(-5.0, 14), Monomial(25.0, 12), Monomial(-25.0, 11)]
  }

  /** `ProductRow` is the first row the nested loops of multiply append:
      P1's leading term times each term of P2. */
  lemma ProductRowIsRow()
    ensures Row(Samples.First()[0], Samples.Second()) == ProductRow()
  {
    var r := Row(Samples.First()[0], Samples.Second());
    assert r[0] == Monomial(10.0, 15);
    assert r[1] == Monomial(-5.0, 14);
    assert r[2] == Monomial(25.0, 12);
    assert r[3] == Monomial(-25.0, 11);
  }

  /** The first product of the second row, 25 x^8 times 2 x^4, meets the like
      term 25 x^12 of the same sign, so that append never finishes, whereas
      the intended append gives 75 x^12 there. */
  lemma ProductNeverStops(fuel: nat)
    ensures AppendFor(ProductRow(), Monomial(50.0, 12), fuel) == None
    ensures Insert(ProductRow(), Monomial(50.0, 12))
         == [Monomial(10.0, 15), Monomial(-5.0, 14), Monomial(75.0, 12), Monomial(-25.0, 11)]
  {
    AppendLikeNeverStops(ProductRow(), Monomial(50.0, 12), 2, fuel);
    ScanCombinesAt(ProductRow(), 2, Monomial(50.0, 12));
  }

  /** Appending x to -2 x + 1: the loop adds x twice, so the like term
      vanishes and the result is 1 rather than -x + 1. */
  lemma DoubleCombination()
    ensures AppendFor([Monomial(-2.0, 1), Monomial(1.0, 0)], Monomial(1.0, 1), 2)
         == Some([Monomial(1.0, 0)])
    ensures Insert([Monomial(-2.0, 1), Monomial(1.0, 0)], Monomial(1.0, 1))
         == [Monomial(-1.0, 1), Monomial(1.0, 0)]
  {
    var ts := [Monomial(-2.0, 1), Monomial(1.0, 0)];
    var m := Monomial(1.0, 1);
    DoubleCombinationPasses();
    ScanCombinesAt(ts, 0, m);
    assert ts[0 := Monomial(-1.0, 1)] == [Monomial(-1.0, 1), Monomial(1.0, 0)];
  }

  /** The two passes of that loop: one combination, then one cancellation. */
  lemma DoubleCombinationPasses()
    ensures Run(Loop([Monomial(-2.0, 1), Monomial(1.0, 0)], 0, false), Monomial(1.0, 1), 2)
         == Some(Loop([Monomial(1.0, 0)], 0, true))
  {
    var m := Monomial(1.0, 1);
    var s0 := Loop([Monomial(-2.0, 1), Monomial(1.0, 0)], 0, false);
    var s1 := Loop([Monomial(-1.0, 1), Monomial(1.0, 0)], 0, false);
    var s2 := Loop([Monomial(1.0, 0)], 0, true);
    assert s0.terms[0 := Monomial(-1.0, 1)] == s1.terms;
    assert Step(s0, m) == s1;
    assert s1.terms[..0] + s1.terms[1..] == s2.terms;
    assert Step(s1, m) == s2;
  }

  /** The as-written result changes the sum's value: at x = 1 the intended
      result is 0, the as-written one 1. */
  lemma DoubleCombinationValue()
    ensures Value([Monomial(-2.0, 1), Monomial(1.0, 0)], 1.0) + Evaluate(Monomial(1.0, 1), 1.0) == 0.0
    ensures Value([Monomial(1.0, 0)], 1.0) == 1.0
  {
    var a, b, m := Monomial(-2.0, 1), Monomial(1.0, 0), Monomial(1.0, 1);
    LinearAtOne(a.coefficient);
    LinearAtOne(m.coefficient);
    ValuePair(a, b, 1.0);
    ValueSingle(b, 1.0);
    assert Evaluate(b, 1.0) == 1.0;
  }

  lemma LinearAtOne(c: real)
    ensures Evaluate(Monomial(c, 1), 1.0) == c
  {
    assert Pow(1.0, 1) == 1.0 * Pow(1.0, 0);
  }

  lemma ValuePair(a: Monomial, b: Monomial, x: real)
    ensures Value([a, b], x) == Evaluate(a, x) + Evaluate(b, x)
  {
    assert [a, b][1..] == [b];
    ValueSingle(b, x);
  }
}
