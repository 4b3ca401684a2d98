/** The four sample polynomials of the demonstration script (main.py:8-26),
    built through the class and rendered, with the renders its comments
    announce, the properties it prints and the value of P1 at 0 and at 1;
    and one cancellation of a term by its negation. */
module Samples {
  import opened Text
  import opened Monomials
  import opened Polynomials

  /** P1 = 5 x^11 + 25 x^8 - 17 x^5. */
  function First(): seq<Monomial> {
    [Monomial(5.0, 11), Monomial(25.0, 8), Monomial(-17.0, 5)]
  }

  /** P2 = 2 x^4 - x^3 + 5 x - 5. */
  function Second(): seq<Monomial> {
    [Monomial(2.0, 4), Monomial(-1.0, 3), Monomial(5.0, 1), Monomial(-5.0, 0)]
  }

  /** P3 = 15 x^11. */
  function Third(): seq<Monomial> {
    [Monomial(15.0, 11)]
  }

  /** P4 = 1. */
  function Fourth(): seq<Monomial> {
    [Monomial(1.0, 0)]
  }

  lemma FirstRenders()
    ensures IntegralTerms(First())
    ensures Joined(Renders(First())) == "+ 5 x^11 + 25 x^8 - 17 x^5"
  {
    var ws := Renders(First());
    FirstTermRenders();
    JoinedThree(ws);
    FirstText();
  }

  lemma FirstText()
    ensures "+ 5 x^11" + " " + "+ 25 x^8" + " " + "- 17 x^5" == "+ 5 x^11 + 25 x^8 - 17 x^5"
  {
  }

  lemma FirstTermRenders()
    ensures Render(Monomial(5.0, 11)) == "+ 5 x^11"
    ensures Render(Monomial(25.0, 8)) == "+ 25 x^8"
    ensures Render(Monomial(-17.0, 5)) == "- 17 x^5"
  {
    FirstLead();
    FirstMiddle();
    FirstLast();
  }

  lemma FirstLead()
    ensures Render(Monomial(5.0, 11)) == "+ 5 x^11"
  {
    assert NatToString(11) == "11";
    RenderedWith(5.0, 11, "5", "11");
  }

  lemma FirstMiddle()
    ensures Render(Monomial(25.0, 8)) == "+ 25 x^8"
  {
    assert NatToString(25) == "25";
    RenderedWith(25.0, 8, "25", "8");
  }

  lemma FirstLast()
    ensures Render(Monomial(-17.0, 5)) == "- 17 x^5"
  {
    assert NatToString(17) == "17";
    RenderedWith(-17.0, 5, "17", "5");
  }

  /** A term of magnitude other than one and exponent at least two, given
      the decimal texts of both. */
  lemma RenderedWith(c: real, e: nat, cs: string, es: string)
    requires IsIntegral(c) && c != 0.0 && e >= 2
    requires NatToString(Magnitude(c.Floor)) == cs && cs != "1" && NatToString(e) == es
    ensures Render(Monomial(c, e)) == [SignChar(c.Floor), ' '] + cs + " x^" + es
  {
    PowerText(e, es);
  }

  lemma PowerText(e: nat, es: string)
    requires e >= 2 && NatToString(e) == es
    ensures PowerToken(e) == " x^" + es
  {
  }

  lemma SecondRenders()
    ensures IntegralTerms(Second())
    ensures Joined(Renders(Second())) == "+ 2 x^4 - x^3 + 5 x - 5"
  {
    var ws := Renders(Second());
    SecondTermRenders();
    JoinedFour(ws);
    SecondText();
  }

  lemma SecondText()
    ensures "+ 2 x^4" + " " + "- x^3" + " " + "+ 5 x" + " " + "- 5" == "+ 2 x^4 - x^3 + 5 x - 5"
  {
  }

  lemma SecondTermRenders()
    ensures Render(Monomial(2.0, 4)) == "+ 2 x^4"
    ensures Render(Monomial(-1.0, 3)) == "- x^3"
    ensures Render(Monomial(5.0, 1)) == "+ 5 x"
    ensures Render(Monomial(-5.0, 0)) == "- 5"
  {
    RenderedWith(2.0, 4, "2", "4");
    SecondUnit();
    SecondLinear();
    SecondConstant();
  }

  lemma SecondUnit()
    ensures Render(Monomial(-1.0, 3)) == "- x^3"
  {
    PowerText(3, "3");
  }

  lemma SecondLinear()
    ensures Render(Monomial(5.0, 1)) == "+ 5 x"
  {
  }

  lemma SecondConstant()
    ensures Render(Monomial(-5.0, 0)) == "- 5"
  {
  }

  lemma JoinedTwo(ws: seq<string>)
    requires |ws| == 2
    ensures Joined(ws) == ws[0] + " " + ws[1]
  {
    assert ws[..1] == [ws[0]];
  }

  lemma JoinedThree(ws: seq<string>)
    requires |ws| == 3
    ensures Joined(ws) == ws[0] + " " + ws[1] + " " + ws[2]
  {
    JoinedTwo(ws[..2]);
  }

  lemma JoinedFour(ws: seq<string>)
    requires |ws| == 4
    ensures Joined(ws) == ws[0] + " " + ws[1] + " " + ws[2] + " " + ws[3]
  {
    JoinedThree(ws[..3]);
  }

  /** A term of lower exponent than every term of `ts` goes at the end. */
  lemma AppendsLast(ts: seq<Monomial>, m: Monomial)
    requires ts != [] && !(|ts| == 1 && ts[0].coefficient == 0.0) && m.coefficient != 0.0
    requires forall j :: 0 <= j < |ts| ==> ts[j].exponent > m.exponent
    ensures Insert(ts, m) == ts + [m]
  {
    ScanAtEnd(ts, m);
  }

  /** The properties main.py:31-33 prints for P1. */
  lemma FirstProperties(p: Polynomial)
    requires p.terms == First()
    ensures p.Valid() && p.Degree() == 11
    ensures p.Coefficients() == [5.0, 25.0, -17.0]
    ensures p.Exponents() == [11, 8, 5]
  {
    var cs, es := p.Coefficients(), p.Exponents();
    assert cs[0] == 5.0 && cs[1] == 25.0 && cs[2] == -17.0;
    assert es[0] == 11 && es[1] == 8 && es[2] == 5;
  }

  /** P1 built term by term (main.py:9-13). */
  method BuildFirst() returns (p: Polynomial, s: string)
    ensures p.Valid() && p.terms == First()
    ensures p.Degree() == 11
    ensures p.Coefficients() == [5.0, 25.0, -17.0] && p.Exponents() == [11, 8, 5]
    ensures s == "+ 5 x^11 + 25 x^8 - 17 x^5"
  {
    p := new Polynomial();
    p.Append(Monomial(5.0, 11));
    AppendsLast([Monomial(5.0, 11)], Monomial(25.0, 8));
    p.Append(Monomial(25.0, 8));
    AppendsLast([Monomial(5.0, 11), Monomial(25.0, 8)], Monomial(-17.0, 5));
    p.Append(Monomial(-17.0, 5));
    assert p.terms == First();
    FirstRenders();
    s := p.ToString();
    FirstProperties(p);
  }

  /** P1 evaluated at 0 and at 1 (main.py:38-40) through the class. */
  method EvaluateFirst() returns (v0: real, v1: real)
    ensures v0 == 0.0 && v1 == 13.0
  {
    var p, _ := BuildFirst();
    FirstValues();
    v0 := p.Evaluate(0.0);
    v1 := p.Evaluate(1.0);
  }

  /** P1(0) = 0 and P1(1) = 5 + 25 - 17 = 13. */
  lemma FirstValues()
    ensures Value(First(), 0.0) == 0.0
    ensures Value(First(), 1.0) == 13.0
  {
    ThreeTermValues(First());
  }

  /** Three terms of positive exponent: the value at 0 is 0 and the value
      at 1 is the sum of the coefficients. */
  lemma ThreeTermValues(ts: seq<Monomial>)
    requires |ts| == 3 && ts[0].exponent > 0 && ts[1].exponent > 0 && ts[2].exponent > 0
    ensures Value(ts, 0.0) == 0.0
    ensures Value(ts, 1.0) == ts[0].coefficient + ts[1].coefficient + ts[2].coefficient
  {
    ValueThree(ts, 0.0);
    ValueThree(ts, 1.0);
    EvaluateAtOne(ts[0]);
    EvaluateAtOne(ts[1]);
    EvaluateAtOne(ts[2]);
    EvaluateAtZero(ts[0]);
    EvaluateAtZero(ts[1]);
    EvaluateAtZero(ts[2]);
  }

  lemma EvaluateAtZero(m: Monomial)
    requires m.exponent > 0
    ensures Evaluate(m, 0.0) == 0.0
  {
    assert Pow(0.0, m.exponent) == 0.0;
  }

  lemma EvaluateAtOne(m: Monomial)
    ensures Evaluate(m, 1.0) == m.coefficient
  {
    assert Pow(1.0, m.exponent) == 1.0;
  }

  lemma ValueThree(ts: seq<Monomial>, x: real)
    requires |ts| == 3
    ensures Value(ts, x) == Evaluate(ts[0], x) + Evaluate(ts[1], x) + Evaluate(ts[2], x)
  {
    assert ts[1..][1..][1..] == [];
    assert Value(ts[1..][1..], x) == Evaluate(ts[2], x);
    assert Value(ts[1..], x) == Evaluate(ts[1], x) + Evaluate(ts[2], x);
  }

  /** P2 built term by term (main.py:14-19). */
  method BuildSecond() returns (p: Polynomial, s: string)
    ensures p.Valid() && p.terms == Second()
    ensures p.Degree() == 4
    ensures p.Coefficients() == [2.0, -1.0, 5.0, -5.0] && p.Exponents() == [4, 3, 1, 0]
    ensures s == "+ 2 x^4 - x^3 + 5 x - 5"
  {
    p := new Polynomial();
    p.Append(Monomial(2.0, 4));
    AppendsLast([Monomial(2.0, 4)], Monomial(-1.0, 3));
    p.Append(Monomial(-1.0, 3));
    AppendsLast([Monomial(2.0, 4), Monomial(-1.0, 3)], Monomial(5.0, 1));
    p.Append(Monomial(5.0, 1));
    AppendsLast([Monomial(2.0, 4), Monomial(-1.0, 3), Monomial(5.0, 1)], Monomial(-5.0, 0));
    p.Append(Monomial(-5.0, 0));
    assert p.terms == Second();
    SecondRenders();
    s := p.ToString();
    SecondProperties(p);
  }

  /** The properties main.py:31-33 prints for P2. */
  lemma SecondProperties(p: Polynomial)
    requires p.terms == Second()
    ensures p.Coefficients() == [2.0, -1.0, 5.0, -5.0]
    ensures p.Exponents() == [4, 3, 1, 0]
  {
    var cs, es := p.Coefficients(), p.Exponents();
    assert cs[0] == 2.0 && cs[1] == -1.0 && cs[2] == 5.0 && cs[3] == -5.0;
    assert es[0] == 4 && es[1] == 3 && es[2] == 1 && es[3] == 0;
  }

  /** P3 built with one append (main.py:20-22), which replaces the zero
      polynomial. */
  method BuildThird() returns (p: Polynomial, s: string)
    ensures p.Valid() && p.terms == Third()
    ensures p.Degree() == 11
    ensures p.Coefficients() == [15.0] && p.Exponents() == [11]
    ensures s == "+ 15 x^11"
  {
    p := new Polynomial();
    p.Append(Monomial(15.0, 11));
    assert NatToString(15) == "15" && NatToString(11) == "11";
    RenderedWith(15.0, 11, "15", "11");
    SingleRender(Third(), "+ 15 x^11");
    s := p.ToString();
  }

  /** P4 built with one append (main.py:23-25). */
  method BuildFourth() returns (p: Polynomial, s: string)
    ensures p.Valid() && p.terms == Fourth()
    ensures p.Degree() == 0
    ensures p.Coefficients() == [1.0] && p.Exponents() == [0]
    ensures s == "+ 1"
  {
    p := new Polynomial();
    p.Append(Monomial(1.0, 0));
    assert Render(Monomial(1.0, 0)) == "+ 1";
    SingleRender(Fourth(), "+ 1");
    s := p.ToString();
  }

  /** A one-term polynomial's text is the render of its term. */
  lemma SingleRender(ts: seq<Monomial>, w: string)
    requires |ts| == 1 && IsIntegral(ts[0].coefficient) && Render(ts[0]) == w
    ensures IntegralTerms(ts) && Joined(Renders(ts)) == w
  {
    assert Renders(ts)[0] == w;
  }

  /** Not one of the demonstration's samples: appending the negation of the
      only term leaves the zero polynomial, which renders as `+ 0` and has
      degree 0. */
  method Cancel() returns (p: Polynomial, s: string)
    ensures p.Valid() && p.terms == [Zero] && p.Degree() == 0
    ensures s == "+ 0"
  {
    p := new Polynomial();
    p.Append(Monomial(5.0, 0));
    InsertNegation([Monomial(5.0, 0)], 0);
    p.Append(Monomial(-5.0, 0));
    assert Renders([Zero]) == ["+ 0"];
    s := p.ToString();
  }
}
