/** The few pieces of Python's string machinery the renderers rely on:
    `str()` of a non-negative int, `str.replace` and `str.strip`. */
module Text {

  /** The decimal digit character for `d`. */
  function DigitChar(d: nat): (c: char)
    requires d < 10
    ensures '0' <= c <= '9'
    ensures c as int - '0' as int == d
  {
    ('0' as int + d) as char
  }

  predicate AllDigits(s: string) {
    forall k :: 0 <= k < |s| ==> '0' <= s[k] <= '9'
  }

  /** `str(n)` for a non-negative int: its decimal digits, most significant first. */
  function NatToString(n: nat): (s: string)
    ensures |s| > 0 && AllDigits(s)
    ensures n < 10 <==> |s| == 1
    decreases n
  {
    if n < 10 then [DigitChar(n)] else NatToString(n / 10) + [DigitChar(n % 10)]
  }

  /** The number a string of decimal digits stands for: the reading `NatToString` must invert. */
  function DecimalValue(s: string): nat
    requires AllDigits(s)
    decreases |s|
  {
    if s == [] then 0
    else 10 * DecimalValue(s[..|s| - 1]) + (s[|s| - 1] as int - '0' as int)
  }

  lemma {:induction false} NatToStringRoundTrip(n: nat)
    ensures DecimalValue(NatToString(n)) == n
    decreases n
  {
    var s := NatToString(n);
    if n >= 10 {
      assert s[..|s| - 1] == NatToString(n / 10);
      NatToStringRoundTrip(n / 10);
    }
  }

  /** Only the number one is written "1". */
  lemma NatToStringIsOne(n: nat)
    ensures NatToString(n) == "1" <==> n == 1
  {
    if NatToString(n) == "1" {
      NatToStringRoundTrip(n);
      assert DecimalValue("1") == 1;
    }
  }

  /** `s.replace(pat, rep)`: every non-overlapping occurrence of `pat`, scanning
      left to right, is replaced by `rep`. */
  function ReplaceAll(s: string, pat: string, rep: string): string
    requires |pat| > 0
    decreases |s|
  {
    if |s| < |pat| then s
    else if s[..|pat|] == pat then rep + ReplaceAll(s[|pat|..], pat, rep)
    else [s[0]] + ReplaceAll(s[1..], pat, rep)
  }

  /** Where `pat` does not occur at the front, the first character is copied through. */
  lemma ReplaceAllStep(s: string, pat: string, rep: string)
    requires |pat| > 0 && |s| > 0
    requires |s| >= |pat| ==> s[..|pat|] != pat
    ensures ReplaceAll(s, pat, rep) == [s[0]] + ReplaceAll(s[1..], pat, rep)
  {
    if |s| < |pat| {
      assert [s[0]] + s[1..] == s;
    }
  }

  /** A prefix free of `pat`'s first character is copied through unchanged. */
  lemma {:induction false} ReplaceAllSkip(d: string, t: string, pat: string, rep: string)
    requires |pat| > 0
    requires forall k :: 0 <= k < |d| ==> d[k] != pat[0]
    ensures ReplaceAll(d + t, pat, rep) == d + ReplaceAll(t, pat, rep)
    decreases |d|
  {
    if d != [] {
      assert |d + t| >= |pat| ==> (d + t)[..|pat|][0] != pat[0];
      ReplaceAllStep(d + t, pat, rep);
      assert (d + t)[1..] == d[1..] + t;
      ReplaceAllSkip(d[1..], t, pat, rep);
      assert [d[0]] + d[1..] == d;
    } else {
      assert d + t == t;
    }
  }

  /** The characters `str.strip()` removes that can occur in this model's text. */
  predicate IsWhitespace(c: char) {
    c == ' ' || c == '\t' || c == '\n' || c == '\r'
  }

  function TrimLeft(s: string): string
    decreases |s|
  {
    if s != [] && IsWhitespace(s[0]) then TrimLeft(s[1..]) else s
  }

  function TrimRight(s: string): string
    decreases |s|
  {
    if s != [] && IsWhitespace(s[|s| - 1]) then TrimRight(s[..|s| - 1]) else s
  }

  /** `s.strip()`. */
  function Strip(s: string): string {
    TrimRight(TrimLeft(s))
  }

  /** Text that is neither empty nor starts or ends with whitespace. */
  predicate Word(w: string) {
    |w| > 0 && !IsWhitespace(w[0]) && !IsWhitespace(w[|w| - 1])
  }

  /** `" " + ws[0] + " " + ws[1] + ...`: each word after a space, the way
      a loop of `s += " " + w` builds it. */
  function Spaced(ws: seq<string>): string
    decreases |ws|
  {
    if ws == [] then "" else Spaced(ws[..|ws| - 1]) + " " + ws[|ws| - 1]
  }

  /** One more word is one more `" " + w`. */
  lemma SpacedPrefix(ws: seq<string>, k: nat)
    requires k < |ws|
    ensures Spaced(ws[..k + 1]) == Spaced(ws[..k]) + " " + ws[k]
  {
    assert ws[..k + 1][..k] == ws[..k];
  }

  lemma SpacedAll(ws: seq<string>)
    ensures Spaced(ws[..|ws|]) == Spaced(ws)
  {
    assert ws[..|ws|] == ws;
  }

  /** The words separated by single spaces. */
  function Joined(ws: seq<string>): string
    decreases |ws|
  {
    if ws == [] then ""
    else if |ws| == 1 then ws[0]
    else Joined(ws[..|ws| - 1]) + " " + ws[|ws| - 1]
  }

  lemma {:induction false} SpacedIsJoined(ws: seq<string>)
    requires ws != []
    ensures Spaced(ws) == " " + Joined(ws)
    decreases |ws|
  {
    var init, last := ws[..|ws| - 1], ws[|ws| - 1];
    if |ws| > 1 {
      SpacedIsJoined(init);
      assert (" " + Joined(init)) + " " + last == " " + (Joined(init) + " " + last);
    } else {
      assert init == [];
      assert "" + " " + last == " " + last;
    }
  }

  /** Words joined by spaces form a word. */
  lemma {:induction false} JoinedWord(ws: seq<string>)
    requires ws != [] && forall k :: 0 <= k < |ws| ==> Word(ws[k])
    ensures Word(Joined(ws))
    decreases |ws|
  {
    if |ws| > 1 {
      var init, last := ws[..|ws| - 1], ws[|ws| - 1];
      assert forall k :: 0 <= k < |init| ==> init[k] == ws[k];
      JoinedWord(init);
      var j := Joined(init);
      assert Joined(ws) == j + " " + last;
      assert (j + " " + last)[0] == j[0];
      assert (j + " " + last)[|j| + 1 + |last| - 1] == last[|last| - 1];
    }
  }

  /** Stripping a single leading space off a word gives back the word. */
  lemma StripLeadingSpace(s: string)
    requires Word(s)
    ensures Strip(" " + s) == s
  {
    assert (" " + s)[1..] == s;
    assert TrimLeft(" " + s) == TrimLeft(s) == s;
    assert TrimRight(s) == s;
  }

  /** `strip()` of the space-prefixed words is the words joined by spaces. */
  lemma StripSpaced(ws: seq<string>)
    requires forall k :: 0 <= k < |ws| ==> Word(ws[k])
    ensures Strip(Spaced(ws)) == Joined(ws)
  {
    if ws != [] {
      SpacedIsJoined(ws);
      JoinedWord(ws);
      StripLeadingSpace(Joined(ws));
    }
  }
}
