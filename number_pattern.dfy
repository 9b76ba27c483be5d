/**
 * The number pattern
 * `/(?<![a-zA-Z"'`])\b(\d[\d_]*(?:\.\d+)?)\b(?![a-zA-Z"'`])/g`
 * (src/app/page.tsx:49-52). The engine tries the end after the fraction
 * first and then, backtracking, the end before the `.`; every other end lies
 * between two word characters and fails `\b`. So the match is the longest
 * numeral whose neighbours pass both guards.
 */
module NumberPattern {
  import opened Chars
  import opened Runs

  /** `[a-zA-Z"'`]`, what the look-behind and the look-ahead refuse next to a number. */
  predicate IsNumberNeighbour(c: char) {
    IsLetter(c) || c == '"' || c == '\'' || c == '`'
  }

  /** `(?<![a-zA-Z"'`])\b` in front of position `p`. */
  predicate NumberStartOk(s: string, p: nat)
    requires p <= |s|
  {
    (p == 0 || !IsNumberNeighbour(s[p - 1])) && IsBoundary(s, p)
  }

  /** `\b(?![a-zA-Z"'`])` after position `e`. */
  predicate NumberEndOk(s: string, e: nat)
    requires e <= |s|
  {
    IsBoundary(s, e) && (e == |s| || !IsNumberNeighbour(s[e]))
  }

  predicate IsDigitOrUnderscore(c: char) { IsDigit(c) || c == '_' }

  /** `t` is a whole match of `\d[\d_]*(?:\.\d+)?`. */
  predicate IsNumeral(t: string) {
    && |t| >= 1 && IsDigit(t[0])
    && (|| (forall i | 1 <= i < |t| :: IsDigitOrUnderscore(t[i]))
        || (exists d | 1 <= d < |t| - 1 ::
              && t[d] == '.'
              && (forall i | 1 <= i < d :: IsDigitOrUnderscore(t[i]))
              && (forall i | d < i < |t| :: IsDigit(t[i]))))
  }

  /** Length of the number match at `p`, 0 when none starts there. */
  function NumberAt(s: string, p: nat): (n: nat)
    ensures n > 0 ==> p + n <= |s|
  {
    if p < |s| && NumberStartOk(s, p) && IsDigit(s[p]) then
      var a := RunEnd(s, p + 1, DigitOrUnderscore);
      if a + 1 < |s| && s[a] == '.' && IsDigit(s[a + 1]) && NumberEndOk(s, RunEnd(s, a + 2, Digit)) then
        RunEnd(s, a + 2, Digit) - p
      else if NumberEndOk(s, a) then a - p
      else 0
    else 0
  }

  /** What the number pass wraps is a numeral whose neighbours pass both guards. */
  lemma NumberAtSound(s: string, p: nat)
    ensures NumberAt(s, p) > 0 ==>
      && NumberStartOk(s, p) && IsNumeral(s[p..p + NumberAt(s, p)])
      && NumberEndOk(s, p + NumberAt(s, p))
  {
    var n := NumberAt(s, p);
    if n > 0 {
      var a := RunEnd(s, p + 1, DigitOrUnderscore);
      if a + 1 < |s| && s[a] == '.' && IsDigit(s[a + 1]) && NumberEndOk(s, RunEnd(s, a + 2, Digit)) {
        var e := RunEnd(s, a + 2, Digit);
        assert p + n == e;
        FractionIsNumeral(s, p, a, e);
      } else {
        assert p + n == a;
        IntegerIsNumeral(s, p, a);
      }
    }
  }

  lemma IntegerIsNumeral(s: string, p: nat, e: nat)
    requires p < e <= |s| && IsDigit(s[p])
    requires forall j | p + 1 <= j < e :: InClass(s[j], DigitOrUnderscore)
    ensures IsNumeral(s[p..e])
  {
    var t := s[p..e];
    assert t[0] == s[p];
    assert forall i | 1 <= i < |t| :: t[i] == s[p + i];
  }

  lemma FractionIsNumeral(s: string, p: nat, a: nat, e: nat)
    requires p < a && a + 1 < e <= |s| && IsDigit(s[p]) && s[a] == '.'
    requires forall j | p + 1 <= j < a :: InClass(s[j], DigitOrUnderscore)
    requires forall j | a + 1 <= j < e :: InClass(s[j], Digit)
    ensures IsNumeral(s[p..e])
  {
    var t, d := s[p..e], a - p;
    assert t[0] == s[p];
    assert t[d] == '.';
    assert forall i | 1 <= i < d :: t[i] == s[p + i];
    assert forall i | d < i < |t| :: t[i] == s[p + i];
  }

  /** The classes of a numeral's characters are those of the same characters in `s`. */
  lemma SliceDigits(s: string, p: nat, t: string, lo: nat, hi: nat, digitsOnly: bool)
    requires p + |t| <= |s| && t == s[p..p + |t|] && lo <= hi <= |t|
    requires forall i | lo <= i < hi :: if digitsOnly then IsDigit(t[i]) else IsDigitOrUnderscore(t[i])
    ensures forall j | p + lo <= j < p + hi :: InClass(s[j], if digitsOnly then Digit else DigitOrUnderscore)
  {
    forall j | p + lo <= j < p + hi
      ensures InClass(s[j], if digitsOnly then Digit else DigitOrUnderscore)
    {
      assert s[j] == t[j - p];
    }
  }

  /**
   * Every numeral at `p` whose neighbours pass both guards is at most as
   * long as the match: the pass wraps the longest one.
   */
  lemma NumberAtLongest(s: string, p: nat, m: nat)
    requires 0 < m && p + m <= |s|
    requires NumberStartOk(s, p) && IsNumeral(s[p..p + m]) && NumberEndOk(s, p + m)
    ensures m <= NumberAt(s, p)
  {
    var t := s[p..p + m];
    assert IsDigit(s[p]) by { assert t[0] == s[p]; }
    if forall i | 1 <= i < |t| :: IsDigitOrUnderscore(t[i]) {
      SliceDigits(s, p, t, 1, m, false);
      RunEndUnique(s, p + 1, DigitOrUnderscore, p + m);
    } else {
      var d :| 1 <= d < |t| - 1 && t[d] == '.'
        && (forall i | 1 <= i < d :: IsDigitOrUnderscore(t[i]))
        && (forall i | d < i < |t| :: IsDigit(t[i]));
      FractionIsTaken(s, p, t, d);
    }
  }

  /** A numeral with a fraction that passes both guards is taken whole. */
  lemma FractionIsTaken(s: string, p: nat, t: string, d: nat)
    requires p < |s| && NumberStartOk(s, p) && IsDigit(s[p])
    requires p + |t| <= |s| && t == s[p..p + |t|] && NumberEndOk(s, p + |t|)
    requires 1 <= d < |t| - 1 && t[d] == '.'
    requires forall i | 1 <= i < d :: IsDigitOrUnderscore(t[i])
    requires forall i | d < i < |t| :: IsDigit(t[i])
    ensures NumberAt(s, p) == |t|
  {
    SliceDigits(s, p, t, 1, d, false);
    assert s[p + d] == t[d];
    RunEndUnique(s, p + 1, DigitOrUnderscore, p + d);
    SliceDigits(s, p, t, d + 1, |t|, true);
    assert s[p + d + 1] == t[d + 1];
    RunEndUnique(s, p + d + 2, Digit, p + |t|);
  }
}
