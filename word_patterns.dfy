/**
 * The keyword pattern `/\b(import|…|continue)\b/g` (src/app/page.tsx:37-40)
 * and the type-name pattern `/\b([A-Z][a-zA-Z0-9]*)\b(?![^<]*&gt;)/g`
 * (src/app/page.tsx:43-46).
 *
 * Backtracking cannot pick another match. The engine tries the keywords in
 * order and takes the first followed by `\b`; since all are lower-case
 * words, at most one can be (`FitIsUnique`). In a type name, giving back
 * characters of `[a-zA-Z0-9]*` leaves word characters on both sides of the
 * new end, where `\b` fails, so only the end of the run can succeed, and
 * the look-ahead then decides.
 */
module WordPatterns {
  import opened Chars
  import opened Runs

  /** The alternatives of the keyword pattern, in the order they are tried. */
  const Keywords: seq<string> := [
    "import", "export", "from", "const", "let", "var", "async", "await", "return", "new",
    "class", "interface", "type", "function", "extends", "implements", "typeof", "void", "null",
    "undefined", "true", "false", "default", "if", "else", "for", "while", "of", "in", "break",
    "continue"
  ]

  /** A non-empty string of lower-case letters. */
  predicate IsLowerWord(w: string) {
    |w| > 0 && forall j | 0 <= j < |w| :: IsLower(w[j])
  }

  /** Every alternative of `table` is a word of lower-case letters. */
  predicate AllLowerWords(table: seq<string>) {
    forall k | 0 <= k < |table| :: IsLowerWord(table[k])
  }

  /** The pattern has 31 alternatives, each a word of lower-case letters. */
  lemma KeywordsAreLowerCaseWords()
    ensures |Keywords| == 31 && AllLowerWords(Keywords)
  {
    FirstKeywordsAreLower();
    MiddleKeywordsAreLower();
    LastKeywordsAreLower();
  }

  lemma FirstKeywordsAreLower()
    ensures forall k | 0 <= k < 10 :: IsLowerWord(Keywords[k])
  {
  }

  lemma MiddleKeywordsAreLower()
    ensures forall k | 10 <= k < 20 :: IsLowerWord(Keywords[k])
  {
  }

  lemma LastKeywordsAreLower()
    ensures forall k | 20 <= k < 31 :: IsLowerWord(Keywords[k])
  {
  }

  /** `w` stands at `p` and a word boundary follows it. */
  predicate FitsAt(s: string, p: nat, w: string) {
    StartsAt(s, p, w) && IsBoundary(s, p + |w|)
  }

  /**
   * Index of the first alternative of `table` from index `k` on that fits
   * at `p`: the regex engine tries the alternatives in order.
   */
  function FirstFit(table: seq<string>, s: string, p: nat, k: nat): (r: Option<nat>)
    requires k <= |table|
    ensures r.Some? ==> k <= r.value < |table| && FitsAt(s, p, table[r.value])
    ensures r.None? ==> forall i | k <= i < |table| :: !FitsAt(s, p, table[i])
    decreases |table| - k
  {
    if k == |table| then None
    else if FitsAt(s, p, table[k]) then Some(k)
    else FirstFit(table, s, p, k + 1)
  }

  /** Length of the match of `\b(w0|w1|…)\b` at `p` for the alternatives of `table`, 0 when none. */
  function AlternativeAt(table: seq<string>, s: string, p: nat): (n: nat)
    ensures n > 0 ==> p + n <= |s| && IsBoundary(s, p) && IsBoundary(s, p + n)
    ensures n > 0 ==> exists k | 0 <= k < |table| :: s[p..p + n] == table[k]
  {
    if p < |s| && IsBoundary(s, p) then
      match FirstFit(table, s, p, 0)
      case Some(k) =>
        assert s[p..p + |table[k]|] == table[k];
        |table[k]|
      case None => 0
    else 0
  }

  /** Length of the keyword match at `p`, 0 when none starts there. */
  function KeywordAt(s: string, p: nat): nat {
    AlternativeAt(Keywords, s, p)
  }

  /**
   * Two words of lower-case letters that both stand at `p` with a word
   * boundary after them are the same word: where the shorter one ends, the
   * longer one goes on with a letter, so there is no boundary.
   */
  lemma FitIsUnique(s: string, p: nat, w1: string, w2: string)
    requires IsLowerWord(w1) && IsLowerWord(w2)
    requires FitsAt(s, p, w1) && FitsAt(s, p, w2)
    ensures w1 == w2
  {
    if |w1| == |w2| {
      assert w1 == s[p..p + |w1|] == w2;
    }
  }

  /**
   * For alternatives that are lower-case words, `table[k]` is wrapped at `p`
   * exactly when it stands there with a word boundary on both sides: the
   * order of the alternatives does not matter.
   */
  lemma AlternativeAtSpec(table: seq<string>, s: string, p: nat, k: nat)
    requires AllLowerWords(table) && k < |table|
    ensures (AlternativeAt(table, s, p) == |table[k]| && s[p..p + |table[k]|] == table[k]) <==>
      (p < |s| && IsBoundary(s, p) && FitsAt(s, p, table[k]))
  {
    if p < |s| && IsBoundary(s, p) && FitsAt(s, p, table[k]) {
      var r := FirstFit(table, s, p, 0);
      FitIsUnique(s, p, table[r.value], table[k]);
    }
  }

  /**
   * The keyword `Keywords[k]` is wrapped at `p` exactly when it stands there
   * with a word boundary on both sides, and the match is then that whole
   * word.
   */
  lemma KeywordAtSpec(s: string, p: nat, k: nat)
    requires k < |Keywords|
    ensures (KeywordAt(s, p) == |Keywords[k]| && s[p..p + |Keywords[k]|] == Keywords[k]) <==>
      (p < |s| && IsBoundary(s, p) && FitsAt(s, p, Keywords[k]))
  {
    KeywordsAreLowerCaseWords();
    AlternativeAtSpec(Keywords, s, p, k);
  }

  /**
   * A whole word `s[p..e]` (word characters up to a non-word character or
   * the end) that is not an alternative holds no match at `p`: a shorter
   * alternative would end inside the word, where there is no boundary, and a
   * longer one would need a letter where the word ends.
   */
  lemma NotAnAlternative(table: seq<string>, s: string, p: nat, e: nat)
    requires AllLowerWords(table)
    requires p <= e <= |s| && (e == |s| || !IsWordChar(s[e]))
    requires forall j | p <= j < e :: IsWordChar(s[j])
    requires s[p..e] !in table
    ensures AlternativeAt(table, s, p) == 0
  {
    forall k | p < k < e
      ensures !IsBoundary(s, k)
    {
      assert IsWordChar(s[k - 1]) && IsWordChar(s[k]);
    }
    var n := AlternativeAt(table, s, p);
    if n > 0 {
      var k :| 0 <= k < |table| && s[p..p + n] == table[k];
      forall j | p <= j < p + n
        ensures IsWordChar(s[j])
      {
        assert s[j] == table[k][j - p];
      }
    }
  }

  /** A whole word that is not a keyword holds no keyword match at its start. */
  lemma NotAKeyword(s: string, p: nat, e: nat)
    requires p <= e <= |s| && (e == |s| || !IsWordChar(s[e]))
    requires forall j | p <= j < e :: IsWordChar(s[j])
    requires s[p..e] !in Keywords
    ensures KeywordAt(s, p) == 0
  {
    KeywordsAreLowerCaseWords();
    NotAnAlternative(Keywords, s, p, e);
  }

  /**
   * The lookahead `[^<]*&gt;` at `k`: `&gt;` begins somewhere before the
   * next `<`.
   */
  predicate GtAhead(s: string, k: nat)
    decreases |s| - k
  {
    if StartsAt(s, k, "&gt;") then true
    else if k >= |s| || s[k] == '<' then false
    else GtAhead(s, k + 1)
  }

  lemma {:induction false} GtAheadIff(s: string, k: nat)
    ensures GtAhead(s, k) <==> exists j :: k <= j <= |s| && StartsAt(s, j, "&gt;") && '<' !in s[k..j]
    decreases |s| - k
  {
    if StartsAt(s, k, "&gt;") {
      assert s[k..k] == [];
    } else if k < |s| && s[k] != '<' {
      GtAheadIff(s, k + 1);
      if exists j :: k <= j <= |s| && StartsAt(s, j, "&gt;") && '<' !in s[k..j] {
        var j :| k <= j <= |s| && StartsAt(s, j, "&gt;") && '<' !in s[k..j];
        assert j > k;
        assert s[k + 1..j] == s[k..j][1..];
      }
      if GtAhead(s, k + 1) {
        var j :| k + 1 <= j <= |s| && StartsAt(s, j, "&gt;") && '<' !in s[k + 1..j];
        assert s[k..j] == [s[k]] + s[k + 1..j];
      }
    }
  }

  /** Length of the type-name match at `p`, 0 when none starts there. */
  function TypeNameAt(s: string, p: nat): (n: nat)
    ensures n > 0 ==> p + n <= |s| && IsUpper(s[p]) && forall j | p < j < p + n :: IsAlnum(s[j])
    ensures n > 0 ==> IsBoundary(s, p) && IsBoundary(s, p + n) && !GtAhead(s, p + n)
  {
    if p < |s| && IsBoundary(s, p) && IsUpper(s[p]) then
      var e := RunEnd(s, p + 1, Alnum);
      if IsBoundary(s, e) && !GtAhead(s, e) then e - p else 0
    else 0
  }

  /** The whole-word and look-ahead conditions on a capitalised word of length `n` at `p`. */
  ghost predicate IsTypeNameMatch(s: string, p: nat, n: nat) {
    && 0 < n && p + n <= |s| && IsBoundary(s, p) && IsUpper(s[p])
    && (forall j | p < j < p + n :: IsAlnum(s[j])) && IsBoundary(s, p + n)
    && !exists j :: p + n <= j <= |s| && StartsAt(s, j, "&gt;") && '<' !in s[p + n..j]
  }

  /**
   * A capitalised word of length `n` is wrapped at `p` exactly when it is a
   * whole word (`[A-Z][a-zA-Z0-9]*` between word boundaries) and no `&gt;`
   * comes after it before the next `<`.
   */
  lemma TypeNameAtSpec(s: string, p: nat, n: nat)
    requires n > 0
    ensures TypeNameAt(s, p) == n <==> IsTypeNameMatch(s, p, n)
  {
    if TypeNameAt(s, p) == n {
      GtAheadIff(s, p + n);
    }
    if IsTypeNameMatch(s, p, n) {
      TypeNameAtComplete(s, p, n);
    }
  }

  lemma TypeNameAtComplete(s: string, p: nat, n: nat)
    requires n > 0 && IsTypeNameMatch(s, p, n)
    ensures TypeNameAt(s, p) == n
  {
    GtAheadIff(s, p + n);
    assert IsWordChar(s[p + n - 1]);
    RunEndUnique(s, p + 1, Alnum, p + n);
  }
}
