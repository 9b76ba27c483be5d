/**
 * The two literal patterns: template literals `/(`[^`]*`)/g`
 * (src/app/page.tsx:25-28) and quoted strings
 * `/("(?:[^"\\]|\\.)*"|'(?:[^'\\]|\\.)*')/g` (src/app/page.tsx:31-34).
 * Neither is allowed to stop at the end of the line: an opening delimiter
 * without a partner is not matched at all.
 *
 * Backtracking cannot pick another match. In a template, `[^`]*` stops at
 * the first backtick, and giving back characters puts a non-backtick where
 * the closing backtick must stand. In a quoted string the two alternatives
 * of the body differ in their first character (a backslash or not), so the
 * walk through the body is forced; giving back iterations puts the first
 * character of one, a backslash or a non-quote, where the closing quote must
 * stand. The opening quote decides which of the two quoted forms applies.
 */
module LiteralPatterns {
  import opened Chars

  /** First backtick at or after `k`. */
  function NextBacktick(s: string, k: nat): (r: Option<nat>)
    requires k <= |s|
    ensures r.Some? ==> k <= r.value < |s| && s[r.value] == '`'
    ensures r.Some? ==> forall j | k <= j < r.value :: s[j] != '`'
    ensures r.None? ==> forall j | k <= j < |s| :: s[j] != '`'
    decreases |s| - k
  {
    if k == |s| then None
    else if s[k] == '`' then Some(k)
    else NextBacktick(s, k + 1)
  }

  /**
   * Length of the template match at `p`: from a backtick to the next
   * backtick, with no escape handling; 0 when `p` holds no backtick or no
   * backtick follows it.
   */
  function TemplateAt(s: string, p: nat): (n: nat)
    ensures n > 0 ==> 2 <= n && p + n <= |s| && s[p] == '`' && s[p + n - 1] == '`'
    ensures n > 0 ==> forall j | p < j < p + n - 1 :: s[j] != '`'
    ensures n == 0 && p < |s| && s[p] == '`' ==> forall j | p < j < |s| :: s[j] != '`'
  {
    if p < |s| && s[p] == '`' then
      match NextBacktick(s, p + 1)
      case Some(q) => q - p + 1
      case None => 0
    else 0
  }

  /**
   * A template literal of length `n` starts at `p` exactly when backticks
   * stand at `p` and `p + n - 1` and none lies between: the match runs to
   * the next backtick, whatever precedes it.
   */
  lemma TemplateAtSpec(s: string, p: nat, n: nat)
    requires n > 0
    ensures TemplateAt(s, p) == n <==>
      2 <= n && p + n <= |s| && s[p] == '`' && s[p + n - 1] == '`'
      && forall j | p < j < p + n - 1 :: s[j] != '`'
  {
    if 2 <= n && p + n <= |s| && s[p] == '`' && s[p + n - 1] == '`'
      && forall j | p < j < p + n - 1 :: s[j] != '`'
    {
      var r := NextBacktick(s, p + 1);
      assert r.Some? && r.value == p + n - 1;
    }
  }

  predicate IsQuote(c: char) { c == '"' || c == '\'' }

  /**
   * The body grammar `(?:[^q\\]|\\.)*` of a string quoted with `q`: any
   * character but `q` and backslash, or a backslash with the character after
   * it, which `.` requires not to be a line terminator.
   */
  predicate EscapedBody(t: string, q: char)
    decreases |t|
  {
    if t == [] then true
    else if t[0] == '\\' then |t| >= 2 && !IsLineTerminator(t[1]) && EscapedBody(t[2..], q)
    else t[0] != q && EscapedBody(t[1..], q)
  }

  /**
   * The engine's walk through a string body from `j`: the index just after
   * the closing `q`, or None when the body breaks off first.
   */
  function QuotedEnd(s: string, j: nat, q: char): (r: Option<nat>)
    requires j <= |s|
    decreases |s| - j
  {
    if j == |s| then None
    else if s[j] == q then Some(j + 1)
    else if s[j] == '\\' then
      if j + 1 < |s| && !IsLineTerminator(s[j + 1]) then QuotedEnd(s, j + 2, q) else None
    else QuotedEnd(s, j + 1, q)
  }

  /** The walk stops right after `e` exactly when `s[j..e-1]` is a body and `s[e-1]` closes it. */
  lemma {:induction false} QuotedEndSpec(s: string, j: nat, q: char, e: nat)
    requires j <= |s| && IsQuote(q)
    ensures QuotedEnd(s, j, q) == Some(e) <==>
      j < e <= |s| && s[e - 1] == q && EscapedBody(s[j..e - 1], q)
    decreases |s| - j
  {
    if j < |s| {
      if s[j] == q {
        if j < e - 1 && e <= |s| {
          assert s[j..e - 1][0] == q;
        }
      } else if s[j] == '\\' {
        if j + 1 < |s| && !IsLineTerminator(s[j + 1]) {
          QuotedEndSpec(s, j + 2, q, e);
          if j < e <= |s| && s[e - 1] == q && j + 2 <= e - 1 {
            assert s[j..e - 1][2..] == s[j + 2..e - 1];
          }
        } else if j < e <= |s| && s[e - 1] == q {
          assert e - 1 != j && e - 1 != j + 1;
          assert !EscapedBody(s[j..e - 1], q) by {
            assert s[j..e - 1][0] == '\\';
            assert |s[j..e - 1]| >= 2 ==> s[j..e - 1][1] == s[j + 1];
          }
        }
      } else {
        QuotedEndSpec(s, j + 1, q, e);
        if j < e - 1 && e <= |s| {
          assert s[j..e - 1][1..] == s[j + 1..e - 1];
        }
      }
    }
  }

  /** Length of the quoted-string match at `p`, 0 when none starts there. */
  function QuotedAt(s: string, p: nat): (n: nat)
    ensures n > 0 ==> 2 <= n && p + n <= |s| && IsQuote(s[p]) && s[p + n - 1] == s[p]
  {
    if p < |s| && IsQuote(s[p]) then
      match QuotedEnd(s, p + 1, s[p])
      case Some(e) => QuotedEndSpec(s, p + 1, s[p], e); e - p
      case None => 0
    else 0
  }

  /**
   * A quoted string of length `n` starts at `p` exactly when `s[p]` is a
   * quote, the same quote stands at `p + n - 1`, and what lies between is a
   * body: an escaped quote never closes the string, and an opening quote
   * with no closing partner is not matched.
   */
  lemma QuotedAtSpec(s: string, p: nat, n: nat)
    requires n > 0
    ensures QuotedAt(s, p) == n <==>
      2 <= n && p + n <= |s| && IsQuote(s[p]) && s[p + n - 1] == s[p]
      && EscapedBody(s[p + 1..p + n - 1], s[p])
  {
    if p < |s| && IsQuote(s[p]) {
      QuotedEndSpec(s, p + 1, s[p], p + n);
    }
  }
}
