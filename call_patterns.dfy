/**
 * The function-call pattern `/\b([a-z_$][a-zA-Z0-9_$]*)(?=\s*\()/g`
 * (src/app/page.tsx:55-58) and the property-key pattern
 * `/\b([a-zA-Z_$][a-zA-Z0-9_$]*)(?=\s*:)/g` (src/app/page.tsx:61-64).
 * They differ only in the first character class and in the character the
 * look-ahead wants. Backtracking cannot help either: a shorter identifier
 * would leave an identifier character where the look-ahead needs white
 * space or the awaited character.
 */
module CallPatterns {
  import opened Chars
  import opened Runs

  /** `[a-z_$]` for calls; `[a-zA-Z_$]` for keys when `upperToo` holds. */
  predicate IsIdentStart(c: char, upperToo: bool) {
    IsLower(c) || (upperToo && IsUpper(c)) || c == '_' || c == '$'
  }

  /** The look-ahead `(?=\s*c)` at `e`. */
  predicate FollowedBy(s: string, e: nat, c: char)
    requires e <= |s|
  {
    var k := RunEnd(s, e, Space);
    k < |s| && s[k] == c
  }

  lemma FollowedByIff(s: string, e: nat, c: char)
    requires e <= |s| && !IsSpace(c)
    ensures FollowedBy(s, e, c) <==>
      exists k :: e <= k < |s| && s[k] == c && forall j | e <= j < k :: IsSpace(s[j])
  {
    if exists k :: e <= k < |s| && s[k] == c && forall j | e <= j < k :: IsSpace(s[j]) {
      var k :| e <= k < |s| && s[k] == c && forall j | e <= j < k :: IsSpace(s[j]);
      RunEndUnique(s, e, Space, k);
    }
  }

  /** Length of the match of `\b([start][a-zA-Z0-9_$]*)(?=\s*follow)` at `p`, 0 when none. */
  function IdentAt(s: string, p: nat, upperToo: bool, follow: char): (n: nat)
    ensures n > 0 ==> p + n <= |s| && IsBoundary(s, p) && IsIdentStart(s[p], upperToo)
  {
    if p < |s| && IsBoundary(s, p) && IsIdentStart(s[p], upperToo) then
      var e := RunEnd(s, p + 1, Ident);
      if FollowedBy(s, e, follow) then e - p else 0
    else 0
  }

  /** The function-call match at `p`. */
  function CallAt(s: string, p: nat): (n: nat)
    ensures n > 0 ==> p + n <= |s| && (IsLower(s[p]) || s[p] == '_' || s[p] == '$')
  {
    IdentAt(s, p, false, '(')
  }

  /** The property-key match at `p`. */
  function PropertyAt(s: string, p: nat): (n: nat)
    ensures n > 0 ==> p + n <= |s| && (IsLetter(s[p]) || s[p] == '_' || s[p] == '$')
  {
    IdentAt(s, p, true, ':')
  }

  /** The conditions on an identifier of length `n` at `p` that the look-ahead awaits `follow` after. */
  ghost predicate IsIdentMatch(s: string, p: nat, upperToo: bool, follow: char, n: nat) {
    && 0 < n && p + n <= |s| && IsBoundary(s, p) && IsIdentStart(s[p], upperToo)
    && (forall j | p < j < p + n :: IsIdentChar(s[j]))
    && (exists k :: p + n <= k < |s| && s[k] == follow && forall j | p + n <= j < k :: IsSpace(s[j]))
  }

  /**
   * An identifier of length `n` is wrapped at `p` exactly when it starts at
   * a word boundary with an allowed first character, is a maximal run of
   * identifier characters, and only white space separates it from `follow`.
   */
  lemma IdentAtSpec(s: string, p: nat, upperToo: bool, follow: char, n: nat)
    requires n > 0 && !IsSpace(follow) && !IsIdentChar(follow)
    ensures IdentAt(s, p, upperToo, follow) == n <==> IsIdentMatch(s, p, upperToo, follow, n)
  {
    if IdentAt(s, p, upperToo, follow) == n {
      FollowedByIff(s, p + n, follow);
    }
    if IsIdentMatch(s, p, upperToo, follow, n) {
      IdentAtComplete(s, p, upperToo, follow, n);
    }
  }

  lemma IdentAtComplete(s: string, p: nat, upperToo: bool, follow: char, n: nat)
    requires !IsSpace(follow) && !IsIdentChar(follow) && IsIdentMatch(s, p, upperToo, follow, n)
    ensures IdentAt(s, p, upperToo, follow) == n
  {
    FollowedByIff(s, p + n, follow);
    var k :| p + n <= k < |s| && s[k] == follow && forall j | p + n <= j < k :: IsSpace(s[j]);
    assert p + n == |s| || !IsIdentChar(s[p + n]) by {
      if k > p + n {
        SpaceIsNotIdent(s[p + n]);
      }
    }
    RunEndUnique(s, p + 1, Ident, p + n);
  }
}
