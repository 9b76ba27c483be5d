/**
 * Character classes and small string helpers shared by the highlighter.
 * A Dafny `char` is a Unicode scalar value, while a JavaScript string is a
 * sequence of UTF-16 code units: a character outside the Basic Multilingual
 * Plane is one `char` here and two units there, and a lone surrogate cannot
 * be written here at all. The regular expressions of the highlighter carry
 * no `u` flag, so every class below is the ASCII or non-Unicode JavaScript
 * definition.
 */
module Chars {

  datatype Option<T> = None | Some(value: T)

  /** `\w` without the `u` flag: `[A-Za-z0-9_]`. */
  predicate IsWordChar(c: char) {
    'a' <= c <= 'z' || 'A' <= c <= 'Z' || '0' <= c <= '9' || c == '_'
  }

  predicate IsDigit(c: char) { '0' <= c <= '9' }

  predicate IsUpper(c: char) { 'A' <= c <= 'Z' }

  predicate IsLower(c: char) { 'a' <= c <= 'z' }

  predicate IsLetter(c: char) { IsUpper(c) || IsLower(c) }

  /** `[a-zA-Z0-9]` */
  predicate IsAlnum(c: char) { IsLetter(c) || IsDigit(c) }

  /** `[a-zA-Z0-9_$]`, the identifier characters of the call and key patterns. */
  predicate IsIdentChar(c: char) { IsWordChar(c) || c == '$' }

  /** The characters that JavaScript's `.` refuses to match (no `s` flag). */
  predicate IsLineTerminator(c: char) {
    c == '\n' || c == '\r' || c == '\U{2028}' || c == '\U{2029}'
  }

  /** JavaScript `\s`: the WhiteSpace and LineTerminator code points of ECMAScript. */
  predicate IsSpace(c: char) {
    || c == '\t' || c == '\n' || c == '\U{B}' || c == '\U{C}' || c == '\r' || c == ' '
    || c == '\U{A0}' || c == '\U{1680}' || ('\U{2000}' <= c <= '\U{200A}')
    || c == '\U{2028}' || c == '\U{2029}' || c == '\U{202F}' || c == '\U{205F}'
    || c == '\U{3000}' || c == '\U{FEFF}'
  }

  /** White space is never part of an identifier. */
  lemma SpaceIsNotIdent(c: char)
    requires IsSpace(c)
    ensures !IsIdentChar(c)
  {
  }

  /** `\b` at position `k` of `s`: exactly one of the two neighbours is a word character. */
  predicate IsBoundary(s: string, k: nat)
    requires k <= |s|
  {
    (0 < k && IsWordChar(s[k - 1])) != (k < |s| && IsWordChar(s[k]))
  }

  /** `s.startsWith(t, k)` */
  predicate StartsAt(s: string, k: nat, t: string) {
    k + |t| <= |s| && s[k..k + |t|] == t
  }

  /** `s.includes(t)`, written as the left-to-right search JavaScript performs. */
  predicate Contains(s: string, t: string)
    decreases |s|
  {
    StartsAt(s, 0, t) || (s != [] && Contains(s[1..], t))
  }

  /** `Contains` holds exactly when `t` occurs at some position of `s`. */
  lemma {:induction false} ContainsIffOccurs(s: string, t: string)
    ensures Contains(s, t) <==> exists k :: 0 <= k <= |s| && StartsAt(s, k, t)
    decreases |s|
  {
    if s != [] {
      ContainsIffOccurs(s[1..], t);
      if exists k :: 0 <= k <= |s| && StartsAt(s, k, t) {
        var k :| 0 <= k <= |s| && StartsAt(s, k, t);
        if k > 0 {
          assert StartsAt(s[1..], k - 1, t) by {
            assert s[1..][k - 1..k - 1 + |t|] == s[k..k + |t|];
          }
        }
      }
      if Contains(s[1..], t) && !StartsAt(s, 0, t) {
        var k :| 0 <= k <= |s[1..]| && StartsAt(s[1..], k, t);
        assert s[1..][k..k + |t|] == s[k + 1..k + 1 + |t|];
        assert StartsAt(s, k + 1, t);
      }
    } else {
      if exists k :: 0 <= k <= |s| && StartsAt(s, k, t) {
        var k :| 0 <= k <= |s| && StartsAt(s, k, t);
        assert k == 0;
      }
    }
  }

  /** A string contains every string that occurs inside it, wherever it is embedded. */
  lemma ContainsInfix(a: string, t: string, b: string)
    ensures Contains(a + t + b, t)
  {
    var s := a + t + b;
    assert StartsAt(s, |a|, t) by { assert s[|a|..|a| + |t|] == t; }
    ContainsIffOccurs(s, t);
  }
}
