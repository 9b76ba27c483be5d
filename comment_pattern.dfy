/**
 * The comment pattern `/(\/\/.*$)/g` (src/app/page.tsx:19). It is a blind
 * search for `//`: quotes around it do not matter. `.` refuses line
 * terminators and `$` (no `m` flag) only matches at the end of the input,
 * so a match is a `//` with no line terminator after it, and it runs to the
 * end of the line.
 */
module CommentPattern {
  import opened Chars

  /** No character of `s` from `k` on is a line terminator. */
  predicate NoTerminatorFrom(s: string, k: nat)
    decreases |s| - k
  {
    k >= |s| || (!IsLineTerminator(s[k]) && NoTerminatorFrom(s, k + 1))
  }

  lemma {:induction false} NoTerminatorFromIff(s: string, k: nat)
    ensures NoTerminatorFrom(s, k) <==> forall j | k <= j < |s| :: !IsLineTerminator(s[j])
    decreases |s| - k
  {
    if k < |s| {
      NoTerminatorFromIff(s, k + 1);
    }
  }

  /** Length of the comment match at `p`, 0 when none starts there. */
  function CommentAt(s: string, p: nat): (n: nat)
    ensures n > 0 ==> p + n == |s| && StartsAt(s, p, "//")
  {
    if StartsAt(s, p, "//") && NoTerminatorFrom(s, p + 2) then |s| - p else 0
  }

  /**
   * A comment starts at `p` exactly when `//` stands there and no line
   * terminator follows; it then covers the rest of the line.
   */
  lemma CommentAtSpec(s: string, p: nat)
    ensures CommentAt(s, p) > 0 <==>
      StartsAt(s, p, "//") && forall j | p <= j < |s| :: !IsLineTerminator(s[j])
    ensures CommentAt(s, p) > 0 ==> s[p..p + CommentAt(s, p)] == s[p..]
  {
    NoTerminatorFromIff(s, p + 2);
    if StartsAt(s, p, "//") {
      assert s[p] == '/' && s[p + 1] == '/';
    }
  }

  /** Without a `/` no comment starts anywhere. */
  lemma NoSlashNoComment(s: string)
    requires '/' !in s
    ensures forall p | 0 <= p < |s| :: CommentAt(s, p) == 0
  {
    forall p | 0 <= p < |s|
      ensures CommentAt(s, p) == 0
    {
      assert s[p] != '/';
      assert p + 2 <= |s| ==> s[p..p + 2][0] == s[p];
    }
  }
}
