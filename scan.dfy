/**
 * A JavaScript global `replace` whose pattern never matches the empty
 * string, as the highlighter's passes use it (src/app/page.tsx:19-64): the
 * engine tries each position from left to right; at a match it wraps it in
 * a span and continues after it, otherwise it copies the character.
 * Look-behinds and `\b` see the whole input, earlier matches included, so a
 * pattern is given here as the length of its match at a position of the
 * whole input.
 */
module Scan {

  /** A pattern: the length of its match at position `p` of `s`, 0 for none. */
  type Matcher = pat: (string, nat) -> nat | forall s: string, p: nat :: pat(s, p) == 0 || p + pat(s, p) <= |s|
    witness (s: string, p: nat) => 0

  /** A piece of a pass's output: a copied character or a wrapped match. */
  datatype Piece = Plain(c: char) | Wrapped(text: string)

  /** A pass's output before rendering: its pieces from left to right. */
  datatype Cut = Done | Then(first: Piece, rest: Cut)

  function OpenTag(cls: string): string { "<span class=\"" + cls + "\">" }

  const CloseTag: string := "</span>"

  /** The text a piece stands for once its tags are deleted. */
  function PieceText(x: Piece): string {
    match x
    case Plain(c) => [c]
    case Wrapped(t) => t
  }

  /** The text a cut spells once every tag is deleted. */
  function Unwrap(ps: Cut): string {
    match ps
    case Done => []
    case Then(x, rest) => PieceText(x) + Unwrap(rest)
  }

  function RenderPiece(cls: string, x: Piece): string {
    match x
    case Plain(c) => [c]
    case Wrapped(t) => OpenTag(cls) + t + CloseTag
  }

  /** The HTML a cut becomes: copied characters as they are, matches inside spans. */
  function Render(cls: string, ps: Cut): string {
    match ps
    case Done => []
    case Then(x, rest) => RenderPiece(cls, x) + Render(cls, rest)
  }

  function Concat(a: Cut, b: Cut): Cut {
    match a
    case Done => b
    case Then(x, rest) => Then(x, Concat(rest, b))
  }

  /** Every character of `t` copied. */
  function Plains(t: string): Cut
    decreases |t|
  {
    if t == [] then Done else Then(Plain(t[0]), Plains(t[1..]))
  }

  /** What a global replace does at position `i`: wrap the match there, or copy the character. */
  function FirstPiece(pat: Matcher, s: string, i: nat): (x: Piece)
    requires i < |s|
    ensures 0 < |PieceText(x)| && i + |PieceText(x)| <= |s|
  {
    var n := pat(s, i);
    if n == 0 then Plain(s[i]) else Wrapped(s[i..i + n])
  }

  /** The pieces a global replace cuts `s[i..]` into, scanning from `i`. */
  function Tokens(pat: Matcher, s: string, i: nat): Cut
    requires i <= |s|
    decreases |s| - i
  {
    if i == |s| then Done
    else
      var x := FirstPiece(pat, s, i);
      Then(x, Tokens(pat, s, i + |PieceText(x)|))
  }

  /** A global replace that wraps every match in a span of class `cls`. */
  function Apply(cls: string, pat: Matcher, s: string): string {
    Render(cls, Tokens(pat, s, 0))
  }

  /** A piece is a legal choice at offset `at`: a copied character where no match starts, or the whole non-empty match. */
  predicate PieceOk(pat: Matcher, s: string, at: nat, x: Piece) {
    match x
    case Plain(_) => pat(s, at) == 0
    case Wrapped(t) => t != [] && pat(s, at) == |t|
  }

  /**
   * Reference definition of a global replace's choice of matches, read as a
   * check on a proposed cut rather than a scan: the pieces spell `s[i..]`
   * in order, each wrapped piece is exactly the non-empty match at its
   * offset, and no match starts at a copied character. So every match taken
   * is the leftmost one after the previous, and matches never overlap.
   */
  ghost predicate IsLeftmostCut(pat: Matcher, s: string, i: nat, ps: Cut)
    requires i <= |s|
    decreases ps
  {
    match ps
    case Done => i == |s|
    case Then(x, rest) =>
      var t := PieceText(x);
      && i + |t| <= |s| && s[i..i + |t|] == t && PieceOk(pat, s, i, x)
      && IsLeftmostCut(pat, s, i + |t|, rest)
  }

  /** A cut that meets the reference definition spells the text: deleting the tags gives it back. */
  lemma {:induction false} LeftmostCutSpells(pat: Matcher, s: string, i: nat, ps: Cut)
    requires i <= |s| && IsLeftmostCut(pat, s, i, ps)
    ensures Unwrap(ps) == s[i..]
    decreases ps
  {
    match ps
    case Done =>
    case Then(x, rest) =>
      var t := PieceText(x);
      LeftmostCutSpells(pat, s, i + |t|, rest);
      assert s[i..] == s[i..i + |t|] + s[i + |t|..];
  }

  /** The piece the scanner takes at `i` is the only one the reference definition allows there. */
  lemma PieceOkIsFirst(pat: Matcher, s: string, i: nat, x: Piece)
    requires i < |s|
    ensures var t := PieceText(x);
      (i + |t| <= |s| && s[i..i + |t|] == t && PieceOk(pat, s, i, x)) <==> x == FirstPiece(pat, s, i)
  {
  }

  /** The scanner's pieces meet the reference definition. */
  lemma {:induction false} TokensAreLeftmostCut(pat: Matcher, s: string, i: nat)
    requires i <= |s|
    ensures IsLeftmostCut(pat, s, i, Tokens(pat, s, i))
    decreases |s| - i
  {
    if i < |s| {
      var x := FirstPiece(pat, s, i);
      PieceOkIsFirst(pat, s, i, x);
      TokensAreLeftmostCut(pat, s, i + |PieceText(x)|);
    }
  }

  /** The reference definition admits only the scanner's pieces. */
  lemma {:induction false} LeftmostCutIsUnique(pat: Matcher, s: string, i: nat, ps: Cut)
    requires i <= |s| && IsLeftmostCut(pat, s, i, ps)
    ensures ps == Tokens(pat, s, i)
    decreases ps
  {
    match ps
    case Done =>
    case Then(x, rest) =>
      LeftmostCutIsUnique(pat, s, i + |PieceText(x)|, rest);
      PieceOkIsFirst(pat, s, i, x);
  }

  /**
   * A pass is wrap-only and its cut is the leftmost one: its output renders
   * pieces that spell the input and meet the reference definition, and no
   * other choice of pieces does.
   */
  lemma {:induction false} ApplyIsLeftmostWrap(cls: string, pat: Matcher, s: string, ps: Cut)
    ensures Unwrap(Tokens(pat, s, 0)) == s
    ensures IsLeftmostCut(pat, s, 0, Tokens(pat, s, 0))
    ensures IsLeftmostCut(pat, s, 0, ps) <==> ps == Tokens(pat, s, 0)
  {
    TokensAreLeftmostCut(pat, s, 0);
    LeftmostCutSpells(pat, s, 0, Tokens(pat, s, 0));
    if IsLeftmostCut(pat, s, 0, ps) {
      LeftmostCutIsUnique(pat, s, 0, ps);
    }
  }

  /** Where no match starts, a pass copies the characters. */
  lemma {:induction false} TokensSkip(pat: Matcher, s: string, i: nat, j: nat)
    requires i <= j <= |s|
    requires forall k | i <= k < j :: pat(s, k) == 0
    ensures Tokens(pat, s, i) == Concat(Plains(s[i..j]), Tokens(pat, s, j))
    decreases j - i
  {
    if i < j {
      TokensSkip(pat, s, i + 1, j);
      TokensAtPlain(pat, s, i);
      assert s[i..j][1..] == s[i + 1..j];
      assert Plains(s[i..j]) == Then(Plain(s[i]), Plains(s[i + 1..j]));
    } else {
      assert s[i..j] == [];
    }
  }

  /** Where no match starts the scan copies one character and goes on after it. */
  lemma TokensAtPlain(pat: Matcher, s: string, i: nat)
    requires i < |s| && pat(s, i) == 0
    ensures Tokens(pat, s, i) == Then(Plain(s[i]), Tokens(pat, s, i + 1))
  {
  }

  lemma {:induction false} RenderConcat(cls: string, a: Cut, b: Cut)
    ensures Render(cls, Concat(a, b)) == Render(cls, a) + Render(cls, b)
  {
    match a
    case Done =>
    case Then(x, rest) =>
      RenderConcat(cls, rest, b);
  }

  lemma {:induction false} RenderPlains(cls: string, t: string)
    ensures Render(cls, Plains(t)) == t
    decreases |t|
  {
    if t != [] {
      RenderPlains(cls, t[1..]);
    }
  }

  /** Where no match starts from `j` on, a pass copies the rest of its input. */
  lemma RenderNoMatch(cls: string, pat: Matcher, s: string, j: nat)
    requires j <= |s|
    requires forall k | j <= k < |s| :: pat(s, k) == 0
    ensures Render(cls, Tokens(pat, s, j)) == s[j..]
  {
    TokensSkip(pat, s, j, |s|);
    RenderConcat(cls, Plains(s[j..|s|]), Done);
    RenderPlains(cls, s[j..|s|]);
    assert s[j..|s|] + [] == s[j..];
  }

  /** A pass that finds no match anywhere returns its input unchanged. */
  lemma ApplyNoMatch(cls: string, pat: Matcher, s: string)
    requires forall k | 0 <= k < |s| :: pat(s, k) == 0
    ensures Apply(cls, pat, s) == s
  {
    RenderNoMatch(cls, pat, s, 0);
  }

  /** The pieces up to a first match at `p`: copied characters, then the match. */
  lemma TokensFirstMatch(pat: Matcher, s: string, p: nat)
    requires p < |s| && pat(s, p) > 0
    requires forall k | 0 <= k < p :: pat(s, k) == 0
    ensures Tokens(pat, s, 0) == Concat(Plains(s[..p]), Then(Wrapped(s[p..p + pat(s, p)]), Tokens(pat, s, p + pat(s, p))))
  {
    TokensSkip(pat, s, 0, p);
    assert s[0..p] == s[..p];
    TokensAtMatch(pat, s, p);
  }

  /** At a match the scan takes it whole and goes on after it. */
  lemma TokensAtMatch(pat: Matcher, s: string, p: nat)
    requires p < |s| && pat(s, p) > 0
    ensures Tokens(pat, s, p) == Then(Wrapped(s[p..p + pat(s, p)]), Tokens(pat, s, p + pat(s, p)))
  {
  }

  /** The text that a first match at `p` leaves: untouched prefix, one span, the rest of the scan. */
  lemma ApplyFirstMatch(cls: string, pat: Matcher, s: string, p: nat)
    requires p < |s| && pat(s, p) > 0
    requires forall k | 0 <= k < p :: pat(s, k) == 0
    ensures Apply(cls, pat, s) ==
      s[..p] + OpenTag(cls) + s[p..p + pat(s, p)] + CloseTag
      + Render(cls, Tokens(pat, s, p + pat(s, p)))
  {
    TokensFirstMatch(pat, s, p);
    RenderAround(cls, s[..p], s[p..p + pat(s, p)], Tokens(pat, s, p + pat(s, p)));
  }

  /** Copied characters, one wrapped match and the rest render as text, a span, and the rest's rendering. */
  lemma RenderAround(cls: string, t: string, w: string, rest: Cut)
    ensures Render(cls, Concat(Plains(t), Then(Wrapped(w), rest))) == t + OpenTag(cls) + w + CloseTag + Render(cls, rest)
  {
    RenderConcat(cls, Plains(t), Then(Wrapped(w), rest));
    RenderPlains(cls, t);
    SpanAssoc(t, OpenTag(cls), w, Render(cls, rest));
  }

  lemma SpanAssoc(t: string, open: string, w: string, r: string)
    ensures t + ((open + w + CloseTag) + r) == t + open + w + CloseTag + r
  {
  }

  /** A first match that runs to the end of `s` leaves the prefix, one span around the rest, and nothing after it. */
  lemma ApplyLastMatch(cls: string, pat: Matcher, s: string, p: nat)
    requires p < |s| && p + pat(s, p) == |s|
    requires forall k | 0 <= k < p :: pat(s, k) == 0
    ensures Apply(cls, pat, s) == s[..p] + OpenTag(cls) + s[p..] + CloseTag
  {
    ApplyFirstMatch(cls, pat, s, p);
    assert s[p..p + pat(s, p)] == s[p..];
  }

  lemma {:induction false} CharInRender(cls: string, ps: Cut, c: char)
    requires c !in OpenTag(cls) && c !in CloseTag
    ensures (c in Render(cls, ps)) <==> (c in Unwrap(ps))
  {
    match ps
    case Done =>
    case Then(x, rest) =>
      CharInRender(cls, rest, c);
  }

  /**
   * A pass adds no character other than those of its tags: a character
   * absent from the tags (a line feed, say) occurs in the output exactly
   * when it occurs in the input.
   */
  lemma {:induction false} ApplyKeepsChar(cls: string, pat: Matcher, s: string, c: char)
    requires c !in OpenTag(cls) && c !in CloseTag
    ensures (c in Apply(cls, pat, s)) <==> (c in s)
  {
    ApplyIsLeftmostWrap(cls, pat, s, Done);
    CharInRender(cls, Tokens(pat, s, 0), c);
  }
}
