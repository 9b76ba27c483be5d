/**
 * Concrete inputs: one line of an embedded snippet (src/app/page.tsx:811)
 * and short lines chosen to show each pattern's edge cases. Most lemmas
 * state what one matcher finds at one position; a few follow a line through
 * one or two whole passes, and the comment lines go through `HighlightLine`.
 */
module Vectors {
  import opened Chars
  import opened Runs
  import opened HtmlEscape
  import opened CommentPattern
  import opened LiteralPatterns
  import opened WordPatterns
  import opened NumberPattern
  import opened CallPatterns
  import opened Scan
  import opened Passes
  import opened Highlight

  lemma TypeofxIsNoKeyword()
    ensures "typeofx" !in Keywords
  {
  }

  lemma ConstValueIsNoKeyword()
    ensures "constValue" !in Keywords
  {
  }

  /** `typeof` is a keyword on its own. */
  lemma WholeKeywordVector()
    ensures KeywordAt("typeof x", 0) == 6
  {
    var s := "typeof x";
    assert Keywords[16] == "typeof";
    assert s[0..6] == "typeof";
    KeywordAtSpec(s, 0, 16);
  }

  /** A keyword at the start of a longer word is not wrapped. */
  lemma KeywordPrefixVectors()
    ensures KeywordAt("constValue", 0) == 0
    ensures KeywordAt("typeofx", 0) == 0
  {
    TypeofxIsNoKeyword();
    ConstValueIsNoKeyword();
    assert "constValue"[0..10] == "constValue";
    NotAKeyword("constValue", 0, 10);
    assert "typeofx"[0..7] == "typeofx";
    NotAKeyword("typeofx", 0, 7);
  }

  lemma IntegerVectors()
    ensures NumberAt("42", 0) == 2
    ensures NumberAt("1_000", 0) == 5
  {
  }

  lemma FractionVector()
    ensures NumberAt("3.14", 0) == 4
  {
  }

  /** A digit glued to a letter is no number, on either side. */
  lemma GluedDigitVectors()
    ensures NumberAt("x1", 1) == 0
    ensures NumberAt("1x", 0) == 0
  {
  }

  /** Neither the `0` nor the `8004` of a hexadecimal literal is wrapped. */
  lemma HexVector()
    ensures NumberAt("0x8004", 0) == 0 && NumberAt("0x8004", 2) == 0
  {
  }

  /** In a line without `<`, every position up to an `&gt;` sees `&gt;` ahead. */
  lemma GtAheadWithoutAngle(s: string, k: nat, j: nat)
    requires k <= j && StartsAt(s, j, "&gt;") && '<' !in s
    ensures GtAhead(s, k)
  {
    GtAheadIff(s, k);
    assert forall i | 0 <= i < j - k :: s[k..j][i] == s[k + i];
  }

  /** In `Map<K, V>` no capitalised word is wrapped: `&gt;` follows each before any `<`. */
  lemma GenericTypeVector()
    ensures TypeNameAt("Map&lt;K, V&gt;", 0) == 0
    ensures TypeNameAt("Map&lt;K, V&gt;", 7) == 0
    ensures TypeNameAt("Map&lt;K, V&gt;", 10) == 0
  {
    var s := "Map&lt;K, V&gt;";
    assert StartsAt(s, 11, "&gt;") by { assert s[11..15] == "&gt;"; }
    assert '<' !in s;
    GtAheadWithoutAngle(s, 3, 11);
    assert RunEnd(s, 1, Alnum) == 3;
    GtAheadWithoutAngle(s, 8, 11);
    assert RunEnd(s, 8, Alnum) == 8;
    GtAheadWithoutAngle(s, 11, 11);
    assert RunEnd(s, 11, Alnum) == 11;
  }

  /** A lower-case name before `(` is a call, white space in between or not. */
  lemma CallVector()
    ensures CallAt("fetch (x)", 0) == 5
  {
  }

  /** A capitalised name before `(` is not. */
  lemma CapitalCallVector()
    ensures CallAt("Foo(x)", 0) == 0
  {
  }

  /**
   * On the bare text the key pattern takes a name before `:`, capitalised or
   * not. In a line, though, the type-name pass runs first and takes a whole
   * capitalised word (`TypeNameTakesCapitalKey`).
   */
  lemma PropertyVectors()
    ensures PropertyAt("name: 1", 0) == 4
    ensures PropertyAt("Name :", 0) == 4
  {
  }

  /**
   * In `Name :` the type-name pass wraps `Name`, and the key pass then finds
   * no key: the `:` follows the closing tag, not a name.
   */
  lemma TypeNameTakesCapitalKey(s: string)
    requires s == "Name :"
    ensures Run(TypeName, s) == OpenTag("hl-cls") + "Name" + CloseTag + " :"
    ensures Run(Property, Run(TypeName, s)) == Run(TypeName, s)
  {
    NameIsTypeName(s);
    ApplyFirstMatch("hl-cls", MatcherOf(TypeName), s, 0);
    RenderNoMatch("hl-cls", MatcherOf(TypeName), s, 4);
    assert s[4..] == " :";
    var t := Run(TypeName, s);
    NoKeyInWrappedName(t);
    ApplyNoMatch("hl-prop", MatcherOf(Property), t);
  }

  /** `Name` is a whole capitalised word with no `&gt;` after it; nothing else in `Name :` is. */
  lemma NameIsTypeName(s: string)
    requires s == "Name :"
    ensures TypeNameAt(s, 0) == 4
    ensures forall k | 4 <= k < |s| :: TypeNameAt(s, k) == 0
  {
    RunEndUnique(s, 1, Alnum, 4);
    assert !GtAhead(s, 6) && !GtAhead(s, 5) && !GtAhead(s, 4);
  }

  lemma NoKeyInWrappedName(t: string)
    requires t == OpenTag("hl-cls") + "Name" + CloseTag + " :"
    ensures forall k | 0 <= k < |t| :: PropertyAt(t, k) == 0
  {
    assert t == "<span class=\"hl-cls\">Name</span> :";
    WrappedNameChars(t);
    NoKeyBetween0(t);
    NoKeyBetween6(t);
    NoKeyBetween13(t);
    NoKeyBetween16(t);
    NoKeyBetween21(t);
    NoKeyBetween27(t);
  }

  /** `<span class="hl-cls">Name</span> :`, character by character. */
  predicate IsWrappedName(t: string) {
    && |t| == 34
    && t[0] == '<' && t[1] == 's' && t[2] == 'p' && t[3] == 'a' && t[4] == 'n' && t[5] == ' '
    && t[6] == 'c' && t[7] == 'l' && t[8] == 'a' && t[9] == 's' && t[10] == 's' && t[11] == '='
    && t[12] == '"' && t[13] == 'h' && t[14] == 'l' && t[15] == '-' && t[16] == 'c' && t[17] == 'l'
    && t[18] == 's' && t[19] == '"' && t[20] == '>' && t[21] == 'N' && t[22] == 'a' && t[23] == 'm'
    && t[24] == 'e' && t[25] == '<' && t[26] == '/' && t[27] == 's' && t[28] == 'p' && t[29] == 'a'
    && t[30] == 'n' && t[31] == '>' && t[32] == ' ' && t[33] == ':'
  }

  /** The characters of the type-name pass's output on `Name :`, read off a few at a time. */
  lemma WrappedNameChars(t: string)
    requires t == "<span class=\"hl-cls\">Name</span> :"
    ensures IsWrappedName(t)
  {
    WrappedNameCharsFrom0(t);
    WrappedNameCharsFrom2(t);
    WrappedNameCharsFrom4(t);
    WrappedNameCharsFrom6(t);
    WrappedNameCharsFrom9(t);
    WrappedNameCharsFrom12(t);
    WrappedNameCharsFrom16(t);
    WrappedNameCharsFrom22(t);
  }

  lemma WrappedNameCharsFrom0(t: string)
    requires t == "<span class=\"hl-cls\">Name</span> :"
    ensures t[0] == '<' && t[1] == 's'
  {
  }

  lemma WrappedNameCharsFrom2(t: string)
    requires t == "<span class=\"hl-cls\">Name</span> :"
    ensures t[2] == 'p' && t[3] == 'a'
  {
  }

  lemma WrappedNameCharsFrom4(t: string)
    requires t == "<span class=\"hl-cls\">Name</span> :"
    ensures t[4] == 'n' && t[5] == ' '
  {
  }

  lemma WrappedNameCharsFrom6(t: string)
    requires t == "<span class=\"hl-cls\">Name</span> :"
    ensures t[6] == 'c' && t[7] == 'l' && t[8] == 'a'
  {
  }

  lemma WrappedNameCharsFrom9(t: string)
    requires t == "<span class=\"hl-cls\">Name</span> :"
    ensures t[9] == 's' && t[10] == 's' && t[11] == '='
  {
  }

  lemma WrappedNameCharsFrom12(t: string)
    requires t == "<span class=\"hl-cls\">Name</span> :"
    ensures t[12] == '"' && t[13] == 'h' && t[14] == 'l' && t[15] == '-'
  {
  }

  lemma WrappedNameCharsFrom16(t: string)
    requires t == "<span class=\"hl-cls\">Name</span> :"
    ensures t[16] == 'c' && t[17] == 'l' && t[18] == 's' && t[19] == '"' && t[20] == '>' && t[21] == 'N'
  {
  }

  lemma WrappedNameCharsFrom22(t: string)
    requires t == "<span class=\"hl-cls\">Name</span> :"
    ensures t[22] == 'a' && t[23] == 'm' && t[24] == 'e' && t[25] == '<' && t[26] == '/' && t[27] == 's' && t[28] == 'p' && t[29] == 'a' && t[30] == 'n' && t[31] == '>' && t[32] == ' ' && t[33] == ':'
  {
  }

  /** Each name in the output is followed by something other than `:`; elsewhere no name starts. */
  lemma NoKeyBetween0(t: string)
    requires IsWrappedName(t)
    ensures forall k | 0 <= k < 6 :: PropertyAt(t, k) == 0
  {
    NameBeforeOther(t, 1, 5, 6);
    forall k | 0 <= k < 6 && k != 1
      ensures PropertyAt(t, k) == 0
    {
      if k == 2 || k == 3 || k == 4 {
        NoKeyInsideWord(t, k);
      } else {
        NoKeyAtNonIdent(t, k);
      }
    }
  }

  lemma NoKeyBetween6(t: string)
    requires IsWrappedName(t)
    ensures forall k | 6 <= k < 13 :: PropertyAt(t, k) == 0
  {
    NameBeforeOther(t, 6, 11, 11);
    forall k | 6 <= k < 13 && k != 6
      ensures PropertyAt(t, k) == 0
    {
      if k == 7 || k == 8 || k == 9 || k == 10 {
        NoKeyInsideWord(t, k);
      } else {
        NoKeyAtNonIdent(t, k);
      }
    }
  }

  lemma NoKeyBetween13(t: string)
    requires IsWrappedName(t)
    ensures forall k | 13 <= k < 16 :: PropertyAt(t, k) == 0
  {
    NameBeforeOther(t, 13, 15, 15);
    forall k | 13 <= k < 16 && k != 13
      ensures PropertyAt(t, k) == 0
    {
      if k == 14 {
        NoKeyInsideWord(t, k);
      } else {
        NoKeyAtNonIdent(t, k);
      }
    }
  }

  lemma NoKeyBetween16(t: string)
    requires IsWrappedName(t)
    ensures forall k | 16 <= k < 21 :: PropertyAt(t, k) == 0
  {
    NameBeforeOther(t, 16, 19, 19);
    forall k | 16 <= k < 21 && k != 16
      ensures PropertyAt(t, k) == 0
    {
      if k == 17 || k == 18 {
        NoKeyInsideWord(t, k);
      } else {
        NoKeyAtNonIdent(t, k);
      }
    }
  }

  lemma NoKeyBetween21(t: string)
    requires IsWrappedName(t)
    ensures forall k | 21 <= k < 27 :: PropertyAt(t, k) == 0
  {
    NameBeforeOther(t, 21, 25, 25);
    forall k | 21 <= k < 27 && k != 21
      ensures PropertyAt(t, k) == 0
    {
      if k == 22 || k == 23 || k == 24 {
        NoKeyInsideWord(t, k);
      } else {
        NoKeyAtNonIdent(t, k);
      }
    }
  }

  lemma NoKeyBetween27(t: string)
    requires IsWrappedName(t)
    ensures forall k | 27 <= k < |t| :: PropertyAt(t, k) == 0
  {
    NameBeforeOther(t, 27, 31, 31);
    forall k | 27 <= k < |t| && k != 27
      ensures PropertyAt(t, k) == 0
    {
      if k == 28 || k == 29 || k == 30 {
        NoKeyInsideWord(t, k);
      } else {
        NoKeyAtNonIdent(t, k);
      }
    }
  }

  /** A name whose run ends at `e` and whose spaces end at `f` before a character other than `:` is no key. */
  lemma NameBeforeOther(s: string, p: nat, e: nat, f: nat)
    requires p < e <= f < |s| && s[f] != ':'
    requires forall j | p < j < e :: IsIdentChar(s[j])
    requires !IsIdentChar(s[e])
    requires forall j | e <= j < f :: IsSpace(s[j])
    requires !IsSpace(s[f])
    ensures PropertyAt(s, p) == 0
  {
    RunEndUnique(s, p + 1, Ident, e);
    RunEndUnique(s, e, Space, f);
  }

  /** No key starts inside a word: there is no boundary there. */
  lemma NoKeyInsideWord(s: string, k: nat)
    requires 0 < k < |s| && IsWordChar(s[k - 1]) && IsWordChar(s[k])
    ensures PropertyAt(s, k) == 0
  {
  }

  /** No key starts at a character outside `[a-zA-Z_$]`. */
  lemma NoKeyAtNonIdent(s: string, k: nat)
    requires k < |s| && !IsIdentStart(s[k], true)
    ensures PropertyAt(s, k) == 0
  {
  }

  /**
   * A capitalised key survives the type-name pass when that pass finds no
   * whole word there: in `PRIVATE_KEY: 1` the `_` leaves no word boundary
   * after `PRIVATE`, so the key pass wraps the whole key.
   */
  lemma CapitalKeyVector(s: string)
    requires s == "PRIVATE_KEY: 1"
    ensures Run(TypeName, s) == s
    ensures PropertyAt(s, 0) == 11
  {
    NoTypeNameInKey(s);
    ApplyNoMatch("hl-cls", MatcherOf(TypeName), s);
    RunEndUnique(s, 1, Ident, 11);
  }

  /** `PRIVATE` is followed by `_`, a word character, so no capitalised word of `PRIVATE_KEY` is whole. */
  lemma NoTypeNameInKey(s: string)
    requires s == "PRIVATE_KEY: 1"
    ensures forall k | 0 <= k < |s| :: TypeNameAt(s, k) == 0
  {
    RunEndUnique(s, 1, Alnum, 7);
    assert !IsBoundary(s, 7);
  }

  /** Only white space may stand between a key and its `:`. */
  lemma DottedPropertyVector()
    ensures PropertyAt("a.b: 1", 0) == 0
  {
  }

  /** A backslash keeps a quote from closing a quoted string; an unclosed one is not wrapped. */
  lemma QuotedVectors()
    ensures QuotedAt("\"a\\\"b\" c", 0) == 6
    ensures QuotedAt("'ab", 0) == 0
  {
  }

  /** A backslash does not keep a backtick from closing a template literal. */
  lemma TemplateVector()
    ensures TemplateAt("`a\\`b`", 0) == 4
  {
  }

  /** The first twelve characters of every opening tag. */
  lemma OpenTagStart(cls: string, rest: string)
    ensures (OpenTag(cls) + rest)[..12] == "<span class="
    ensures (OpenTag(cls) + rest)[12] == '"'
    ensures (OpenTag(cls) + rest)[13..13 + |cls|] == cls
    ensures 13 + |cls| < |OpenTag(cls) + rest| && (OpenTag(cls) + rest)[13 + |cls|] == '"'
  {
    var s := OpenTag(cls) + rest;
    assert s == "<span class=\"" + cls + "\">" + rest;
  }

  /**
   * The string pass wraps the class value of a span the template pass
   * inserted: the scan finds no quote before it and then takes `"hl-str"`.
   */
  lemma StringPassRewrapsClass(rest: string)
    ensures var s := OpenTag("hl-str") + rest;
      Run(Quoted, s) == s[..12] + OpenTag("hl-str") + s[12..20] + CloseTag
        + Render("hl-str", Tokens(MatcherOf(Quoted), s, 20))
    ensures var s := OpenTag("hl-str") + rest;
      s[..12] == "<span class=" && s[12..20] == "\"hl-str\""
  {
    var s := OpenTag("hl-str") + rest;
    OpenTagStart("hl-str", rest);
    QuotedClassValue(s);
    ClassValueSlice(s);
  }

  lemma ClassValueSlice(s: string)
    requires |s| > 20 && s[12] == '"' && s[13..19] == "hl-str" && s[19] == '"'
    ensures s[12..20] == "\"hl-str\""
  {
    assert s[12..20] == [s[12]] + s[13..19] + [s[19]];
  }

  lemma QuotedClassValue(s: string)
    requires |s| > 20 && s[..12] == "<span class=" && s[12] == '"' && s[13..19] == "hl-str" && s[19] == '"'
    ensures Run(Quoted, s) == s[..12] + OpenTag("hl-str") + s[12..20] + CloseTag
        + Render("hl-str", Tokens(MatcherOf(Quoted), s, 20))
  {
    QuotedClassMatch(s);
    ApplyFirstMatch("hl-str", MatcherOf(Quoted), s, 12);
  }

  /** In text that starts like an opening tag of class `hl-str`, the first quoted string is the class value. */
  lemma QuotedClassMatch(s: string)
    requires |s| > 20 && s[..12] == "<span class=" && s[12] == '"' && s[13..19] == "hl-str" && s[19] == '"'
    ensures forall k | 0 <= k < 12 :: QuotedAt(s, k) == 0
    ensures QuotedAt(s, 12) == 8
  {
    forall k | 0 <= k < 12
      ensures QuotedAt(s, k) == 0
    {
      assert s[k] == s[..12][k];
    }
    assert EscapedBody("hl-str", '"');
    QuotedAtSpec(s, 12, 8);
  }

  /**
   * The keyword pass wraps the word `class` inside the opening tag of any
   * earlier span, breaking up its attribute.
   */
  lemma KeywordPassSplitsTag(cls: string, rest: string)
    ensures var s := OpenTag(cls) + rest;
      Run(Keyword, s) == s[..6] + OpenTag("hl-kw") + s[6..11] + CloseTag
        + Render("hl-kw", Tokens(MatcherOf(Keyword), s, 11))
    ensures var s := OpenTag(cls) + rest;
      s[..6] == "<span " && s[6..11] == "class"
  {
    var s := OpenTag(cls) + rest;
    OpenTagStart(cls, rest);
    NoKeywordBeforeClass(s);
    ClassInTag(s);
    ApplyFirstMatch("hl-kw", MatcherOf(Keyword), s, 6);
  }

  lemma SpanIsNoKeyword()
    ensures "span" !in Keywords && [] !in Keywords
  {
    KeywordsAreLowerCaseWords();
  }

  lemma ClassIsKeyword()
    ensures Keywords[10] == "class"
  {
  }

  /** In text that starts like an opening tag, no keyword starts before `class`. */
  lemma NoKeywordBeforeClass(s: string)
    requires |s| > 12 && s[..12] == "<span class="
    ensures forall k | 0 <= k < 6 :: KeywordAt(s, k) == 0
  {
    var pre := s[..12];
    assert forall k | 0 <= k < 12 :: s[k] == pre[k];
    assert s[1..5] == pre[1..5] == "span";
    assert s[5..5] == [];
    SpanIsNoKeyword();
    NotAKeyword(s, 1, 5);
    NotAKeyword(s, 5, 5);
  }

  /** In text that starts like an opening tag, the keyword `class` follows `<span `. */
  lemma ClassInTag(s: string)
    requires |s| > 12 && s[..12] == "<span class="
    ensures KeywordAt(s, 6) == 5
    ensures s[..6] == "<span " && s[6..11] == "class"
  {
    var pre := s[..12];
    assert s[5] == pre[5] && s[11] == pre[11];
    assert s[..6] == pre[..6] == "<span ";
    assert s[6..11] == pre[6..11] == "class";
    ClassIsKeyword();
    var w := Keywords[10];
    assert s[5] == ' ' && s[6] == 'c' && s[10] == 's' && s[11] == '=';
    assert IsBoundary(s, 6) && IsBoundary(s, 11);
    assert |w| == 5 && s[6..6 + |w|] == w;
    KeywordAtSpec(s, 6, 10);
  }

  /**
   * A line with code before its comment: the comment is wrapped, and the
   * code before it is left as it is, `const` and `5` included.
   */
  lemma CodeBeforeCommentVector(code: string, rest: string)
    requires code == "const x = 5; " && rest == "// note"
    ensures HighlightLine(code + rest) == code + OpenTag("hl-cmt") + rest + CloseTag
  {
    var line := code + rest;
    CodeLineComment(code, rest);
    CodeLinePlain(code, rest);
    EscapePlainLine(line);
    CommentLine(line, 13);
    assert line[..13] == code && line[13..] == rest;
  }

  lemma CodeLinePlain(code: string, rest: string)
    requires code == "const x = 5; " && rest == "// note"
    ensures '&' !in code + rest && '<' !in code + rest && '>' !in code + rest
  {
    assert '&' !in code && '<' !in code && '>' !in code;
    assert '&' !in rest && '<' !in rest && '>' !in rest;
  }

  lemma CodeLineComment(code: string, rest: string)
    requires code == "const x = 5; " && rest == "// note"
    ensures CommentAt(code + rest, 13) > 0
    ensures forall k | 0 <= k < 13 :: CommentAt(code + rest, k) == 0
  {
    var line := code + rest;
    assert line[13..15] == "//";
    CommentAtSpec(line, 13);
    forall k | 0 <= k < 13
      ensures CommentAt(line, k) == 0
    {
      assert line[k] != '/';
      assert k + 2 <= |line| ==> line[k..k + 2][0] == line[k];
    }
  }

  /**
   * The URL line of a snippet (src/app/page.tsx:811): its `//` lies inside
   * quotes but starts a comment anyway. The comment span covers the rest of
   * the line, closing quote included, and no later pass runs.
   */
  lemma QuotedUrlLineIsComment(code: string, rest: string)
    requires code == "  \"https:" && rest == "//api.agent.ai/tool\""
    ensures HighlightLine(code + rest) == code + OpenTag("hl-cmt") + rest + CloseTag
  {
    var line := code + rest;
    UrlLineComment(code, rest);
    UrlLinePlain(code, rest);
    EscapePlainLine(line);
    CommentLine(line, 9);
    assert line[..9] == code && line[9..] == rest;
  }

  lemma UrlLinePlain(code: string, rest: string)
    requires code == "  \"https:" && rest == "//api.agent.ai/tool\""
    ensures '&' !in code + rest && '<' !in code + rest && '>' !in code + rest
  {
    assert '&' !in code && '<' !in code && '>' !in code;
    assert '&' !in rest && '<' !in rest && '>' !in rest;
  }

  lemma UrlLineComment(code: string, rest: string)
    requires code == "  \"https:" && rest == "//api.agent.ai/tool\""
    ensures CommentAt(code + rest, 9) > 0
    ensures forall k | 0 <= k < 9 :: CommentAt(code + rest, k) == 0
  {
    var line := code + rest;
    assert line[9..11] == "//";
    CommentAtSpec(line, 9);
    forall k | 0 <= k < 9
      ensures CommentAt(line, k) == 0
    {
      assert line[k] != '/';
      assert k + 2 <= |line| ==> line[k..k + 2][0] == line[k];
    }
  }

  /**
   * `Promise<void>`: before the keyword pass the `&gt;` ahead blocks the type
   * name; the keyword pass wraps `void`, and the `<` of its span then stops
   * the look-ahead, so the type-name pass wraps `Promise`.
   */
  lemma PromiseVoidVector(s: string)
    requires s == "Promise&lt;void&gt;"
    ensures TypeNameAt(s, 0) == 0
    ensures Run(Keyword, s) == s[..11] + OpenTag("hl-kw") + s[11..15] + CloseTag + s[15..]
    ensures TypeNameAt(Run(Keyword, s), 0) == 7
  {
    PromiseBlocked(s);
    KeywordPassOnPromise(s);
    PromiseParts(s);
    KeywordPassPromiseStart(s, Run(Keyword, s));
    PromiseUnblocked(Run(Keyword, s));
  }

  lemma PromiseBlocked(s: string)
    requires s == "Promise&lt;void&gt;"
    ensures TypeNameAt(s, 0) == 0
  {
    assert StartsAt(s, 15, "&gt;") by { assert s[15..19] == "&gt;"; }
    assert '<' !in s;
    GtAheadWithoutAngle(s, 7, 15);
    PromiseRun(s);
  }

  /** `Promise` is a maximal run of letters and digits. */
  lemma PromiseRun(s: string)
    requires |s| > 7 && s[..8] == "Promise&"
    ensures RunEnd(s, 1, Alnum) == 7
  {
    var pre := s[..8];
    assert forall j | 0 <= j < 8 :: s[j] == pre[j];
    RunEndUnique(s, 1, Alnum, 7);
  }

  lemma PromiseParts(s: string)
    requires s == "Promise&lt;void&gt;"
    ensures s[..11] == "Promise&lt;" && s[11..15] == "void" && s[15..] == "&gt;"
  {
  }

  lemma KeywordPassOnPromise(s: string)
    requires s == "Promise&lt;void&gt;"
    ensures Run(Keyword, s) == s[..11] + OpenTag("hl-kw") + s[11..15] + CloseTag + s[15..]
  {
    NoKeywordInPromise(s);
    VoidInPromise(s);
    NoKeywordAfterVoid(s);
    ApplyFirstMatch("hl-kw", MatcherOf(Keyword), s, 11);
    RenderNoMatch("hl-kw", MatcherOf(Keyword), s, 15);
  }

  lemma PromiseIsNoKeyword()
    ensures "Promise" !in Keywords
  {
    KeywordsAreLowerCaseWords();
  }

  lemma EntityNamesAreNoKeywords()
    ensures "lt" !in Keywords && "gt" !in Keywords
  {
    LtIsNoKeyword();
    GtIsNoKeyword();
  }

  lemma LtIsNoKeyword()
    ensures "lt" !in Keywords
  {
  }

  lemma GtIsNoKeyword()
    ensures "gt" !in Keywords
  {
  }

  lemma NoKeywordInPromise(s: string)
    requires s == "Promise&lt;void&gt;"
    ensures forall k | 0 <= k < 11 :: KeywordAt(s, k) == 0
  {
    PromiseIsNoKeyword();
    EntityNamesAreNoKeywords();
    SpanIsNoKeyword();
    forall k | 0 <= k < 11
      ensures KeywordAt(s, k) == 0
    {
      if k == 0 {
        assert s[0..7] == "Promise";
        NotAKeyword(s, 0, 7);
      } else if k < 7 {
        assert IsWordChar(s[k - 1]) && IsWordChar(s[k]);
      } else if k == 7 {
        assert s[7..7] == [];
        NotAKeyword(s, 7, 7);
      } else if k == 8 {
        assert s[8..10] == "lt";
        NotAKeyword(s, 8, 10);
      } else if k == 9 {
        assert IsWordChar(s[8]) && IsWordChar(s[9]);
      } else {
        assert s[10..10] == [];
        NotAKeyword(s, 10, 10);
      }
    }
  }

  lemma VoidInPromise(s: string)
    requires s == "Promise&lt;void&gt;"
    ensures KeywordAt(s, 11) == 4
  {
    VoidIsKeyword();
    var w := Keywords[17];
    assert IsBoundary(s, 11) && IsBoundary(s, 15);
    assert |w| == 4 && s[11..15] == w;
    KeywordAtSpec(s, 11, 17);
  }

  lemma VoidIsKeyword()
    ensures Keywords[17] == "void"
  {
  }

  lemma NoKeywordAfterVoid(s: string)
    requires s == "Promise&lt;void&gt;"
    ensures forall k | 15 <= k < |s| :: KeywordAt(s, k) == 0
  {
    EntityNamesAreNoKeywords();
    SpanIsNoKeyword();
    forall k | 15 <= k < |s|
      ensures KeywordAt(s, k) == 0
    {
      if k == 15 {
        assert s[15..15] == [];
        NotAKeyword(s, 15, 15);
      } else if k == 16 {
        assert s[16..18] == "gt";
        NotAKeyword(s, 16, 18);
      } else if k == 17 {
        assert IsWordChar(s[16]) && IsWordChar(s[17]);
      } else {
        assert s[18..18] == [];
        NotAKeyword(s, 18, 18);
      }
    }
  }

  lemma PromiseUnblocked(t: string)
    requires |t| > 12 && t[..12] == "Promise&lt;<"
    ensures TypeNameAt(t, 0) == 7
  {
    var pre := t[..12];
    assert t[7] == pre[7] == '&' && t[8] == pre[8] == 'l' && t[9] == pre[9] == 't';
    assert t[10] == pre[10] == ';' && t[11] == pre[11] == '<';
    PromiseRun(t);
    assert IsBoundary(t, 7);
    assert !GtAhead(t, 11);
    assert !GtAhead(t, 10);
    assert !GtAhead(t, 9);
    assert !GtAhead(t, 8);
    assert !StartsAt(t, 7, "&gt;") by { assert t[7..11][1] == t[8]; }
  }

  lemma KeywordPassPromiseStart(s: string, t: string)
    requires |s| >= 15 && s[..11] == "Promise&lt;" && t == s[..11] + OpenTag("hl-kw") + s[11..15] + CloseTag + s[15..]
    ensures |t| > 12 && t[..12] == "Promise&lt;<"
  {
    assert t == s[..11] + ("<span class=\"hl-kw\">" + s[11..15] + CloseTag + s[15..]);
    assert t[..12] == s[..11] + ['<'];
  }
}
