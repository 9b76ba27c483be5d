/**
 * HTML escaping of one line (src/app/page.tsx:13-16) and the decoding that
 * undoes it. The source escapes with three global replaces, `&` first, then
 * `<`, then `>`; the lemmas show that this is the same as replacing every
 * markup character by its entity once, and that decoding `&lt;`, `&gt;` and
 * then `&amp;` gives the line back.
 */
module HtmlEscape {
  import opened Chars

  /**
   * `s.replace(/pat/g, rep)` for a literal, non-empty pattern: matches are
   * found left to right, never overlap, and the replacement is not rescanned.
   */
  function ReplaceAll(s: string, pat: string, rep: string): string
    requires pat != []
    decreases |s|
  {
    if |s| < |pat| then s
    else if s[..|pat|] == pat then rep + ReplaceAll(s[|pat|..], pat, rep)
    else [s[0]] + ReplaceAll(s[1..], pat, rep)
  }

  /** The line as the highlighter escapes it (src/app/page.tsx:13-16). */
  function Escape(line: string): string {
    ReplaceAll(ReplaceAll(ReplaceAll(line, "&", "&amp;"), "<", "&lt;"), ">", "&gt;")
  }

  /** Undoes the escaping: `&lt;`, then `&gt;`, then `&amp;`. */
  function Unescape(t: string): string {
    ReplaceAll(ReplaceAll(ReplaceAll(t, "&lt;", "<"), "&gt;", ">"), "&amp;", "&")
  }

  const Markup: set<char> := {'&', '<', '>'}

  function Entity(c: char): (e: string)
    requires c in Markup
    ensures |e| >= 4 && e[0] == '&' && e[|e| - 1] == ';'
    ensures '<' !in e && '>' !in e && '&' !in e[1..]
  {
    if c == '&' then "&amp;" else if c == '<' then "&lt;" else "&gt;"
  }

  /**
   * Reference definition: every character of `line` that lies in `escaped`
   * becomes its entity, every other character is kept.
   */
  function Encode(line: string, escaped: set<char>): string
    requires escaped <= Markup
  {
    if line == [] then []
    else (if line[0] in escaped then Entity(line[0]) else [line[0]]) + Encode(line[1..], escaped)
  }

  /** A replace whose pattern starts with a character absent from `x` copies `x`. */
  lemma {:induction false} ReplaceAllSkips(x: string, rest: string, pat: string, rep: string)
    requires pat != [] && pat[0] !in x
    ensures ReplaceAll(x + rest, pat, rep) == x + ReplaceAll(rest, pat, rep)
    decreases |x|
  {
    if x == [] {
      assert x + rest == rest;
    } else {
      var s := x + rest;
      if |s| < |pat| {
        assert ReplaceAll(rest, pat, rep) == rest;
      } else {
        assert s[..|pat|][0] == x[0] != pat[0];
        assert s[1..] == x[1..] + rest;
        assert pat[0] !in x[1..];
        ReplaceAllSkips(x[1..], rest, pat, rep);
        assert [x[0]] + x[1..] == x;
      }
    }
  }

  lemma ReplaceAllAtMatch(pat: string, rest: string, rep: string)
    requires pat != []
    ensures ReplaceAll(pat + rest, pat, rep) == rep + ReplaceAll(rest, pat, rep)
  {
    var s := pat + rest;
    assert s[..|pat|] == pat && s[|pat|..] == rest;
  }

  /**
   * Replacing markup character `c` in a text where the characters of
   * `escaped` are already entities escapes `c` too, provided no entity
   * already present contains `c` (which is why `&` must go first).
   */
  lemma {:induction false} ReplaceEscapesOne(line: string, escaped: set<char>, c: char)
    requires escaped <= Markup && c in Markup && c !in escaped
    requires c == '&' ==> escaped == {}
    ensures ReplaceAll(Encode(line, escaped), [c], Entity(c)) == Encode(line, escaped + {c})
    decreases |line|
  {
    if line != [] {
      var x := line[0];
      var rest := Encode(line[1..], escaped);
      ReplaceEscapesOne(line[1..], escaped, c);
      if x in escaped {
        ReplaceAllSkips(Entity(x), rest, [c], Entity(c));
      } else if x == c {
        ReplaceAllAtMatch([c], rest, Entity(c));
      } else {
        ReplaceAllSkips([x], rest, [c], Entity(c));
      }
    }
  }

  /** The three replaces of the source are exactly the per-character entity map. */
  lemma EscapeEncodes(line: string)
    ensures Escape(line) == Encode(line, Markup)
  {
    EncodeNothing(line);
    ReplaceEscapesOne(line, {}, '&');
    assert {} + {'&'} == {'&'};
    ReplaceEscapesOne(line, {'&'}, '<');
    assert {'&'} + {'<'} == {'&', '<'};
    ReplaceEscapesOne(line, {'&', '<'}, '>');
    assert {'&', '<'} + {'>'} == Markup;
  }

  /** Distinct entities differ in their second character. */
  lemma EntitiesDiffer(x: char, c: char)
    requires x in Markup && c in Markup && x != c
    ensures Entity(x)[1] != Entity(c)[1]
  {
  }

  /** An entity other than the pattern is copied by a replace of the pattern. */
  lemma EntityMismatch(x: char, c: char, rest: string)
    requires x in Markup && c in Markup && x != c
    ensures ReplaceAll(Entity(x) + rest, Entity(c), [c]) == Entity(x) + ReplaceAll(rest, Entity(c), [c])
  {
    var e := Entity(x);
    var s := e + rest;
    var pat := Entity(c);
    if |s| >= |pat| {
      EntitiesDiffer(x, c);
      assert s[..|pat|][1] == e[1];
      assert s[1..] == e[1..] + rest;
      ReplaceAllSkips(e[1..], rest, pat, [c]);
      assert [s[0]] + e[1..] == e;
    } else {
      assert ReplaceAll(rest, pat, [c]) == rest;
    }
  }

  /**
   * Decoding the entity of `c` turns exactly the characters `c` back, as long
   * as every `&` of the text begins an entity.
   */
  lemma {:induction false} DecodeOne(line: string, escaped: set<char>, c: char)
    requires escaped <= Markup && c in escaped && '&' in escaped
    ensures ReplaceAll(Encode(line, escaped), Entity(c), [c]) == Encode(line, escaped - {c})
    decreases |line|
  {
    if line != [] {
      var x := line[0];
      var rest := Encode(line[1..], escaped);
      DecodeOne(line[1..], escaped, c);
      if x == c {
        ReplaceAllAtMatch(Entity(c), rest, [c]);
      } else if x in escaped {
        EntityMismatch(x, c, rest);
      } else {
        ReplaceAllSkips([x], rest, Entity(c), [c]);
      }
    }
  }

  lemma {:induction false} EncodeNothing(line: string)
    ensures Encode(line, {}) == line
    decreases |line|
  {
    if line != [] {
      EncodeNothing(line[1..]);
    }
  }

  /** Decoding `&lt;`, `&gt;`, then `&amp;` returns the original line exactly. */
  lemma EscapeRoundTrip(line: string)
    ensures Unescape(Escape(line)) == line
  {
    EscapeEncodes(line);
    DecodeOne(line, Markup, '<');
    assert Markup - {'<'} == {'&', '>'};
    DecodeOne(line, {'&', '>'}, '>');
    assert {'&', '>'} - {'>'} == {'&'};
    DecodeOne(line, {'&'}, '&');
    assert {'&'} - {'&'} == {};
    EncodeNothing(line);
  }

  lemma {:induction false} EncodeOmits(line: string, escaped: set<char>, c: char)
    requires escaped <= Markup && c in escaped && c != '&'
    ensures c !in Encode(line, escaped)
    decreases |line|
  {
    if line != [] {
      EncodeOmits(line[1..], escaped, c);
    }
  }

  /** The escaped line contains no `<` and no `>`. */
  lemma EscapeHasNoAngles(line: string)
    ensures '<' !in Escape(line) && '>' !in Escape(line)
  {
    EscapeEncodes(line);
    EncodeOmits(line, Markup, '<');
    EncodeOmits(line, Markup, '>');
  }

  lemma {:induction false} EncodeKeeps(line: string, escaped: set<char>, c: char)
    requires escaped <= Markup && c !in "&amp;&lt;&gt;<>"
    ensures (c in Encode(line, escaped)) <==> (c in line)
    decreases |line|
  {
    if line != [] {
      EncodeKeeps(line[1..], escaped, c);
      assert line == [line[0]] + line[1..];
      if line[0] in escaped {
        assert c !in Entity(line[0]);
      }
    }
  }

  /** Escaping neither adds nor removes any character other than `&;ampltg<>`, line feeds in particular. */
  lemma EscapeKeeps(line: string, c: char)
    requires c !in "&amp;&lt;&gt;<>"
    ensures (c in Escape(line)) <==> (c in line)
  {
    EscapeEncodes(line);
    EncodeKeeps(line, Markup, c);
  }

  lemma {:induction false} EncodeAppend(a: string, b: string, escaped: set<char>)
    requires escaped <= Markup
    ensures Encode(a + b, escaped) == Encode(a, escaped) + Encode(b, escaped)
    decreases |a|
  {
    if a == [] {
      assert a + b == b;
    } else {
      assert (a + b)[1..] == a[1..] + b;
      EncodeAppend(a[1..], b, escaped);
    }
  }

  lemma {:induction false} EncodePlain(t: string, escaped: set<char>)
    requires escaped <= Markup
    requires forall j | 0 <= j < |t| :: t[j] !in escaped
    ensures Encode(t, escaped) == t
    decreases |t|
  {
    if t != [] {
      EncodePlain(t[1..], escaped);
    }
  }

  /**
   * Escaping works character by character: a piece of the line without
   * `&`, `<` or `>` comes through unchanged, and the text around it is
   * escaped on its own.
   */
  lemma EscapeAround(a: string, t: string, b: string)
    requires '&' !in t && '<' !in t && '>' !in t
    ensures Escape(a + t + b) == Escape(a) + t + Escape(b)
  {
    EscapeEncodes(a + t + b);
    EscapeEncodes(a);
    EscapeEncodes(b);
    EncodeAppend(a + t, b, Markup);
    EncodeAppend(a, t, Markup);
    EncodePlain(t, Markup);
  }

  /** A line without `&`, `<` and `>` is its own escape. */
  lemma EscapePlainLine(line: string)
    requires '&' !in line && '<' !in line && '>' !in line
    ensures Escape(line) == line
  {
    EscapeEncodes(line);
    EncodePlain(line, Markup);
  }

  /** Text without `&`, `<` and `>` that occurs in a line still occurs in the escaped line. */
  lemma EscapeKeepsPlainText(line: string, t: string)
    requires '&' !in t && '<' !in t && '>' !in t
    requires Contains(line, t)
    ensures Contains(Escape(line), t)
  {
    ContainsIffOccurs(line, t);
    var k :| 0 <= k <= |line| && StartsAt(line, k, t);
    var a, b := line[..k], line[k + |t|..];
    assert line == a + t + b;
    EscapeAround(a, t, b);
    ContainsInfix(Escape(a), t, Escape(b));
  }
}
