# Syntax highlighter of the agent-stack landing page

The landing page shows its code snippets through `highlight(raw)`
(src/app/page.tsx:8-69). This function turns source text into HTML by rewriting strings:

- It splits the text on line feeds.
- It HTML-escapes each line, replacing `&`, then `<`, then `>`.
- It runs eight global regular-expression replaces over the line, in this order: comment, template literal, quoted string, keyword, type name, number, function call and property key.
- Each replace wraps every match in `<span class="hl-…">…</span>`.
- A line whose text contains `class="hl-cmt"` after the comment replace is returned at that point.
- The lines are joined again with line feeds.

This project models that pipeline in Dafny as pure functions and proves what each step does.

- `Chars`: character classes as JavaScript regular expressions without the `u` flag see them. It also holds `\b` and `includes`.
- `HtmlEscape`: the three escaping replaces, and the decoding that undoes them.
- `Lines`: `split("\n")` and `join("\n")`.
- `Scan`: a global `replace` whose pattern never matches the empty string.
  - A `Matcher` gives the length of the pattern's match at a position of the whole input, so look-behinds and `\b` see the text before the match.
  - `Tokens` is the left-to-right scan: it wraps a match and continues after it, or copies one character.
  - `IsLeftmostCut` is an independent reference definition of the pieces such a replace produces.
- `CommentPattern`, `LiteralPatterns`, `WordPatterns`, `NumberPattern`, `CallPatterns`: one hand-written matcher per regular expression, each with lemmas that characterise exactly what it matches.
  - Each matcher resolves backtracking by hand. Each module comment says why the greedy choice is the only one that can succeed, and the `…AtSpec` lemmas state the resulting match exactly.
- `Passes`: the eight passes as `Run(pass, l)`.
- `Highlight`: `HighlightLine` and `Highlight`.
- `Vectors`: concrete lines with what the matchers and passes do to them. One line comes from a snippet of the page (src/app/page.tsx:811); the others are short lines chosen to show each pattern's edge cases.

The model follows the code as written, not an idealised tokenizer. Every pass runs over the whole current string, including markup that earlier passes inserted.

- The comment pass is a blind search for `//`. A URL inside quotes starts a comment (`Vectors.QuotedUrlLineIsComment`).
- A comment line gets no other highlighting, so the code in front of its `//` stays plain (`Vectors.CodeBeforeCommentVector`).
- Comment lines are detected by a substring test for the marker text, not by a flag. A line that spells `class="hl-cmt"` itself, and has no `/`, is only escaped (`Highlight.MarkerLineIsOnlyEscaped`).
- The string pass wraps the `"hl-str"` attribute value of a span the template pass inserted (`Vectors.StringPassRewrapsClass`).
- The keyword pass wraps the word `class` inside every earlier opening tag (`Vectors.KeywordPassSplitsTag`). It also wraps keywords inside string literals.
- Several points differ from a reading of the highlighter as a lexer that claims each character once, and the model follows the code:
  - `//` inside a string starts a comment.
  - Later passes see earlier spans.
  - An unterminated string or template literal is not wrapped at all. It does not run to the end of the line.
  - The keyword list has 31 words, not 27.
  - The key pattern accepts an upper-case first letter, but the type-name pass runs first and takes a whole capitalised word. So `Name :` gets an `hl-cls` span and no key span (`Vectors.TypeNameTakesCapitalKey`). An upper-case key is wrapped only where the type-name pass leaves it alone, as in `PRIVATE_KEY: 1` (`Vectors.CapitalKeyVector`).
- The type-name look-ahead `(?![^<]*&gt;)` looks for `&gt;` before the next `<`.
  - In `Map&lt;K, V&gt;` no name is wrapped.
  - In `Promise&lt;void&gt;`, the span the keyword pass puts around `void` brings a `<` that lets `Promise` through (`Vectors.PromiseVoidVector`).

## Model

| member | source | states |
|---|---|---|
| Highlight.Highlight | src/app/page.tsx:8-69 | Definition: split, highlight each line, join; characterised by `Highlight.HighlightKeepsLines` |
| Highlight.HighlightLine | src/app/page.tsx:11-66 | Definition: escape, comment pass, early return on the marker, later passes; characterised by `Highlight.CommentLine`, `Highlight.NoCommentLine` and `Highlight.HighlightLineKeepsLineFeed` |
| Highlight.LaterPasses | src/app/page.tsx:24-64 | Definition: the seven passes after the comment pass, in source order; used by `Highlight.NoCommentLine` |
| HtmlEscape.ReplaceAll | src/app/page.tsx:13-16 | Definition of a global replace of a literal text; characterised through `HtmlEscape.EscapeEncodes` |
| HtmlEscape.Escape | src/app/page.tsx:13-16 | Definition: `&`, then `<`, then `>` replaced; characterised by `HtmlEscape.EscapeEncodes` and `HtmlEscape.EscapeRoundTrip` |
| Lines.Join | src/app/page.tsx:68 | Definition of `join("\n")`; characterised by `Lines.JoinSplit` and `Lines.SplitJoin` |
| Scan.Tokens | src/app/page.tsx:19-64 | Definition of the left-to-right scan of a global replace; characterised by `Scan.ApplyIsLeftmostWrap` |
| Scan.Apply | src/app/page.tsx:19-64 | Definition of a global replace that wraps every match; characterised by `Scan.ApplyIsLeftmostWrap`, `Scan.ApplyFirstMatch` and `Scan.ApplyNoMatch` |
| Passes.ClassName | src/app/page.tsx:19-64 | Definition: the class each replacement puts on its spans |
| Passes.Run | src/app/page.tsx:19-64 | Definition of one `l = l.replace(…)` statement; characterised by `Passes.RunKeepsLineFeed` and the `Scan` lemmas |
| WordPatterns.KeywordAt | src/app/page.tsx:37-40 | Definition of the keyword match; characterised by `WordPatterns.KeywordAtSpec` and `WordPatterns.NotAKeyword` |
| NumberPattern.NumberAt | src/app/page.tsx:49-52 | Definition of the number match; characterised by `NumberPattern.NumberAtSound` and `NumberPattern.NumberAtLongest` |
| LiteralPatterns.QuotedEnd | src/app/page.tsx:32 | Definition of the walk through a string body; characterised by `LiteralPatterns.QuotedEndSpec` |
| HtmlEscape.EscapeEncodes | src/app/page.tsx:13-16 | The three replaces, `&` first, turn every `&`, `<`, `>` of the line into its entity exactly once and keep every other character |
| HtmlEscape.EscapeRoundTrip | src/app/page.tsx:13-16 | Decoding `&lt;`, then `&gt;`, then `&amp;` gives back the original line exactly |
| HtmlEscape.EscapeHasNoAngles | src/app/page.tsx:13-16 | The escaped line contains no `<` and no `>` |
| HtmlEscape.EscapeKeeps | src/app/page.tsx:13-16 | Any character outside `&;ampltg<>` (line feeds in particular) occurs in the escaped line exactly when it occurs in the line |
| HtmlEscape.EscapeAround | src/app/page.tsx:13-16 | Escaping works piecewise: text without markup characters passes through, and the text around it is escaped on its own |
| HtmlEscape.EscapePlainLine | src/app/page.tsx:13-16 | A line without `&`, `<`, `>` is its own escape |
| HtmlEscape.EscapeKeepsPlainText | src/app/page.tsx:13-16 | Text without markup characters that occurs in a line still occurs in the escaped line |
| Lines.Split | src/app/page.tsx:9 | `split("\n")` yields one piece more than there are line feeds, and no piece holds a line feed |
| Lines.JoinSplit | src/app/page.tsx:9-68 | Joining the pieces of a split with line feeds gives back the text |
| Lines.SplitJoin | src/app/page.tsx:9-68 | Splitting a join of line-feed-free pieces gives back the pieces |
| Chars.ContainsIffOccurs | src/app/page.tsx:22 | `includes` holds exactly when the text occurs at some position |
| Chars.ContainsInfix | src/app/page.tsx:22 | A string includes every text embedded in it |
| Runs.RunEnd | src/app/page.tsx:44-62 | A greedy `[…]*` stops at the first character outside its class, and every character it passes lies in the class |
| Runs.RunEndUnique | src/app/page.tsx:44-62 | The greedy end is the only end at which a run of the class can stop |
| Scan.FirstPiece | src/app/page.tsx:19-64 | The piece a global replace takes at a position is non-empty and lies inside the text |
| Scan.PieceOkIsFirst | src/app/page.tsx:19-64 | The piece taken at a position is the only legal one there: the whole non-empty match, or one copied character where no match starts |
| Scan.ApplyIsLeftmostWrap | src/app/page.tsx:19-64 | A pass renders pieces that spell its input once the tags are deleted, and those pieces meet the leftmost, non-overlapping reference definition; no other pieces do |
| Scan.ApplyNoMatch | src/app/page.tsx:19-64 | A pass that finds no match returns its input unchanged |
| Scan.RenderNoMatch | src/app/page.tsx:19-64 | From a point after which no match starts, a pass copies the rest of its input |
| Scan.ApplyFirstMatch | src/app/page.tsx:19-64 | The first match is wrapped in `<span class="X">`…`</span>` after the untouched prefix, and the scan resumes after the match |
| Scan.ApplyLastMatch | src/app/page.tsx:19-64 | A first match that runs to the end leaves the prefix, one span and nothing else |
| Scan.ApplyKeepsChar | src/app/page.tsx:19-64 | A character absent from the tags occurs in a pass's output exactly when it occurs in its input |
| CommentPattern.CommentAt | src/app/page.tsx:19 | A comment match starts with `//` and runs to the end of the line |
| CommentPattern.CommentAtSpec | src/app/page.tsx:19 | A comment starts at `p` exactly when `//` stands there and no line terminator (`\n`, `\r`, U+2028, U+2029) follows, whatever quotes surround it |
| CommentPattern.NoSlashNoComment | src/app/page.tsx:19 | Text without `/` holds no comment |
| LiteralPatterns.TemplateAt | src/app/page.tsx:25-28 | A template match runs from a backtick to the next backtick; a backtick with no partner starts no match |
| LiteralPatterns.TemplateAtSpec | src/app/page.tsx:25-28 | A template of length `n` starts at `p` exactly when backticks stand at both ends and none lies between; a backslash does not escape a backtick |
| LiteralPatterns.QuotedEndSpec | src/app/page.tsx:31-34 | The walk through a string body stops after `e` exactly when what lies before `e - 1` is a body of non-quote characters and backslash pairs, and `e - 1` holds the quote |
| LiteralPatterns.QuotedAt | src/app/page.tsx:31-34 | A quoted match opens and closes with the same quote |
| LiteralPatterns.QuotedAtSpec | src/app/page.tsx:31-34 | A quoted string of length `n` starts at `p` exactly when the same quote stands at both ends with a body between; an escaped quote never closes it, and an unclosed quote is not matched |
| WordPatterns.KeywordsAreLowerCaseWords | src/app/page.tsx:38 | The keyword pattern has 31 alternatives, all words of lower-case letters |
| WordPatterns.FirstFit | src/app/page.tsx:38 | The alternatives are tried in order: the first that stands at `p` followed by a boundary is taken, and none before it fits |
| WordPatterns.AlternativeAt | src/app/page.tsx:38 | A match of the alternation between two `\b` is one of the alternatives, with a word boundary on both sides |
| WordPatterns.FitIsUnique | src/app/page.tsx:38 | Two lower-case words that both stand at `p` followed by a boundary are equal |
| WordPatterns.AlternativeAtSpec | src/app/page.tsx:37-40 | For lower-case alternatives, `w` is matched at `p` exactly when it stands there with boundaries on both sides, whatever the order of the alternatives |
| WordPatterns.KeywordAtSpec | src/app/page.tsx:37-40 | Keyword `k` is wrapped at `p` exactly when it stands there as a whole word |
| WordPatterns.NotAnAlternative | src/app/page.tsx:37-40 | A whole word that is not an alternative holds no match at its start |
| WordPatterns.NotAKeyword | src/app/page.tsx:37-40 | A whole word that is not a keyword holds no keyword match at its start |
| WordPatterns.GtAheadIff | src/app/page.tsx:44 | The look-ahead `[^<]*&gt;` holds exactly when `&gt;` begins somewhere before the next `<` |
| WordPatterns.TypeNameAt | src/app/page.tsx:43-46 | A type-name match is a capitalised run of letters and digits between boundaries, with no `&gt;` ahead before a `<` |
| WordPatterns.TypeNameAtSpec | src/app/page.tsx:43-46 | A capitalised word of length `n` is wrapped exactly when it is a whole word and the look-ahead fails after it |
| NumberPattern.NumberAtSound | src/app/page.tsx:49-52 | What the number pass wraps is a numeral `\d[\d_]*(\.\d+)?` whose neighbours are not letters, quotes or backticks and sit across word boundaries |
| NumberPattern.NumberAtLongest | src/app/page.tsx:49-52 | Every numeral at `p` that passes both guards is at most as long as the match, so the pass takes the longest |
| NumberPattern.FractionIsTaken | src/app/page.tsx:49-52 | A numeral with a fraction that passes both guards is taken whole |
| CallPatterns.FollowedByIff | src/app/page.tsx:56-62 | `(?=\s*c)` holds exactly when only white space stands between the position and a `c` |
| CallPatterns.IdentAt | src/app/page.tsx:55-64 | An identifier match starts at a word boundary with an allowed first character |
| CallPatterns.CallAt | src/app/page.tsx:55-58 | A call name starts with a lower-case letter, `_` or `$` |
| CallPatterns.PropertyAt | src/app/page.tsx:61-64 | A property key starts with a letter of either case, `_` or `$` |
| CallPatterns.IdentAtSpec | src/app/page.tsx:55-64 | An identifier of length `n` is wrapped exactly when it starts at a boundary with an allowed first character, is a maximal identifier run, and only white space separates it from `(` (calls) or `:` (keys) |
| Passes.MatchAt | src/app/page.tsx:19-64 | Every pass's match lies inside the text |
| Passes.RunKeepsLineFeed | src/app/page.tsx:19-64 | No pass adds or removes a line feed |
| Highlight.HighlightLineKeepsLineFeed | src/app/page.tsx:11-66 | Highlighting a line neither adds nor removes a line feed |
| Highlight.HighlightKeepsLines | src/app/page.tsx:9-68 | The output has as many lines and line feeds as the input, and output line `k` is the highlighting of input line `k` alone |
| Highlight.CommentLine | src/app/page.tsx:19-22 | With its first comment at `p`, a line becomes its escaped prefix, one `hl-cmt` span over the rest of the line, and nothing more: no later pass runs |
| Highlight.NoCommentLine | src/app/page.tsx:19-22 | A line without a comment goes through all later passes, unless its escaped text already holds the marker |
| Highlight.CommentSpanHasMarker | src/app/page.tsx:19-22 | A line that received a comment span contains the marker the early return looks for |
| Highlight.MarkerLineIsOnlyEscaped | src/app/page.tsx:22 | A line without `/` that spells `class="hl-cmt"` itself is only escaped |
| Vectors.WholeKeywordVector | src/app/page.tsx:37-40 | `typeof` is wrapped as a whole word |
| Vectors.KeywordPrefixVectors | src/app/page.tsx:37-40 | Neither `constValue` nor `typeofx` holds a keyword match |
| Vectors.IntegerVectors | src/app/page.tsx:49-52 | `42` and `1_000` are wrapped whole |
| Vectors.FractionVector | src/app/page.tsx:49-52 | `3.14` is wrapped whole |
| Vectors.GluedDigitVectors | src/app/page.tsx:49-52 | In `x1` and `1x` no number is wrapped |
| Vectors.HexVector | src/app/page.tsx:49-52 | In `0x8004` neither `0` nor `8004` is wrapped |
| Vectors.GenericTypeVector | src/app/page.tsx:43-46 | In `Map&lt;K, V&gt;` none of `Map`, `K`, `V` is wrapped |
| Vectors.PromiseVoidVector | src/app/page.tsx:37-46 | `Promise&lt;void&gt;` blocks `Promise` on its own; after the keyword pass wraps `void`, `Promise` is a type name |
| Vectors.CallVector | src/app/page.tsx:55-58 | `fetch (x)` wraps `fetch` as a call |
| Vectors.CapitalCallVector | src/app/page.tsx:55-58 | `Foo(x)` holds no call |
| Vectors.PropertyVectors | src/app/page.tsx:61-64 | On the bare text, the key pattern matches `name` in `name: 1` and `Name` in `Name :` |
| Vectors.TypeNameTakesCapitalKey | src/app/page.tsx:43-64 | In a line, the type-name pass wraps `Name` in `Name :` first, and the key pass then finds no key anywhere in its output |
| Vectors.CapitalKeyVector | src/app/page.tsx:43-64 | The type-name pass leaves `PRIVATE_KEY: 1` unchanged, and the key pattern then matches the whole key |
| Vectors.DottedPropertyVector | src/app/page.tsx:61-64 | In `a.b: 1` the `a` is no key |
| Vectors.QuotedVectors | src/app/page.tsx:31-34 | A backslash-escaped quote does not close a string; an unclosed string is not matched |
| Vectors.TemplateVector | src/app/page.tsx:25-28 | A backslash does not keep a backtick from closing a template |
| Vectors.StringPassRewrapsClass | src/app/page.tsx:27-33 | On a template span, the string pass wraps the `"hl-str"` attribute value first |
| Vectors.KeywordPassSplitsTag | src/app/page.tsx:37-39 | On any span, the keyword pass wraps the `class` of its opening tag first |
| Vectors.CodeBeforeCommentVector | src/app/page.tsx:19-22 | `const x = 5; // note` gets one comment span and nothing else |
| Vectors.QuotedUrlLineIsComment | src/app/page.tsx:811 | The quoted URL line of a snippet becomes a comment from its `//` on |

## Left out

- The `CodeBlock` component is not modelled: its copy button, clipboard, timer and React state (src/app/page.tsx:77-84). The same goes for `code.trim()` and rendering with `dangerouslySetInnerHTML` (src/app/page.tsx:120). These are UI concerns, and the highlighter receives its argument as given.
- Scroll reveal, navigation, the page content and src/app/layout.tsx are not part of this model. They are DOM I/O and static markup with no logic.
- The output is not claimed to be well-formed HTML, and it is not. The keyword pass splits the `class` attribute of earlier spans (`Vectors.KeywordPassSplitsTag`).
- No general regular-expression engine is modelled. Each of the eight patterns is a hand-written matcher, and its module comment explains why backtracking cannot choose a different match.
- A Dafny `char` is a Unicode scalar value, while a JavaScript string is a sequence of UTF-16 code units. A character outside the Basic Multilingual Plane is one `char` here and two units in JavaScript. Without the `u` flag, each of its units is matched by `.`, `[^…]` and no other class used, just as the model matches the whole character, so the output is the same. A lone surrogate cannot be represented in the model at all, so strings holding one are not modelled.
- The number pass is characterised by `NumberAtSound` and `NumberAtLongest` (the match is the longest valid numeral). There is no separate iff lemma, because the longest valid numeral is unique by definition.
- Most vectors (`IntegerVectors` through `TemplateVector`) state what one matcher finds at one position, not what a pass outputs. A few follow a line through one or two whole passes (`PromiseVoidVector`, `TypeNameTakesCapitalKey`, `CapitalKeyVector`), and two state only the first match of a pass (`StringPassRewrapsClass`, `KeywordPassSplitsTag`). Only the comment lines go through `HighlightLine` whole. Running all eight passes on a concrete line unfolds each matcher at every position, which costs more proof effort than it reveals.
