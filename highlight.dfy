/**
 * `highlight(raw)` (src/app/page.tsx:8-69): split the source text on line
 * feeds, turn each line into HTML on its own, and join the results with
 * line feeds again.
 */
module Highlight {
  import opened Chars
  import opened HtmlEscape
  import opened Lines
  import opened CommentPattern
  import opened Scan
  import opened Passes

  /** The text whose presence after the comment pass ends the work on a line. */
  const CommentMarker: string := "class=\"hl-cmt\""

  /** The seven passes that follow the comment pass, in source order. */
  function LaterPasses(l: string): string {
    Run(Property, Run(Call, Run(Number, Run(TypeName, Run(Keyword, Run(Quoted, Run(Template, l)))))))
  }

  /** One line: escape, wrap a comment, and stop there if the line now holds a comment span. */
  function HighlightLine(line: string): string {
    var l := Run(Comment, Escape(line));
    if Contains(l, CommentMarker) then l else LaterPasses(l)
  }

  function Highlight(raw: string): string {
    var lines := Split(raw);
    Join(seq(|lines|, k requires 0 <= k < |lines| => HighlightLine(lines[k])))
  }

  /** Highlighting a line neither adds nor removes a line feed. */
  lemma HighlightLineKeepsLineFeed(line: string)
    ensures ('\n' in HighlightLine(line)) <==> ('\n' in line)
  {
    EscapeKeeps(line, '\n');
    var l := Run(Comment, Escape(line));
    RunKeepsLineFeed(Comment, Escape(line));
    var l1 := Run(Template, l);
    var l2 := Run(Quoted, l1);
    var l3 := Run(Keyword, l2);
    var l4 := Run(TypeName, l3);
    var l5 := Run(Number, l4);
    var l6 := Run(Call, l5);
    RunKeepsLineFeed(Template, l);
    RunKeepsLineFeed(Quoted, l1);
    RunKeepsLineFeed(Keyword, l2);
    RunKeepsLineFeed(TypeName, l3);
    RunKeepsLineFeed(Number, l4);
    RunKeepsLineFeed(Call, l5);
    RunKeepsLineFeed(Property, l6);
  }

  /**
   * The output has exactly as many lines as the input, and its line `k` is
   * the highlighting of input line `k` alone.
   */
  lemma HighlightKeepsLines(raw: string)
    ensures |Split(Highlight(raw))| == |Split(raw)|
    ensures forall k | 0 <= k < |Split(raw)| :: Split(Highlight(raw))[k] == HighlightLine(Split(raw)[k])
    ensures CountLineFeeds(Highlight(raw)) == CountLineFeeds(raw)
  {
    var lines := Split(raw);
    var out := seq(|lines|, k requires 0 <= k < |lines| => HighlightLine(lines[k]));
    forall k | 0 <= k < |out|
      ensures '\n' !in out[k]
    {
      HighlightLineKeepsLineFeed(lines[k]);
    }
    SplitJoin(out);
  }

  /**
   * A line whose escaped text has its first comment start at `p` comes out
   * as the untouched prefix, one comment span around the rest of the line,
   * and nothing more: no later pass runs.
   */
  lemma CommentLine(line: string, p: nat)
    requires CommentAt(Escape(line), p) > 0
    requires forall k | 0 <= k < p :: CommentAt(Escape(line), k) == 0
    ensures p < |Escape(line)|
    ensures HighlightLine(line) == Escape(line)[..p] + OpenTag("hl-cmt") + Escape(line)[p..] + CloseTag
  {
    var e := Escape(line);
    ApplyLastMatch(ClassName(Comment), MatcherOf(Comment), e, p);
    CommentSpanHasMarker(e[..p], e[p..]);
  }

  lemma CommentSpanHasMarker(x: string, y: string)
    ensures Contains(x + OpenTag("hl-cmt") + y + CloseTag, CommentMarker)
  {
    assert x + OpenTag("hl-cmt") + y + CloseTag == (x + "<span ") + CommentMarker + (">" + y + CloseTag);
    ContainsInfix(x + "<span ", CommentMarker, ">" + y + CloseTag);
  }

  /**
   * A line without any comment start goes through the comment pass
   * unchanged; all later passes run unless its escaped text already holds
   * the comment marker.
   */
  lemma NoCommentLine(line: string)
    requires forall k | 0 <= k < |Escape(line)| :: CommentAt(Escape(line), k) == 0
    ensures HighlightLine(line) ==
      if Contains(Escape(line), CommentMarker) then Escape(line) else LaterPasses(Escape(line))
  {
    ApplyNoMatch(ClassName(Comment), MatcherOf(Comment), Escape(line));
  }

  /**
   * A line with no `/` that spells out the comment marker itself, inside a
   * string say, is only escaped: the check that ends the work on comment
   * lines looks for the marker text, not for the span the comment pass adds.
   */
  lemma MarkerLineIsOnlyEscaped(line: string)
    requires '/' !in line && Contains(line, CommentMarker)
    ensures HighlightLine(line) == Escape(line)
  {
    EscapeKeeps(line, '/');
    NoSlashNoComment(Escape(line));
    MarkerIsPlain();
    EscapeKeepsPlainText(line, CommentMarker);
    NoCommentLine(line);
  }

  lemma MarkerIsPlain()
    ensures '&' !in CommentMarker && '<' !in CommentMarker && '>' !in CommentMarker
  {
  }
}
