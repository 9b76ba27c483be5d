/**
 * The eight wrap passes of the highlighter (src/app/page.tsx:19-64). Each is
 * `l = l.replace(/(…)/g, '<span class="hl-X">$1</span>')`; in every pattern
 * the group is the whole match, so a pass surrounds each match with an
 * opening and a closing tag. A global replace with a pattern whose matches
 * are never empty tries each position from left to right: at a match it
 * wraps it and continues after it, otherwise it copies the character.
 * Look-behinds and `\b` see the whole pass input, earlier matches included.
 */
module Passes {
  import opened Chars
  import opened CommentPattern
  import opened LiteralPatterns
  import opened WordPatterns
  import opened NumberPattern
  import opened CallPatterns
  import opened Scan

  /** The passes, in the order the highlighter runs them. */
  datatype Pass = Comment | Template | Quoted | Keyword | TypeName | Number | Call | Property

  /** The class each pass puts on its spans. */
  function ClassName(pass: Pass): string {
    match pass
    case Comment => "hl-cmt"
    case Template => "hl-str"
    case Quoted => "hl-str"
    case Keyword => "hl-kw"
    case TypeName => "hl-cls"
    case Number => "hl-num"
    case Call => "hl-fn"
    case Property => "hl-prop"
  }

  /** Length of the match of `pass`'s pattern at `p`, 0 when there is none. */
  function MatchAt(pass: Pass, s: string, p: nat): (n: nat)
    ensures n > 0 ==> p + n <= |s|
  {
    match pass
    case Comment => CommentAt(s, p)
    case Template => TemplateAt(s, p)
    case Quoted => QuotedAt(s, p)
    case Keyword => KeywordAt(s, p)
    case TypeName => TypeNameAt(s, p)
    case Number => NumberAt(s, p)
    case Call => CallAt(s, p)
    case Property => PropertyAt(s, p)
  }

  /** The pattern of `pass` as a matcher for the scanner. */
  function MatcherOf(pass: Pass): Matcher {
    (s: string, p: nat) => MatchAt(pass, s, p)
  }

  /** One pass over a line: `l.replace(pattern, '<span class="hl-X">$1</span>')`. */
  function Run(pass: Pass, s: string): string {
    Apply(ClassName(pass), MatcherOf(pass), s)
  }


  /**
   * No pass adds or removes a line feed: its tags hold none, and it copies
   * the rest of the line.
   */
  lemma RunKeepsLineFeed(pass: Pass, s: string)
    ensures ('\n' in Run(pass, s)) <==> ('\n' in s)
  {
    ApplyKeepsChar(ClassName(pass), MatcherOf(pass), s, '\n');
  }
}
