/**
 * Greedy character-class runs, the `[…]*` parts of the highlighter's
 * regular expressions. A greedy star over a class always stops at the first
 * character outside the class.
 */
module Runs {
  import opened Chars

  datatype CharClass =
    | Alnum              // [a-zA-Z0-9]
    | DigitOrUnderscore  // [\d_]
    | Digit              // \d
    | Ident              // [a-zA-Z0-9_$]
    | Space              // \s

  predicate InClass(c: char, cls: CharClass) {
    match cls
    case Alnum => IsAlnum(c)
    case DigitOrUnderscore => IsDigit(c) || c == '_'
    case Digit => IsDigit(c)
    case Ident => IsIdentChar(c)
    case Space => IsSpace(c)
  }

  /** End of the longest run of `cls` characters that starts at `k`. */
  function RunEnd(s: string, k: nat, cls: CharClass): (e: nat)
    requires k <= |s|
    ensures k <= e <= |s|
    ensures forall j | k <= j < e :: InClass(s[j], cls)
    ensures e == |s| || !InClass(s[e], cls)
    decreases |s| - k
  {
    if k == |s| || !InClass(s[k], cls) then k else RunEnd(s, k + 1, cls)
  }

  /** The run end is the only end at which a run of `cls` characters can stop. */
  lemma RunEndUnique(s: string, k: nat, cls: CharClass, e: nat)
    requires k <= e <= |s|
    requires forall j | k <= j < e :: InClass(s[j], cls)
    requires e == |s| || !InClass(s[e], cls)
    ensures RunEnd(s, k, cls) == e
  {
  }
}
