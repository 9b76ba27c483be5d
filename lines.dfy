/**
 * `raw.split("\n")` and `lines.join("\n")` (src/app/page.tsx:9, 68): the
 * highlighter handles every line on its own and glues the results back
 * together with line feeds.
 */
module Lines {

  /** Number of line feeds in `s`. */
  function CountLineFeeds(s: string): nat
    decreases |s|
  {
    if s == [] then 0 else (if s[0] == '\n' then 1 else 0) + CountLineFeeds(s[1..])
  }

  /**
   * `s.split("\n")`: one piece more than there are line feeds, none of them
   * holding a line feed; the empty string gives one empty piece.
   */
  function Split(s: string): (r: seq<string>)
    ensures |r| == CountLineFeeds(s) + 1
    ensures forall k | 0 <= k < |r| :: '\n' !in r[k]
    decreases |s|
  {
    if s == [] then [[]]
    else
      var rest := Split(s[1..]);
      if s[0] == '\n' then [[]] + rest
      else [[s[0]] + rest[0]] + rest[1..]
  }

  /** `ls.join("\n")` */
  function Join(ls: seq<string>): string
    decreases |ls|
  {
    if ls == [] then []
    else if |ls| == 1 then ls[0]
    else ls[0] + "\n" + Join(ls[1..])
  }

  lemma JoinExtendsFirst(c: char, first: string, more: seq<string>)
    ensures Join([[c] + first] + more) == [c] + Join([first] + more)
  {
    var ms, ls := [[c] + first] + more, [first] + more;
    assert ms[1..] == more == ls[1..];
    if more != [] {
      assert Join(ms) == ([c] + first) + "\n" + Join(more);
      assert Join(ls) == first + "\n" + Join(more);
    }
  }

  /** Joining the pieces of a split gives the string back. */
  lemma {:induction false} JoinSplit(s: string)
    ensures Join(Split(s)) == s
    decreases |s|
  {
    if s != [] {
      var rest := Split(s[1..]);
      JoinSplit(s[1..]);
      if s[0] == '\n' {
        assert ([[]] + rest)[1..] == rest;
        assert s == "\n" + s[1..];
      } else {
        JoinExtendsFirst(s[0], rest[0], rest[1..]);
        assert [rest[0]] + rest[1..] == rest;
        assert s == [s[0]] + s[1..];
      }
    }
  }

  lemma {:induction false} SplitPrefix(a: string, t: string)
    requires '\n' !in a
    ensures Split(a + t) == [a + Split(t)[0]] + Split(t)[1..]
    decreases |a|
  {
    if a == [] {
      assert a + t == t;
      assert a + Split(t)[0] == Split(t)[0];
      assert Split(t) == [Split(t)[0]] + Split(t)[1..];
    } else {
      var s := a + t;
      assert s[1..] == a[1..] + t;
      SplitPrefix(a[1..], t);
      assert [s[0]] + (a[1..] + Split(t)[0]) == a + Split(t)[0];
    }
  }

  /** Splitting a join of line-feed-free pieces gives the pieces back. */
  lemma {:induction false} SplitJoin(ls: seq<string>)
    requires |ls| >= 1
    requires forall k | 0 <= k < |ls| :: '\n' !in ls[k]
    ensures Split(Join(ls)) == ls
    decreases |ls|
  {
    if |ls| == 1 {
      SplitPrefix(ls[0], []);
      assert ls[0] + [] == ls[0];
    } else {
      var t := Join(ls[1..]);
      SplitJoin(ls[1..]);
      assert Join(ls) == ls[0] + ("\n" + t);
      SplitPrefix(ls[0], "\n" + t);
      assert ("\n" + t)[1..] == t;
      assert Split("\n" + t) == [[]] + Split(t);
      assert ls[0] + [] == ls[0];
      assert ls == [ls[0]] + ls[1..];
    }
  }
}
