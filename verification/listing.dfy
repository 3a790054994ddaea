/** The text printed on success: `println("Last $commitsNum commits:")` followed by
    `println(commitMessages.joinToString("\n"))`. Each `println` ends its text
    with a line feed. */
module Listing {
  import opened Decimal

  /** A text without a line feed, printed by `println` as exactly one line. */
  predicate IsSingleLine(s: string) {
    '\n' !in s
  }

  /** `joinToString(separator)`: the items in order, the separator between neighbours. */
  function Join(items: seq<string>, separator: string): string {
    if |items| == 0 then ""
    else if |items| == 1 then items[0]
    else Join(items[..|items| - 1], separator) + separator + items[|items| - 1]
  }

  /** The loop of the Kotlin standard library's `joinTo`: append the separator
      before every item except the first, then the item. */
  method JoinToString(items: seq<string>, separator: string) returns (s: string)
    ensures s == Join(items, separator)
  {
    s := "";
    for i := 0 to |items|
      invariant s == Join(items[..i], separator)
    {
      if i > 0 {
        s := s + separator;
      }
      s := s + items[i];
      assert items[..i + 1][..i] == items[..i];
    }
    assert items[..|items|] == items;
  }

  /** The lines of a text: the pieces between line feeds, as `split("\n")` gives them. */
  function SplitLines(s: string): (lines: seq<string>)
    ensures |lines| > 0
  {
    if s == [] then [""]
    else
      var tail := SplitLines(s[1..]);
      if s[0] == '\n' then [""] + tail else [[s[0]] + tail[0]] + tail[1..]
  }

  predicate AllSingleLine(items: seq<string>) {
    forall i :: 0 <= i < |items| ==> IsSingleLine(items[i])
  }

  lemma {:induction false} SplitSingleLine(s: string)
    requires IsSingleLine(s)
    ensures SplitLines(s) == [s]
  {
    if s != [] {
      SplitSingleLine(s[1..]);
      assert [s[0]] + s[1..] == s;
    }
  }

  /** A line feed separates the lines before it from the lines after it. */
  lemma {:induction false} SplitAtLineFeed(a: string, b: string)
    ensures SplitLines(a + "\n" + b) == SplitLines(a) + SplitLines(b)
  {
    if a == [] {
      assert a + "\n" + b == "\n" + b;
      assert ("\n" + b)[1..] == b;
    } else {
      var s := a + "\n" + b;
      assert s[0] == a[0];
      assert s[1..] == a[1..] + "\n" + b;
      SplitAtLineFeed(a[1..], b);
    }
  }

  /** Splitting the joined lines gives the items back, in order, none dropped. */
  lemma {:induction false} SplitJoin(items: seq<string>)
    requires |items| > 0 && AllSingleLine(items)
    ensures SplitLines(Join(items, "\n")) == items
  {
    if |items| == 1 {
      SplitSingleLine(items[0]);
    } else {
      var init := items[..|items| - 1];
      SplitJoin(init);
      SplitAtLineFeed(Join(init, "\n"), items[|items| - 1]);
      SplitSingleLine(items[|items| - 1]);
      assert init + [items[|items| - 1]] == items;
    }
  }

  /** `Join` read from the front: the first item, the separator, then the join of the rest. */
  lemma {:induction false} JoinCons(first: string, rest: seq<string>, separator: string)
    requires |rest| > 0
    ensures Join([first] + rest, separator) == first + separator + Join(rest, separator)
  {
    var items := [first] + rest;
    if |rest| > 1 {
      var init := rest[..|rest| - 1];
      JoinCons(first, init, separator);
      assert items[..|items| - 1] == [first] + init;
      assert items[|items| - 1] == rest[|rest| - 1];
    }
  }

  /** Joining the lines of a text with line feeds gives the text back: together
      with `SplitJoin`, the printed text is fixed by its lines. */
  lemma {:induction false} JoinSplit(s: string)
    ensures Join(SplitLines(s), "\n") == s
  {
    if s != [] {
      var tail := SplitLines(s[1..]);
      JoinSplit(s[1..]);
      if s[0] == '\n' {
        JoinCons("", tail, "\n");
      } else {
        JoinExtendFirst([s[0]], tail, "\n");
      }
      assert [s[0]] + s[1..] == s;
    }
  }

  /** Text put in front of the first item ends up in front of the join. */
  lemma JoinExtendFirst(prefix: string, items: seq<string>, separator: string)
    requires |items| > 0
    ensures Join([prefix + items[0]] + items[1..], separator) == prefix + Join(items, separator)
  {
    if |items| > 1 {
      JoinCons(prefix + items[0], items[1..], separator);
      JoinCons(items[0], items[1..], separator);
      assert [items[0]] + items[1..] == items;
    }
  }

  function Header(limit: int): (h: string)
    ensures IsSingleLine(h)
  {
    var digits := IntToString(limit);
    assert IsSingleLine(digits);
    "Last " + digits + " commits:"
  }

  /** The whole text printed for a list of commit messages. */
  function CommitListing(limit: int, messages: seq<string>): string {
    Header(limit) + "\n" + Join(messages, "\n") + "\n"
  }

  /** The printed text is the header line, then one line per message in the
      order given (a single empty line when there are none), then the final
      line feed. */
  lemma CommitListingLines(limit: int, messages: seq<string>)
    ensures AllSingleLine(messages) ==>
              SplitLines(CommitListing(limit, messages))
              == [Header(limit)] + (if messages == [] then [""] else messages) + [""]
  {
    var h := Header(limit);
    var j := Join(messages, "\n");
    assert CommitListing(limit, messages) == h + "\n" + (j + "\n" + "");
    SplitAtLineFeed(h, j + "\n" + "");
    SplitAtLineFeed(j, "");
    SplitSingleLine(h);
    if messages != [] && AllSingleLine(messages) {
      SplitJoin(messages);
    }
  }
}
