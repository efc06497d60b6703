/** The command-line formatter: joining listing lines into one text. */
module Formatter {
  import opened Text

  /** Total length of the lines. */
  function TotalLength(lines: seq<string>): nat {
    if lines == [] then 0 else |lines[0]| + TotalLength(lines[1..])
  }

  /** The lines separated by single line feeds, with no trailing line feed. */
  function JoinLines(lines: seq<string>): (out: string)
    ensures |lines| == 0 ==> out == ""
    ensures |lines| == 1 ==> out == lines[0]
    ensures |lines| >= 1 ==> |out| == TotalLength(lines) + |lines| - 1
  {
    if |lines| == 0 then ""
    else if |lines| == 1 then lines[0]
    else lines[0] + "\n" + JoinLines(lines[1..])
  }

  /** The loop of Formatter::joinLines: append each line, and a line feed after
      every line but the last. */
  method JoinLinesLoop(lines: seq<string>) returns (out: string)
    ensures out == JoinLines(lines)
  {
    out := "";
    var i := 0;
    while i < |lines|
      invariant 0 <= i <= |lines|
      invariant i == 0 ==> out == ""
      invariant 0 < i < |lines| ==> out == JoinLines(lines[..i]) + "\n"
      invariant i == |lines| > 0 ==> out == JoinLines(lines[..i])
    {
      if i > 0 {
        JoinAppend(lines[..i], lines[i]);
        assert lines[..i + 1] == lines[..i] + [lines[i]];
      } else {
        assert lines[..1] == [lines[0]];
      }
      out := out + lines[i];
      if i + 1 < |lines| {
        out := out + "\n";
      }
      i := i + 1;
    }
    assert lines[..|lines|] == lines;
  }

  /** Adding a line to a nonempty listing adds one separator and the line. */
  lemma {:induction false} JoinAppend(lines: seq<string>, last: string)
    requires |lines| >= 1
    ensures JoinLines(lines + [last]) == JoinLines(lines) + "\n" + last
    decreases |lines|
  {
    if |lines| == 1 {
      assert (lines + [last])[1..] == [last];
    } else {
      assert (lines + [last])[1..] == lines[1..] + [last];
      JoinAppend(lines[1..], last);
    }
  }

  /** Splitting the joined text at its line feeds gives the lines back, when
      there is at least one line and no line holds a line feed. */
  lemma {:induction false} SplitJoin(lines: seq<string>)
    requires |lines| >= 1
    requires forall k | 0 <= k < |lines| :: '\n' !in lines[k]
    ensures SplitLines(JoinLines(lines)) == lines
    decreases |lines|
  {
    if |lines| > 1 {
      var tail := lines[1..];
      assert '\n' !in lines[0];
      assert JoinLines(lines) == lines[0] + "\n" + JoinLines(tail);
      forall k | 0 <= k < |tail| ensures '\n' !in tail[k] {
        assert tail[k] == lines[k + 1];
      }
      SplitFirst(lines[0], JoinLines(tail));
      SplitJoin(tail);
    }
  }

  /** A line-feed-free first piece is split off at the first line feed. */
  lemma SplitFirst(x: string, rest: string)
    requires '\n' !in x
    ensures SplitLines(x + "\n" + rest) == [x] + SplitLines(rest)
  {
    var s := x + "\n" + rest;
    assert s[|x|] == '\n';
    assert s[..|x|] == x;
    assert IndexOf(s, '\n') == |x|;
    assert s[|x| + 1..] == rest;
  }

  /** Joining the pieces of a text at its line feeds restores the text. */
  lemma {:induction false} JoinSplit(s: string)
    ensures JoinLines(SplitLines(s)) == s
    decreases |s|
  {
    if '\n' in s {
      var i := IndexOf(s, '\n');
      var rest := SplitLines(s[i + 1..]);
      JoinSplit(s[i + 1..]);
      assert SplitLines(s) == [s[..i]] + rest;
      assert ([s[..i]] + rest)[1..] == rest;
      assert s == s[..i] + "\n" + s[i + 1..];
    }
  }
}
