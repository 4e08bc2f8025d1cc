/**
  `System.IO.StringReader.ReadLine` called until it returns null: a line ends at
  `\n`, at `\r`, or at `\r\n` taken as one terminator, and text after the last
  terminator, if any, is one more line. An empty string has no lines.
*/
module StringReader {
  import opened Text

  /** The position of the first line break, or the length when there is none. */
  function LineEnd(s: string): (n: nat)
    ensures n <= |s|
    ensures HasNoLineBreak(s[..n])
    ensures n < |s| ==> IsLineBreak(s[n])
  {
    if |s| == 0 || IsLineBreak(s[0]) then 0
    else
      var n := 1 + LineEnd(s[1..]);
      assert s[..n] == [s[0]] + s[1..][..n - 1];
      n
  }

  /** What follows the first line and its terminator. */
  function AfterLine(s: string): (rest: string)
    requires s != ""
    ensures |rest| < |s|
  {
    var n := LineEnd(s);
    if n == |s| then ""
    else if s[n] == '\r' && n + 1 < |s| && s[n + 1] == '\n' then s[n + 2..]
    else s[n + 1..]
  }

  function ReadLines(s: string): (lines: seq<string>)
    ensures lines == [] <==> s == ""
    ensures forall i :: 0 <= i < |lines| ==> HasNoLineBreak(lines[i])
    decreases |s|
  {
    if s == "" then []
    else [s[..LineEnd(s)]] + ReadLines(AfterLine(s))
  }

  /** The three terminators `ReadLine` recognises. */
  predicate IsNewLine(nl: string) {
    nl == "\n" || nl == "\r\n" || nl == "\r"
  }

  lemma {:induction false} LineEndOfLine(x: string, rest: string)
    requires HasNoLineBreak(x)
    requires |rest| > 0 ==> IsLineBreak(rest[0])
    ensures LineEnd(x + rest) == |x|
    decreases |x|
  {
    var s := x + rest;
    if |x| == 0 {
      assert s == rest;
    } else {
      assert s[0] == x[0] && !IsLineBreak(x[0]);
      assert s[1..] == x[1..] + rest;
      assert HasNoLineBreak(x[1..]) by {
        forall i | 0 <= i < |x| - 1
          ensures !IsLineBreak(x[1..][i])
        {
          assert x[1..][i] == x[i + 1];
        }
      }
      LineEndOfLine(x[1..], rest);
    }
  }

  /** The first line of `x + nl + rest` is `x`, and `rest` follows it. */
  lemma FirstLineOf(x: string, nl: string, rest: string)
    requires HasNoLineBreak(x) && IsNewLine(nl)
    requires nl == "\r" ==> !(|rest| > 0 && rest[0] == '\n')
    ensures var s := x + nl + rest;
      s != "" && s[..LineEnd(s)] == x && AfterLine(s) == rest
  {
    var s := x + nl + rest;
    assert s == x + (nl + rest);
    LineEndOfLine(x, nl + rest);
    assert s[..|x|] == x;
    assert s[|x|] == nl[0];
    if nl == "\r\n" {
      assert s[|x| + 1] == '\n';
      assert s[|x| + 2..] == rest;
    } else {
      assert s[|x| + 1..] == rest;
    }
  }

  /**
    A line followed by a terminator reads as that line, then the rest; the one
    exception, `\r` directly before `\n`, is excluded.
  */
  lemma ReadLinesCons(x: string, nl: string, rest: string)
    requires HasNoLineBreak(x) && IsNewLine(nl)
    requires nl == "\r" ==> !(|rest| > 0 && rest[0] == '\n')
    ensures ReadLines(x + nl + rest) == [x] + ReadLines(rest)
  {
    FirstLineOf(x, nl, rest);
  }

  /** Text without a terminator is one line, unless it is empty. */
  lemma ReadLinesLast(x: string)
    requires HasNoLineBreak(x) && x != ""
    ensures ReadLines(x) == [x]
  {
    LineEndOfLine(x, "");
    assert x + "" == x;
  }

  /** Every line with `suffix` appended, except the last. */
  function SuffixAllButLast(xs: seq<string>, suffix: string): (ys: seq<string>)
    ensures |ys| == |xs|
    ensures forall i :: 0 <= i < |xs| ==> ys[i] == if i < |xs| - 1 then xs[i] + suffix else xs[i]
  {
    seq(|xs|, i requires 0 <= i < |xs| => if i < |xs| - 1 then xs[i] + suffix else xs[i])
  }

  /**
    Lines joined with `sep` followed by a terminator read back as the lines, each but
    the last carrying `sep`, provided the last line is not empty.
  */
  lemma {:induction false} ReadJoined(xs: seq<string>, sep: string, nl: string)
    requires |xs| > 0 && xs[|xs| - 1] != ""
    requires forall i :: 0 <= i < |xs| ==> HasNoLineBreak(xs[i])
    requires HasNoLineBreak(sep) && IsNewLine(nl)
    ensures ReadLines(Join(xs, sep + nl)) == SuffixAllButLast(xs, sep)
    decreases |xs|
  {
    if |xs| == 1 {
      ReadLinesLast(xs[0]);
    } else {
      var rest := Join(xs[1..], sep + nl);
      ReadJoined(xs[1..], sep, nl);
      NoLineBreakAppend(xs[0], sep);
      RestStart(xs[1..], sep, nl);
      JoinCons(xs, sep, nl);
      ReadLinesCons(xs[0] + sep, nl, rest);
      SuffixCons(xs, sep);
    }
  }

  lemma JoinCons(xs: seq<string>, sep: string, nl: string)
    requires |xs| > 1
    ensures Join(xs, sep + nl) == (xs[0] + sep) + nl + Join(xs[1..], sep + nl)
  {
  }

  lemma NoLineBreakAppend(a: string, b: string)
    requires HasNoLineBreak(a) && HasNoLineBreak(b)
    ensures HasNoLineBreak(a + b)
  {
  }

  lemma SuffixCons(xs: seq<string>, suffix: string)
    requires |xs| > 1
    ensures SuffixAllButLast(xs, suffix) == [xs[0] + suffix] + SuffixAllButLast(xs[1..], suffix)
  {
  }

  /** What follows the first terminator of a join never starts with a `\n` a lone `\r` would swallow. */
  lemma RestStart(xs: seq<string>, sep: string, nl: string)
    requires |xs| > 0 && xs[|xs| - 1] != ""
    requires forall i :: 0 <= i < |xs| ==> HasNoLineBreak(xs[i])
    requires HasNoLineBreak(sep) && IsNewLine(nl)
    ensures nl == "\r" ==> !(|Join(xs, sep + nl)| > 0 && Join(xs, sep + nl)[0] == '\n')
  {
    if |xs| == 1 {
      assert !IsLineBreak(xs[0][0]);
    } else {
      JoinFirst(xs, sep, nl);
    }
  }

  /** A join whose first item has no line break starts with `\n` only when the terminator does. */
  lemma JoinFirst(xs: seq<string>, sep: string, nl: string)
    requires |xs| > 1 && HasNoLineBreak(xs[0])
    requires HasNoLineBreak(sep) && IsNewLine(nl)
    ensures Join(xs, sep + nl) != ""
    ensures nl == "\r" ==> Join(xs, sep + nl)[0] != '\n'
  {
    var tail := Join(xs[1..], sep + nl);
    var j := Join(xs, sep + nl);
    assert j == xs[0] + (sep + nl) + tail;
    if xs[0] != "" {
      assert j[0] == xs[0][0];
    } else if sep != "" {
      assert j[0] == sep[0];
    } else {
      assert j[0] == nl[0];
    }
  }
}
