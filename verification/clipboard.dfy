/**
  `SystemTray/ConvertClipboardCommand`: converts every line of the clipboard text with
  the first converter that accepts it, counts the conversions per converter, and
  builds the balloon texts and the new clipboard text. Reading and writing the
  clipboard and showing the balloon are the caller's business: `Execute` returns
  what would be shown and written.
*/
module ConvertClipboardCommand {
  import opened Wrappers
  import opened Text
  import opened Sorting
  import opened Dispatch
  import opened ConverterModel
  import opened StringReader

  /** `SplitLines`: null and the empty text have no lines. */
  function SplitLines(source: Option<string>): (lines: seq<string>)
    ensures source.None? ==> lines == []
    ensures source.Some? ==> (lines == [] <==> source.value == "")
    ensures forall i :: 0 <= i < |lines| ==> HasNoLineBreak(lines[i])
  {
    match source
    case None => []
    case Some(s) => ReadLines(s)
  }

  /** The converter at position `k` is the first to accept `line`. */
  predicate Answers(converters: seq<Converter>, line: string, strictPadding: bool, k: nat) {
    && k < |converters|
    && converters[k].TryParseInput(line, strictPadding).Some?
    && forall j :: 0 <= j < k ==> converters[j].TryParseInput(line, strictPadding).None?
  }

  /** One line of the loop body: the first answer, or the line itself when nobody answers. */
  function ConvertLine(converters: seq<Converter>, line: string, strictPadding: bool): (out: string)
    ensures (forall k :: 0 <= k < |converters| ==> converters[k].TryParseInput(line, strictPadding).None?) ==> out == line
    ensures forall k: nat :: Answers(converters, line, strictPadding, k) ==>
      out == converters[k].TryParseInput(line, strictPadding).value
    ensures HasNoLineBreak(line) ==> HasNoLineBreak(out)
  {
    match FirstMatch(converters, line, strictPadding)
    case None => line
    case Some(m) =>
      FirstMatchUnique(converters, line, strictPadding);
      m.output
  }

  /** The converted lines: one per source line, in order. */
  function ConvertAll(converters: seq<Converter>, lines: seq<string>, strictPadding: bool): (out: seq<string>)
    ensures |out| == |lines|
    ensures forall i :: 0 <= i < |lines| ==> out[i] == ConvertLine(converters, lines[i], strictPadding)
  {
    seq(|lines|, i requires 0 <= i < |lines| => ConvertLine(converters, lines[i], strictPadding))
  }

  /** Which converter answered each line: the index of its first match, if any. */
  function Picks(converters: seq<Converter>, lines: seq<string>, strictPadding: bool): (ps: seq<Option<nat>>)
    ensures |ps| == |lines|
    ensures forall i :: 0 <= i < |lines| ==>
      ps[i] == (var m := FirstMatch(converters, lines[i], strictPadding); if m.Some? then Some(m.value.index) else None)
  {
    seq(|lines|, i requires 0 <= i < |lines| =>
      var m := FirstMatch(converters, lines[i], strictPadding); if m.Some? then Some(m.value.index) else None)
  }

  /** How often each of the indices below `n` was picked, counted line by line as the loop does. */
  function Count(n: nat, picks: seq<Option<nat>>): (counts: seq<nat>)
    ensures |counts| == n
    decreases |picks|
  {
    if |picks| == 0 then seq(n, _ => 0)
    else
      var counts := Count(n, picks[..|picks| - 1]);
      match picks[|picks| - 1]
      case None => counts
      case Some(k) => if k < n then counts[k := counts[k] + 1] else counts
  }

  /**
    `usageCountByConverter` after the loop, as a sequence parallel to the converters:
    each line adds one to the count of the converter that answered it, if any.
  */
  function Tally(converters: seq<Converter>, lines: seq<string>, strictPadding: bool): (counts: seq<nat>)
    ensures |counts| == |converters|
  {
    Count(|converters|, Picks(converters, lines, strictPadding))
  }

  /** The positions where `k` was picked. */
  function PickedAs(picks: seq<Option<nat>>, k: nat): set<nat> {
    set i: nat | i < |picks| && picks[i] == Some(k)
  }

  /** The positions where an index below `n` was picked. */
  function Picked(picks: seq<Option<nat>>, n: nat): set<nat> {
    set i: nat | i < |picks| && picks[i].Some? && picks[i].value < n
  }

  lemma CountEmpty(n: nat, picks: seq<Option<nat>>)
    requires |picks| == 0
    ensures forall k :: 0 <= k < n ==> Count(n, picks)[k] == |PickedAs(picks, k)|
    ensures Sum(Count(n, picks)) == |Picked(picks, n)| == 0
  {
    ZeroSum(n);
    assert Picked(picks, n) == {};
    forall k | 0 <= k < n
      ensures Count(n, picks)[k] == |PickedAs(picks, k)|
    {
      assert PickedAs(picks, k) == {};
    }
  }

  lemma BoundedSetNotContains(s: set<nat>, n: nat)
    requires forall i :: i in s ==> i < n
    ensures n !in s
  {
  }

  /** One more pick adds one to the count of the picked index. */
  lemma CountStepAt(n: nat, picks: seq<Option<nat>>, k: nat)
    requires |picks| > 0 && k < n
    requires Count(n, picks[..|picks| - 1])[k] == |PickedAs(picks[..|picks| - 1], k)|
    ensures Count(n, picks)[k] == |PickedAs(picks, k)|
  {
    PickedAsStep(picks, k);
  }

  lemma PickedAsSnoc(picks: seq<Option<nat>>, k: nat)
    requires |picks| > 0
    ensures var last := |picks| - 1;
      PickedAs(picks, k) == PickedAs(picks[..last], k) + (if picks[last] == Some(k) then {last} else {})
  {
    var last := |picks| - 1;
    var extra: set<nat> := if picks[last] == Some(k) then {last} else {};
    forall i: nat
      ensures i in PickedAs(picks, k) <==> i in PickedAs(picks[..last], k) + extra
    {
      if i < last {
        assert picks[..last][i] == picks[i];
      }
    }
  }

  lemma PickedAsStep(picks: seq<Option<nat>>, k: nat)
    requires |picks| > 0
    ensures var last := |picks| - 1;
      |PickedAs(picks, k)| == |PickedAs(picks[..last], k)| + (if picks[last] == Some(k) then 1 else 0)
  {
    var last := |picks| - 1;
    PickedAsSnoc(picks, k);
    BoundedSetNotContains(PickedAs(picks[..last], k), last);
  }

  /** One more position adds itself to `Picked` exactly when it picks an index below `n`. */
  lemma PickedSnoc(n: nat, picks: seq<Option<nat>>)
    requires |picks| > 0
    ensures var last := |picks| - 1;
      Picked(picks, n)
        == Picked(picks[..last], n) + (if picks[last].Some? && picks[last].value < n then {last} else {})
  {
    var last := |picks| - 1;
    var extra: set<nat> := if picks[last].Some? && picks[last].value < n then {last} else {};
    forall i: nat
      ensures i in Picked(picks, n) <==> i in Picked(picks[..last], n) + extra
    {
      if i < last {
        assert picks[..last][i] == picks[i];
      }
    }
  }

  lemma PickedStep(n: nat, picks: seq<Option<nat>>)
    requires |picks| > 0
    ensures var last := |picks| - 1;
      |Picked(picks, n)| == |Picked(picks[..last], n)| + (if picks[last].Some? && picks[last].value < n then 1 else 0)
  {
    var last := |picks| - 1;
    PickedSnoc(n, picks);
    BoundedSetNotContains(Picked(picks[..last], n), last);
  }

  /** One more pick adds one to the sum of the counts exactly when it picks an index below `n`. */
  lemma CountSumIncrement(n: nat, picks: seq<Option<nat>>)
    requires |picks| > 0
    ensures var last := |picks| - 1;
      Sum(Count(n, picks)) == Sum(Count(n, picks[..last])) + (if picks[last].Some? && picks[last].value < n then 1 else 0)
  {
    var last := |picks| - 1;
    if picks[last].Some? && picks[last].value < n {
      SumIncrement(Count(n, picks[..last]), picks[last].value);
    }
  }

  lemma CountSumStep(n: nat, picks: seq<Option<nat>>)
    requires |picks| > 0
    requires Sum(Count(n, picks[..|picks| - 1])) == |Picked(picks[..|picks| - 1], n)|
    requires |Picked(picks[..|picks| - 1], n)| <= |picks| - 1
    ensures Sum(Count(n, picks)) == |Picked(picks, n)|
    ensures |Picked(picks, n)| <= |picks|
  {
    PickedStep(n, picks);
    CountSumIncrement(n, picks);
  }

  /**
    The counts are, for every index, the number of positions that picked it; they add
    up to the number of positions that picked any index below `n`.
  */
  lemma {:induction false} CountCounts(n: nat, picks: seq<Option<nat>>)
    ensures forall k :: 0 <= k < n ==> Count(n, picks)[k] == |PickedAs(picks, k)|
    ensures Sum(Count(n, picks)) == |Picked(picks, n)|
    ensures |Picked(picks, n)| <= |picks|
    decreases |picks|
  {
    if |picks| == 0 {
      CountEmpty(n, picks);
    } else {
      CountCounts(n, picks[..|picks| - 1]);
      forall k | 0 <= k < n
        ensures Count(n, picks)[k] == |PickedAs(picks, k)|
      {
        CountStepAt(n, picks, k);
      }
      CountSumStep(n, picks);
    }
  }

  /** The positions of the lines the converter at `k` answered. */
  function AnsweredBy(converters: seq<Converter>, lines: seq<string>, strictPadding: bool, k: nat): set<nat> {
    set i: nat | i < |lines| && Answers(converters, lines[i], strictPadding, k)
  }

  /** The positions of the lines some converter answered. */
  function Matched(converters: seq<Converter>, lines: seq<string>, strictPadding: bool): set<nat> {
    set i: nat | i < |lines| && exists k :: 0 <= k < |converters| && converters[k].TryParseInput(lines[i], strictPadding).Some?
  }

  /** The first match answers exactly when `Answers` holds for its index. */
  lemma FirstMatchAnswers(converters: seq<Converter>, line: string, strictPadding: bool, k: nat)
    ensures Answers(converters, line, strictPadding, k) <==>
      FirstMatch(converters, line, strictPadding).Some? && FirstMatch(converters, line, strictPadding).value.index == k
  {
  }

  lemma FirstMatchUnique(converters: seq<Converter>, line: string, strictPadding: bool)
    ensures forall k: nat :: Answers(converters, line, strictPadding, k) ==>
      FirstMatch(converters, line, strictPadding) == Some(Match(k, converters[k].TryParseInput(line, strictPadding).value))
  {
    forall k: nat | Answers(converters, line, strictPadding, k)
      ensures FirstMatch(converters, line, strictPadding) == Some(Match(k, converters[k].TryParseInput(line, strictPadding).value))
    {
      FirstMatchAnswers(converters, line, strictPadding, k);
    }
  }

  /** The lines the converter at `k` answered are the positions that picked `k`. */
  lemma AnsweredByPicks(converters: seq<Converter>, lines: seq<string>, strictPadding: bool, k: nat)
    ensures AnsweredBy(converters, lines, strictPadding, k) == PickedAs(Picks(converters, lines, strictPadding), k)
  {
    var ps := Picks(converters, lines, strictPadding);
    forall i: nat | i < |lines|
      ensures Answers(converters, lines[i], strictPadding, k) <==> ps[i] == Some(k)
    {
      FirstMatchAnswers(converters, lines[i], strictPadding, k);
    }
  }

  /** The matched lines are the positions that picked some converter. */
  lemma MatchedPicks(converters: seq<Converter>, lines: seq<string>, strictPadding: bool)
    ensures Matched(converters, lines, strictPadding) == Picked(Picks(converters, lines, strictPadding), |converters|)
  {
  }

  /**
    The tally counts, for every converter, the lines it answered; the counts add up
    to the number of matched lines, which is at most the number of lines.
  */
  lemma TallyCounts(converters: seq<Converter>, lines: seq<string>, strictPadding: bool)
    ensures forall k :: 0 <= k < |converters| ==>
      Tally(converters, lines, strictPadding)[k] == |AnsweredBy(converters, lines, strictPadding, k)|
    ensures Sum(Tally(converters, lines, strictPadding)) == |Matched(converters, lines, strictPadding)|
    ensures |Matched(converters, lines, strictPadding)| <= |lines|
  {
    var ps := Picks(converters, lines, strictPadding);
    CountCounts(|converters|, ps);
    MatchedPicks(converters, lines, strictPadding);
    forall k | 0 <= k < |converters|
      ensures Tally(converters, lines, strictPadding)[k] == |AnsweredBy(converters, lines, strictPadding, k)|
    {
      AnsweredByPicks(converters, lines, strictPadding, k);
    }
  }

  lemma {:induction false} ZeroSum(n: nat)
    ensures Sum(seq(n, _ => 0)) == 0
  {
    if n > 0 {
      assert seq(n, _ => 0)[1..] == seq(n - 1, _ => 0);
      ZeroSum(n - 1);
    }
  }

  /** The distinct `PreferredSplitter`s of the converters that were used: the `HashSet`. */
  function UsedSplitters(converters: seq<Converter>, counts: seq<nat>): set<string>
    requires |counts| == |converters|
  {
    set k | 0 <= k < |converters| && counts[k] > 0 :: converters[k].PreferredSplitter()
  }

  /** The first used converter's position. */
  function FirstUsed(counts: seq<nat>): (r: Option<nat>)
    ensures r.Some? ==> r.value < |counts| && counts[r.value] > 0
    ensures r.None? ==> forall k :: 0 <= k < |counts| ==> counts[k] == 0
  {
    if |counts| == 0 then None
    else if counts[0] > 0 then Some(0)
    else
      match FirstUsed(counts[1..])
      case None => None
      case Some(k) => Some(k + 1)
  }

  /** A set holding two different elements does not have exactly one. */
  lemma TwoMembers<T>(s: set<T>, x: T, y: T)
    requires x in s && y in s && x != y
    ensures |s| != 1
  {
    var rest := s - {x};
    assert y in rest;
    assert rest != {};
    assert |rest| == |s| - 1;
  }

  /**
    The splitter without its line break: the one splitter all used converters share,
    or nothing when they do not share one.
  */
  function SplitterPrefix(converters: seq<Converter>, counts: seq<nat>): (prefix: string)
    requires |counts| == |converters|
    ensures |UsedSplitters(converters, counts)| == 1 ==> prefix in UsedSplitters(converters, counts)
    ensures |UsedSplitters(converters, counts)| != 1 ==> prefix == ""
  {
    match FirstUsed(counts)
    case None =>
      assert UsedSplitters(converters, counts) == {};
      ""
    case Some(k) =>
      var first := converters[k].PreferredSplitter();
      if forall j :: 0 <= j < |converters| && counts[j] > 0 ==> converters[j].PreferredSplitter() == first then
        assert UsedSplitters(converters, counts) == {first};
        first
      else
        var j :| 0 <= j < |converters| && counts[j] > 0 && converters[j].PreferredSplitter() != first;
        TwoMembers(UsedSplitters(converters, counts), first, converters[j].PreferredSplitter());
        ""
  }

  /** `JoinConvertedLines`: the lines in order with the splitter between neighbours. */
  function JoinConvertedLines(converters: seq<Converter>, counts: seq<nat>, convertedLines: seq<string>, newLine: string): string
    requires |counts| == |converters|
  {
    Join(convertedLines, SplitterPrefix(converters, counts) + newLine)
  }

  /** One row of the statistics: a used converter and its count. */
  datatype Usage = Usage(converter: Converter, count: nat)

  /** The used converters with their counts, in collection order. */
  function Used(converters: seq<Converter>, counts: seq<nat>): (us: seq<Usage>)
    requires |counts| == |converters|
    ensures |us| <= |converters|
    decreases |converters|
  {
    if |converters| == 0 then []
    else
      var n := |converters| - 1;
      Used(converters[..n], counts[..n]) + (if counts[n] > 0 then [Usage(converters[n], counts[n])] else [])
  }

  lemma UsedSnoc(converters: seq<Converter>, counts: seq<nat>)
    requires |counts| == |converters| > 0
    ensures var n := |converters| - 1;
      Used(converters, counts)
        == Used(converters[..n], counts[..n]) + (if counts[n] > 0 then [Usage(converters[n], counts[n])] else [])
  {
  }

  /** Every row of `Used` is some converter with its own positive count. */
  lemma {:induction false} UsedRows(converters: seq<Converter>, counts: seq<nat>)
    requires |counts| == |converters|
    ensures forall i :: 0 <= i < |Used(converters, counts)| ==> Used(converters, counts)[i].count > 0
    ensures forall i :: 0 <= i < |Used(converters, counts)| ==>
      exists k :: 0 <= k < |converters| && Used(converters, counts)[i] == Usage(converters[k], counts[k])
    decreases |converters|
  {
    if |converters| == 0 {
      assert Used(converters, counts) == [];
    } else {
      var n := |converters| - 1;
      var us := Used(converters, counts);
      var pre := Used(converters[..n], counts[..n]);
      UsedRows(converters[..n], counts[..n]);
      UsedSnoc(converters, counts);
      forall i | 0 <= i < |us|
        ensures us[i].count > 0
        ensures exists k :: 0 <= k < |converters| && us[i] == Usage(converters[k], counts[k])
      {
        if i < |pre| {
          assert us[i] == pre[i];
          var k :| 0 <= k < n && pre[i] == Usage(converters[..n][k], counts[..n][k]);
          assert converters[..n][k] == converters[k] && counts[..n][k] == counts[k];
          assert 0 <= k < |converters| && us[i] == Usage(converters[k], counts[k]);
        } else {
          assert 0 <= n < |converters| && us[i] == Usage(converters[n], counts[n]);
        }
      }
    }
  }

  /** Every used converter has its row in `Used`. */
  lemma {:induction false} UsedComplete(converters: seq<Converter>, counts: seq<nat>)
    requires |counts| == |converters|
    ensures forall k :: 0 <= k < |converters| && counts[k] > 0 ==> Usage(converters[k], counts[k]) in Used(converters, counts)
    decreases |converters|
  {
    if |converters| > 0 {
      var n := |converters| - 1;
      var us := Used(converters, counts);
      var pre := Used(converters[..n], counts[..n]);
      UsedComplete(converters[..n], counts[..n]);
      UsedSnoc(converters, counts);
      forall k | 0 <= k < |converters| && counts[k] > 0
        ensures Usage(converters[k], counts[k]) in us
      {
        if k < n {
          assert Usage(converters[..n][k], counts[..n][k]) in pre;
        } else {
          assert us[|us| - 1] == Usage(converters[n], counts[n]);
        }
      }
    }
  }

  /** `Used` has one row per positive count. */
  lemma {:induction false} UsedSize(converters: seq<Converter>, counts: seq<nat>)
    requires |counts| == |converters|
    ensures |Used(converters, counts)| == |PositiveIndices(counts)|
    decreases |converters|
  {
    if |converters| == 0 {
      assert PositiveIndices(counts) == {};
    } else {
      var n := |converters| - 1;
      UsedSize(converters[..n], counts[..n]);
      UsedSnoc(converters, counts);
      PositiveIndicesSnoc(counts);
      BoundedSetNotContains(PositiveIndices(counts[..n]), n);
    }
  }

  function PositiveIndices(counts: seq<nat>): set<nat> {
    set k: nat | k < |counts| && counts[k] > 0
  }

  lemma PositiveIndicesSnoc(counts: seq<nat>)
    requires |counts| > 0
    ensures var n := |counts| - 1;
      PositiveIndices(counts) == PositiveIndices(counts[..n]) + (if counts[n] > 0 then {n} else {})
  {
  }

  function DescendingKey(u: Usage): int {
    -(u.count as int)
  }

  /** `OrderByDescending(x => x.Value)`: stable, so equal counts keep collection order. */
  function Statistics(converters: seq<Converter>, counts: seq<nat>): (stats: seq<Usage>)
    requires |counts| == |converters|
    ensures |stats| == |Used(converters, counts)|
    ensures multiset(stats) == multiset(Used(converters, counts))
    ensures forall i, j :: 0 <= i < j < |stats| ==> stats[i].count >= stats[j].count
  {
    var stats := SortBy(Used(converters, counts), DescendingKey);
    assert forall i, j :: 0 <= i < j < |stats| ==> DescendingKey(stats[i]) <= DescendingKey(stats[j]);
    stats
  }

  /** One statistics line: `1 line In to Out` or `N lines In to Out`. */
  function Describe(u: Usage): string {
    NatToString(u.count) + (if u.count == 1 then " line " else " lines ")
      + u.converter.InputTypeName() + " to " + u.converter.OutputTypeName()
  }

  function Summary(c: Converter): string {
    c.InputTypeName() + " to " + c.OutputTypeName()
  }

  /**
    `GetTipText`: the bare `In to Out` when exactly one converter was used, otherwise
    one line per used converter, largest count first.
  */
  function GetTipText(converters: seq<Converter>, counts: seq<nat>, newLine: string): (text: string)
    requires |counts| == |converters|
    ensures |PositiveIndices(counts)| == 1 ==>
      forall k :: 0 <= k < |converters| && counts[k] > 0 ==> text == Summary(converters[k])
    ensures |PositiveIndices(counts)| != 1 ==> text == Join(Descriptions(Statistics(converters, counts)), newLine)
  {
    var stats := Statistics(converters, counts);
    UsedSize(converters, counts);
    if |stats| == 1 then
      OnlyUsage(converters, counts);
      Summary(stats[0].converter)
    else
      Join(Descriptions(stats), newLine)
  }

  function Descriptions(stats: seq<Usage>): (lines: seq<string>)
    ensures |lines| == |stats|
    ensures forall i :: 0 <= i < |stats| ==> lines[i] == Describe(stats[i])
  {
    seq(|stats|, i requires 0 <= i < |stats| => Describe(stats[i]))
  }

  /** With one used converter, the single statistics row is that converter. */
  lemma OnlyUsage(converters: seq<Converter>, counts: seq<nat>)
    requires |counts| == |converters|
    requires |PositiveIndices(counts)| == 1
    ensures |Statistics(converters, counts)| == 1
    ensures forall k :: 0 <= k < |converters| && counts[k] > 0 ==>
      Statistics(converters, counts)[0].converter == converters[k]
  {
    UsedComplete(converters, counts);
    UsedSize(converters, counts);
    var stats := Statistics(converters, counts);
    var us := Used(converters, counts);
    assert |stats| == |us| by {
      assert |multiset(stats)| == |multiset(us)|;
    }
    forall k | 0 <= k < |converters| && counts[k] > 0
      ensures stats[0].converter == converters[k]
    {
      assert Usage(converters[k], counts[k]) in us;
      assert us[0] == Usage(converters[k], counts[k]);
      assert stats[0] in multiset(us);
    }
  }

  /** What one run shows and writes. */
  datatype Outcome =
    | NoLines
    | NoMatches(title: string, text: string)
    | Converted(title: string, text: string, clipboard: string)

  /**
    `Execute` with the clipboard read as `clipboardText`: nothing happens for an empty
    clipboard; a notice and no clipboard write when no line converts; otherwise the
    counts in the title, the statistics, and the joined lines for the clipboard.
  */
  function Execute(converters: seq<Converter>, clipboardText: Option<string>, newLine: string, strictPadding: bool): (o: Outcome)
    ensures o.NoLines? <==> clipboardText.None? || clipboardText.value == ""
    ensures o.NoMatches? <==> SplitLines(clipboardText) != [] && Matched(converters, SplitLines(clipboardText), strictPadding) == {}
    ensures o.NoMatches? ==> (o.title == "Couldn't convert clipboard content"
      && o.text == "No convertible strings out of " + NatToString(|SplitLines(clipboardText)|) + " lines of text was found.")
    ensures o.Converted? ==> (o.title == "Converted " + NatToString(|Matched(converters, SplitLines(clipboardText), strictPadding)|)
      + " lines out of " + NatToString(|SplitLines(clipboardText)|))
    ensures o.Converted? ==>
      o.text == GetTipText(converters, Tally(converters, SplitLines(clipboardText), strictPadding), newLine)
      && o.clipboard == JoinConvertedLines(converters, Tally(converters, SplitLines(clipboardText), strictPadding),
           ConvertAll(converters, SplitLines(clipboardText), strictPadding), newLine)
  {
    var lines := SplitLines(clipboardText);
    if |lines| == 0 then NoLines
    else
      var counts := Tally(converters, lines, strictPadding);
      TallyCounts(converters, lines, strictPadding);
      var total := Sum(counts);
      if total == 0 then
        NoMatches("Couldn't convert clipboard content",
          "No convertible strings out of " + NatToString(|lines|) + " lines of text was found.")
      else
        Converted("Converted " + NatToString(total) + " lines out of " + NatToString(|lines|),
          GetTipText(converters, counts, newLine),
          JoinConvertedLines(converters, counts, ConvertAll(converters, lines, strictPadding), newLine))
  }

  /** Every converter prefers `","` except the Base64 one, which prefers `""`. */
  lemma PreferredSplitters(c: Converter)
    ensures c.PreferredSplitter() == (if c.BinaryToGuid? then "" else ",")
  {
  }

  /** When only `BinData`/`ObjectId` producers were used, lines are joined with a comma and a line break. */
  lemma CommaSplitter(converters: seq<Converter>, counts: seq<nat>, k: nat)
    requires |counts| == |converters|
    requires k < |converters| && counts[k] > 0
    requires forall j :: 0 <= j < |converters| && counts[j] > 0 ==> !converters[j].BinaryToGuid?
    ensures SplitterPrefix(converters, counts) == ","
  {
    assert UsedSplitters(converters, counts) == {","};
  }

  /** When the Base64 converter and any other were both used, lines are joined with a bare line break. */
  lemma MixedSplitter(converters: seq<Converter>, counts: seq<nat>, b: nat, k: nat)
    requires |counts| == |converters|
    requires b < |converters| && counts[b] > 0 && converters[b].BinaryToGuid?
    requires k < |converters| && counts[k] > 0 && !converters[k].BinaryToGuid?
    ensures SplitterPrefix(converters, counts) == ""
  {
    TwoMembers(UsedSplitters(converters, counts), converters[b].PreferredSplitter(), converters[k].PreferredSplitter());
  }

  /** The splitter never holds a line break before the new-line text. */
  lemma SplitterPrefixIsOneLine(converters: seq<Converter>, counts: seq<nat>)
    requires |counts| == |converters|
    ensures SplitterPrefix(converters, counts) == "" || SplitterPrefix(converters, counts) == ","
  {
    var p := SplitterPrefix(converters, counts);
    if p != "" {
      var k :| 0 <= k < |converters| && counts[k] > 0 && converters[k].PreferredSplitter() == p;
    }
  }

  /**
    The new clipboard text, read back line by line, gives the converted lines in
    order, each but the last followed by the shared splitter.
  */
  lemma ClipboardReadsBack(converters: seq<Converter>, clipboardText: Option<string>, newLine: string, strictPadding: bool)
    requires IsNewLine(newLine)
    requires Execute(converters, clipboardText, newLine, strictPadding).Converted?
    requires var converted := ConvertAll(converters, SplitLines(clipboardText), strictPadding);
      converted[|converted| - 1] != ""
    ensures var lines := SplitLines(clipboardText);
      ReadLines(Execute(converters, clipboardText, newLine, strictPadding).clipboard)
        == SuffixAllButLast(ConvertAll(converters, lines, strictPadding),
             SplitterPrefix(converters, Tally(converters, lines, strictPadding)))
  {
    var lines := SplitLines(clipboardText);
    var converted := ConvertAll(converters, lines, strictPadding);
    assert forall i :: 0 <= i < |converted| ==> HasNoLineBreak(converted[i]);
    JoinedReadsBack(converters, Tally(converters, lines, strictPadding), converted, newLine);
  }

  lemma JoinedReadsBack(converters: seq<Converter>, counts: seq<nat>, converted: seq<string>, newLine: string)
    requires |counts| == |converters| && IsNewLine(newLine)
    requires |converted| > 0 && converted[|converted| - 1] != ""
    requires forall i :: 0 <= i < |converted| ==> HasNoLineBreak(converted[i])
    ensures ReadLines(JoinConvertedLines(converters, counts, converted, newLine))
      == SuffixAllButLast(converted, SplitterPrefix(converters, counts))
  {
    SplitterPrefixIsOneLine(converters, counts);
    ReadJoined(converted, SplitterPrefix(converters, counts), newLine);
  }

  /** The statistics hold one row per used converter, each with its own count. */
  lemma StatisticsRows(converters: seq<Converter>, counts: seq<nat>)
    requires |counts| == |converters|
    ensures |Statistics(converters, counts)| == |PositiveIndices(counts)|
    ensures forall k :: 0 <= k < |converters| && counts[k] > 0 ==>
      Usage(converters[k], counts[k]) in Statistics(converters, counts)
    ensures forall i :: 0 <= i < |Statistics(converters, counts)| ==>
      Statistics(converters, counts)[i].count > 0
  {
    var stats := Statistics(converters, counts);
    var us := Used(converters, counts);
    UsedSize(converters, counts);
    UsedComplete(converters, counts);
    UsedRows(converters, counts);
    forall k | 0 <= k < |converters| && counts[k] > 0
      ensures Usage(converters[k], counts[k]) in stats
    {
      assert Usage(converters[k], counts[k]) in multiset(us);
    }
    forall i | 0 <= i < |stats|
      ensures stats[i].count > 0
    {
      assert stats[i] in multiset(us);
    }
  }

  /** The converters' type names are single lines. */
  lemma NamesAreOneLine(c: Converter)
    ensures HasNoLineBreak(c.InputTypeName()) && HasNoLineBreak(c.OutputTypeName())
  {
    match c
    case BinaryToGuid =>
    case GuidToBinary(_) =>
    case HexToBinary =>
    case ObjectId =>
  }

  /** A statistics line is one line of text that does not start empty. */
  lemma DescribeIsOneLine(u: Usage)
    ensures Describe(u) != "" && HasNoLineBreak(Describe(u))
  {
    var digits := NatToString(u.count);
    var word := if u.count == 1 then " line " else " lines ";
    assert HasNoLineBreak(digits);
    NamesAreOneLine(u.converter);
    NoLineBreakAppend(digits, word);
    NoLineBreakAppend(digits + word, u.converter.InputTypeName());
    NoLineBreakAppend(digits + word + u.converter.InputTypeName(), " to ");
    NoLineBreakAppend(digits + word + u.converter.InputTypeName() + " to ", u.converter.OutputTypeName());
  }

  /** Lines of text joined with the new-line text alone read back as themselves. */
  lemma JoinedLinesReadBack(lines: seq<string>, newLine: string)
    requires IsNewLine(newLine)
    requires |lines| > 0 && lines[|lines| - 1] != ""
    requires forall i :: 0 <= i < |lines| ==> HasNoLineBreak(lines[i])
    ensures ReadLines(Join(lines, newLine)) == lines
  {
    var sep := "";
    assert sep + newLine == newLine;
    ReadJoined(lines, sep, newLine);
    assert forall i :: 0 <= i < |lines| ==> lines[i] + sep == lines[i];
    assert SuffixAllButLast(lines, sep) == lines;
  }

  /** Each statistics line names a used converter and its own count. */
  lemma DescriptionsName(converters: seq<Converter>, counts: seq<nat>)
    requires |counts| == |converters|
    ensures var lines := Descriptions(Statistics(converters, counts));
      forall i :: 0 <= i < |lines| ==>
        exists k :: 0 <= k < |converters| && counts[k] > 0 && lines[i] == Describe(Usage(converters[k], counts[k]))
  {
    var stats := Statistics(converters, counts);
    var us := Used(converters, counts);
    UsedRows(converters, counts);
    forall i | 0 <= i < |stats|
      ensures exists k :: 0 <= k < |converters| && counts[k] > 0 && stats[i] == Usage(converters[k], counts[k])
    {
      assert stats[i] in multiset(us);
      var j :| 0 <= j < |us| && us[j] == stats[i];
      var k :| 0 <= k < |converters| && us[j] == Usage(converters[k], counts[k]);
      assert counts[k] == us[j].count > 0;
    }
  }

  /**
    With no converter or several used, the tip text read back line by line holds one
    line per used converter, each naming that converter and its own count, largest
    count first.
  */
  lemma TipTextReadsBack(converters: seq<Converter>, counts: seq<nat>, newLine: string)
    requires |counts| == |converters| && IsNewLine(newLine)
    requires |PositiveIndices(counts)| != 1
    ensures var lines := ReadLines(GetTipText(converters, counts, newLine));
      |lines| == |PositiveIndices(counts)|
      && forall i :: 0 <= i < |lines| ==>
           exists k :: 0 <= k < |converters| && counts[k] > 0 && lines[i] == Describe(Usage(converters[k], counts[k]))
    ensures var stats := Statistics(converters, counts);
      ReadLines(GetTipText(converters, counts, newLine)) == Descriptions(stats)
      && forall i, j :: 0 <= i < j < |stats| ==> stats[i].count >= stats[j].count
  {
    StatisticsRows(converters, counts);
    DescriptionsName(converters, counts);
    DescriptionsReadBack(Statistics(converters, counts), newLine);
  }

  /** The statistics lines joined with the new-line text read back as themselves. */
  lemma DescriptionsReadBack(stats: seq<Usage>, newLine: string)
    requires IsNewLine(newLine)
    ensures ReadLines(Join(Descriptions(stats), newLine)) == Descriptions(stats)
  {
    var lines := Descriptions(stats);
    if |lines| == 0 {
      assert Join(lines, newLine) == "";
    } else {
      forall i | 0 <= i < |lines|
        ensures HasNoLineBreak(lines[i])
      {
        DescribeIsOneLine(stats[i]);
      }
      DescribeIsOneLine(stats[|stats| - 1]);
      JoinedLinesReadBack(lines, newLine);
    }
  }

  /** Rows with equal counts keep the collection order of their converters. */
  lemma StatisticsTiesKeepOrder(converters: seq<Converter>, counts: seq<nat>, n: nat)
    requires |counts| == |converters|
    ensures WithKey(Statistics(converters, counts), DescendingKey, -(n as int))
      == WithKey(Used(converters, counts), DescendingKey, -(n as int))
  {
    SortByStable(Used(converters, counts), DescendingKey, -(n as int));
  }
}
