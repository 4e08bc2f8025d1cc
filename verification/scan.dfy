/**
  `Regex.Match` for the fixed-width patterns the converters use. Every pattern
  here matches strings of one length only, so the leftmost match is the window
  of that length with the smallest start index whose text satisfies the pattern.
*/
module Scan {
  import opened Wrappers
  import opened Text

  /** The window of `width` characters starting at `i` exists and satisfies `P`. */
  predicate MatchesAt(s: string, i: nat, width: nat, P: string -> bool) {
    i + width <= |s| && P(s[i..i + width])
  }

  function FindFrom(s: string, width: nat, P: string -> bool, from: nat): (r: Option<nat>)
    ensures r.Some? ==> from <= r.value && MatchesAt(s, r.value, width, P)
    ensures r.Some? ==> forall j :: from <= j < r.value ==> !MatchesAt(s, j, width, P)
    ensures r.None? ==> forall j :: from <= j ==> !MatchesAt(s, j, width, P)
    decreases |s| - from
  {
    if from + width > |s| then None
    else if P(s[from..from + width]) then Some(from)
    else FindFrom(s, width, P, from + 1)
  }

  /** The start of the leftmost window satisfying `P`; `None` when no window does. */
  function FindWindow(s: string, width: nat, P: string -> bool): (r: Option<nat>)
    ensures r.Some? ==> MatchesAt(s, r.value, width, P)
    ensures r.Some? ==> forall j :: 0 <= j < r.value ==> !MatchesAt(s, j, width, P)
    ensures r.None? <==> forall j :: 0 <= j ==> !MatchesAt(s, j, width, P)
  {
    FindFrom(s, width, P, 0)
  }

  /** A matching window with no match to its left is the one `FindWindow` finds. */
  lemma FindWindowIs(s: string, width: nat, P: string -> bool, i: nat)
    requires MatchesAt(s, i, width, P)
    requires forall j :: 0 <= j < i ==> !MatchesAt(s, j, width, P)
    ensures FindWindow(s, width, P) == Some(i)
  {
  }

  /** Two strings whose windows match at the same places have the same leftmost match. */
  lemma FindWindowSame(s: string, t: string, width: nat, P: string -> bool)
    requires forall j :: MatchesAt(t, j, width, P) <==> MatchesAt(s, j, width, P)
    ensures FindWindow(t, width, P) == FindWindow(s, width, P)
  {
    var r := FindWindow(s, width, P);
    if r.Some? {
      FindWindowIs(t, width, P, r.value);
    }
  }

  /** `match.Value` when `match.Success`: the text of the leftmost matching window. */
  function MatchValue(s: string, width: nat, P: string -> bool): (r: Option<string>)
    ensures r.Some? <==> FindWindow(s, width, P).Some?
    ensures r.Some? ==> |r.value| == width && P(r.value)
  {
    match FindWindow(s, width, P)
    case None => None
    case Some(i) => Some(s[i..i + width])
  }

  /** A string that is itself a match is its own leftmost match. */
  lemma MatchValueOfMatch(w: string, width: nat, P: string -> bool)
    requires |w| == width && P(w)
    ensures MatchValue(w, width, P) == Some(w)
  {
    assert w[0..width] == w;
    FindWindowIs(w, width, P, 0);
  }

  /** `P` cannot tell a window from its lower-cased copy. */
  ghost predicate IgnoresCase(width: nat, P: string -> bool) {
    forall w {:trigger Lower(w)} :: |w| == width ==> (P(Lower(w)) <==> P(w))
  }

  lemma MatchesAtLower(s: string, j: nat, width: nat, P: string -> bool)
    requires IgnoresCase(width, P)
    ensures MatchesAt(Lower(s), j, width, P) <==> MatchesAt(s, j, width, P)
  {
    if j + width <= |s| {
      var w := s[j..j + width];
      LowerSlice(s, j, j + width);
      assert P(Lower(w)) <==> P(w);
    }
  }

  lemma FindWindowLower(s: string, width: nat, P: string -> bool)
    requires IgnoresCase(width, P)
    ensures FindWindow(Lower(s), width, P) == FindWindow(s, width, P)
  {
    forall j | 0 <= j
      ensures MatchesAt(Lower(s), j, width, P) <==> MatchesAt(s, j, width, P)
    {
      MatchesAtLower(s, j, width, P);
    }
    FindWindowSame(s, Lower(s), width, P);
  }

  /**
    For a pattern that ignores letter case, lower-casing the text moves no match:
    the leftmost match of the lower-cased text is the lower-cased leftmost match.
  */
  lemma MatchValueLower(s: string, width: nat, P: string -> bool)
    requires IgnoresCase(width, P)
    ensures MatchValue(s, width, P).None? ==> MatchValue(Lower(s), width, P).None?
    ensures MatchValue(s, width, P).Some? ==>
      MatchValue(Lower(s), width, P) == Some(Lower(MatchValue(s, width, P).value))
  {
    FindWindowLower(s, width, P);
    match FindWindow(s, width, P)
    case None =>
    case Some(i) =>
      LowerSlice(s, i, i + width);
  }
}
