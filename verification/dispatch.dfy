/**
  The first-match chain both front ends use:
  `converters.Select(c => c.TryParseInput(input)).FirstOrDefault(r => r != null)`.
*/
module Dispatch {
  import opened Wrappers

  /** Which converter answered, by position, and what it answered. */
  datatype Match = Match(index: nat, output: string)

  /** The first non-null result, with its position; `None` when every result is null. */
  function FirstSome(results: seq<Option<string>>): (r: Option<Match>)
    ensures r.None? <==> forall i :: 0 <= i < |results| ==> results[i].None?
    ensures r.Some? ==> r.value.index < |results| && results[r.value.index] == Some(r.value.output)
    ensures r.Some? ==> forall i :: 0 <= i < r.value.index ==> results[i].None?
  {
    if |results| == 0 then None
    else if results[0].Some? then Some(Match(0, results[0].value))
    else
      match FirstSome(results[1..])
      case None => None
      case Some(m) => Some(Match(m.index + 1, m.output))
  }
}
