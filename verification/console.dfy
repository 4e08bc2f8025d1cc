/**
  `Console/Program`: the interactive loop of the console front end, as a transcript.
  The lines typed are a sequence; running out of it is `ReadLine` returning null.
  What the program writes is a sequence of events.
*/
module ConsoleProgram {
  import opened Wrappers
  import opened Text
  import opened Dispatch
  import opened ConverterModel
  import Converters

  /** The items of `xs` that are not empty, in order (`Where(x => !string.IsNullOrEmpty(x))`). */
  function NonEmpty(xs: seq<Option<string>>): (ys: seq<string>)
    ensures forall i :: 0 <= i < |ys| ==> ys[i] != ""
    ensures |ys| <= |xs|
  {
    if |xs| == 0 then []
    else (if xs[0].Some? && xs[0].value != "" then [xs[0].value] else []) + NonEmpty(xs[1..])
  }

  /**
    `ComposePromptString`: all names but the last joined with `, `, then ` or ` and
    the last. A single name is dropped, as the code does.
  */
  function ComposePromptString(names: seq<string>): (prompt: string)
    ensures |prompt| >= 14 && prompt[..6] == "Enter " && prompt[|prompt| - 8..] == " value: "
    ensures |names| <= 1 ==> prompt == "Enter  value: "
  {
    FewNames(names);
    Framed(TypeNames(names));
    "Enter " + TypeNames(names) + " value: "
  }

  /** The names part of the prompt: `left` and `right` joined with ` or `, empty ones dropped. */
  function TypeNames(names: seq<string>): string {
    var left := if |names| == 0 then "" else Join(names[..|names| - 1], ", ");
    var right := if |names| > 1 then Some(names[|names| - 1]) else None;
    Join(NonEmpty([Some(left), right]), " or ")
  }

  lemma FewNames(names: seq<string>)
    ensures |names| <= 1 ==> TypeNames(names) == ""
  {
    if |names| <= 1 {
      var left := if |names| == 0 then "" else Join(names[..|names| - 1], ", ");
      assert left == "";
      assert NonEmpty([Some(left), None]) == [];
    }
  }

  lemma Framed(t: string)
    ensures var p := "Enter " + t + " value: ";
      |p| >= 14 && p[..6] == "Enter " && p[|p| - 8..] == " value: "
  {
  }

  /** With two names or more, all of them non-empty, the prompt is `Enter A, B or C value: `. */
  lemma PromptListsNames(names: seq<string>)
    requires |names| >= 2
    requires forall i :: 0 <= i < |names| ==> names[i] != ""
    ensures ComposePromptString(names)
      == "Enter " + Join(names[..|names| - 1], ", ") + " or " + names[|names| - 1] + " value: "
  {
    var left := Join(names[..|names| - 1], ", ");
    JoinNonEmpty(names[..|names| - 1], ", ");
    assert [Some(left), Some(names[|names| - 1])][1..] == [Some(names[|names| - 1])];
    assert NonEmpty([Some(left), Some(names[|names| - 1])]) == [left, names[|names| - 1]];
    assert [left, names[|names| - 1]][1..] == [names[|names| - 1]];
    assert Join([left, names[|names| - 1]], " or ") == left + " or " + names[|names| - 1];
  }

  function InputTypeNames(converters: seq<Converter>): (names: seq<string>)
    ensures |names| == |converters|
    ensures forall i :: 0 <= i < |converters| ==> names[i] == converters[i].InputTypeName()
  {
    seq(|converters|, i requires 0 <= i < |converters| => converters[i].InputTypeName())
  }

  /** `args.Any(x => x == "-q")`. */
  predicate IsQuietMode(args: seq<string>) {
    exists i :: 0 <= i < |args| && args[i] == "-q"
  }

  datatype Event = Write(text: string) | WriteLine(text: string) | SetClipboard(text: string)

  const ErrorMessage: string := "Could not convert entered data! Enter empty string to quit."

  /** The line one non-empty input produces: the error text, the bare result, or `Out: result (copied to clipboard)`. */
  function Response(converters: seq<Converter>, quiet: bool, input: string, strictPadding: bool): string {
    match FirstMatch(converters, input, strictPadding)
    case None => ErrorMessage
    case Some(m) =>
      if quiet then m.output
      else converters[m.index].OutputTypeName() + ": " + m.output + " (copied to clipboard)"
  }

  /** What one non-empty input makes the loop write, with the clipboard write before the line. */
  function Respond(converters: seq<Converter>, quiet: bool, input: string, strictPadding: bool): (events: seq<Event>)
    ensures |events| >= 1 && events[|events| - 1] == WriteLine(Response(converters, quiet, input, strictPadding))
    ensures quiet ==> |events| == 1
    ensures FirstMatch(converters, input, strictPadding).None? ==> events == [WriteLine(ErrorMessage)]
    ensures quiet && FirstMatch(converters, input, strictPadding).Some? ==>
      events == [WriteLine(FirstMatch(converters, input, strictPadding).value.output)]
    ensures !quiet && FirstMatch(converters, input, strictPadding).Some? ==>
      var m := FirstMatch(converters, input, strictPadding).value;
      events == [SetClipboard(m.output),
                 WriteLine(converters[m.index].OutputTypeName() + ": " + m.output + " (copied to clipboard)")]
  {
    match FirstMatch(converters, input, strictPadding)
    case None => [WriteLine(ErrorMessage)]
    case Some(m) =>
      if quiet then [WriteLine(m.output)]
      else [SetClipboard(m.output), WriteLine(Response(converters, quiet, input, strictPadding))]
  }

  /** The `while (true)` loop: prompt unless quiet, read, stop on null or empty, respond. */
  function Loop(converters: seq<Converter>, prompt: string, quiet: bool, inputs: seq<string>, strictPadding: bool): seq<Event>
    decreases |inputs|
  {
    var promptEvents := if quiet then [] else [Write(prompt)];
    if |inputs| == 0 || inputs[0] == "" then promptEvents
    else (promptEvents + Respond(converters, quiet, inputs[0], strictPadding)
      + Loop(converters, prompt, quiet, inputs[1..], strictPadding))
  }

  /** `Main`: the registry's converters, the prompt built from their input names, the loop. */
  function Transcript(args: seq<string>, discovered: seq<Converter>, inputs: seq<string>, strictPadding: bool): seq<Event> {
    var converters := Converters.Get(discovered);
    Loop(converters, ComposePromptString(InputTypeNames(converters)), IsQuietMode(args), inputs, strictPadding)
  }

  /** How many lines are read before the first empty one (or the end). */
  function Consumed(inputs: seq<string>): (n: nat)
    ensures n <= |inputs|
    ensures forall i :: 0 <= i < n ==> inputs[i] != ""
    ensures n < |inputs| ==> inputs[n] == ""
  {
    if |inputs| == 0 || inputs[0] == "" then 0 else 1 + Consumed(inputs[1..])
  }

  /** The lines written to the console, in order. */
  function Lines(events: seq<Event>): (lines: seq<string>)
    ensures |lines| <= |events|
  {
    if |events| == 0 then []
    else (if events[0].WriteLine? then [events[0].text] else []) + Lines(events[1..])
  }

  lemma LinesAppend(a: seq<Event>, b: seq<Event>)
    ensures Lines(a + b) == Lines(a) + Lines(b)
  {
    if |a| > 0 {
      assert (a + b)[1..] == a[1..] + b;
      LinesAppend(a[1..], b);
    } else {
      assert a + b == b;
    }
  }

  lemma RespondLines(converters: seq<Converter>, quiet: bool, input: string, strictPadding: bool)
    ensures Lines(Respond(converters, quiet, input, strictPadding)) == [Response(converters, quiet, input, strictPadding)]
  {
    var r := Respond(converters, quiet, input, strictPadding);
    if |r| == 2 {
      assert r[1..][1..] == [];
    } else {
      assert |r| == 1 && r[1..] == [];
    }
  }

  /**
    The loop writes exactly one line per input read before the first empty line, the
    response to that input; the empty line and everything after it are ignored.
  */
  lemma {:induction false} LoopLines(converters: seq<Converter>, prompt: string, quiet: bool, inputs: seq<string>, strictPadding: bool)
    ensures |Lines(Loop(converters, prompt, quiet, inputs, strictPadding))| == Consumed(inputs)
    ensures forall i :: 0 <= i < Consumed(inputs) ==>
      Lines(Loop(converters, prompt, quiet, inputs, strictPadding))[i] == Response(converters, quiet, inputs[i], strictPadding)
    decreases |inputs|
  {
    if |inputs| > 0 && inputs[0] != "" {
      LoopLines(converters, prompt, quiet, inputs[1..], strictPadding);
      LoopLinesStep(converters, prompt, quiet, inputs, strictPadding);
    } else {
      var promptEvents := if quiet then [] else [Write(prompt)];
      assert Lines(promptEvents) == [] by {
        if !quiet { assert promptEvents[1..] == []; }
      }
      assert Loop(converters, prompt, quiet, inputs, strictPadding) == promptEvents;
    }
  }

  /** One answered input adds its response in front of the lines of the rest of the session. */
  lemma LoopLinesStep(converters: seq<Converter>, prompt: string, quiet: bool, inputs: seq<string>, strictPadding: bool)
    requires |inputs| > 0 && inputs[0] != ""
    requires |Lines(Loop(converters, prompt, quiet, inputs[1..], strictPadding))| == Consumed(inputs[1..])
    requires forall i :: 0 <= i < Consumed(inputs[1..]) ==>
      Lines(Loop(converters, prompt, quiet, inputs[1..], strictPadding))[i] == Response(converters, quiet, inputs[1..][i], strictPadding)
    ensures |Lines(Loop(converters, prompt, quiet, inputs, strictPadding))| == Consumed(inputs)
    ensures forall i :: 0 <= i < Consumed(inputs) ==>
      Lines(Loop(converters, prompt, quiet, inputs, strictPadding))[i] == Response(converters, quiet, inputs[i], strictPadding)
  {
    var promptEvents := if quiet then [] else [Write(prompt)];
    assert Lines(promptEvents) == [] by {
      if !quiet { assert promptEvents[1..] == []; }
    }
    var rest := Loop(converters, prompt, quiet, inputs[1..], strictPadding);
    var respond := Respond(converters, quiet, inputs[0], strictPadding);
    var first := Response(converters, quiet, inputs[0], strictPadding);
    RespondLines(converters, quiet, inputs[0], strictPadding);
    LoopStep(converters, prompt, quiet, inputs, strictPadding);
    LinesOfStep(promptEvents, respond, rest, first);
    ConsPointwise(Lines(rest), first, inputs, Consumed(inputs), (x: string) => Response(converters, quiet, x, strictPadding));
  }

  /** A pointwise description of a tail extends to one more element in front. */
  lemma ConsPointwise(restLines: seq<string>, first: string, inputs: seq<string>, n: nat, f: string -> string)
    requires 0 < n <= |inputs| && first == f(inputs[0]) && |restLines| == n - 1
    requires forall i :: 0 <= i < n - 1 ==> restLines[i] == f(inputs[1..][i])
    ensures forall i :: 0 <= i < n ==> ([first] + restLines)[i] == f(inputs[i])
  {
    forall i | 0 < i < n
      ensures ([first] + restLines)[i] == f(inputs[i])
    {
      assert inputs[1..][i - 1] == inputs[i];
    }
  }

  lemma LinesOfStep(promptEvents: seq<Event>, respond: seq<Event>, rest: seq<Event>, line: string)
    requires Lines(promptEvents) == [] && Lines(respond) == [line]
    ensures Lines(promptEvents + respond + rest) == [line] + Lines(rest)
  {
    LinesAppend(promptEvents, respond);
    LinesAppend(promptEvents + respond, rest);
  }

  lemma LoopStep(converters: seq<Converter>, prompt: string, quiet: bool, inputs: seq<string>, strictPadding: bool)
    requires |inputs| > 0 && inputs[0] != ""
    ensures Loop(converters, prompt, quiet, inputs, strictPadding)
      == (if quiet then [] else [Write(prompt)]) + Respond(converters, quiet, inputs[0], strictPadding)
         + Loop(converters, prompt, quiet, inputs[1..], strictPadding)
  {
  }

  /**
    `Main` writes one line per input before the first empty one, each the response of
    the first converter in registry order; without `-q` the session opens with the
    prompt built from the registry's input names.
  */
  lemma TranscriptLines(args: seq<string>, discovered: seq<Converter>, inputs: seq<string>, strictPadding: bool)
    ensures |Lines(Transcript(args, discovered, inputs, strictPadding))| == Consumed(inputs)
    ensures forall i :: 0 <= i < Consumed(inputs) ==>
      Lines(Transcript(args, discovered, inputs, strictPadding))[i]
        == Response(Converters.Get(discovered), IsQuietMode(args), inputs[i], strictPadding)
    ensures !IsQuietMode(args) ==>
      |Transcript(args, discovered, inputs, strictPadding)| > 0
      && Transcript(args, discovered, inputs, strictPadding)[0]
        == Write(ComposePromptString(InputTypeNames(Converters.Get(discovered))))
  {
    var converters := Converters.Get(discovered);
    var prompt := ComposePromptString(InputTypeNames(converters));
    LoopLines(converters, prompt, IsQuietMode(args), inputs, strictPadding);
  }

  /** An empty line ends the session: what follows it is never read. */
  lemma {:induction false} EmptyLineEnds(converters: seq<Converter>, prompt: string, quiet: bool,
                                         before: seq<string>, after: seq<string>, strictPadding: bool)
    requires forall i :: 0 <= i < |before| ==> before[i] != ""
    ensures Loop(converters, prompt, quiet, before + [""] + after, strictPadding)
      == Loop(converters, prompt, quiet, before, strictPadding)
    decreases |before|
  {
    if |before| > 0 {
      assert (before + [""] + after)[1..] == before[1..] + [""] + after;
      EmptyLineEnds(converters, prompt, quiet, before[1..], after, strictPadding);
    }
  }

  /** In quiet mode there is no prompt and no clipboard write: only result and error lines. */
  lemma {:induction false} QuietWritesLinesOnly(converters: seq<Converter>, prompt: string, inputs: seq<string>, strictPadding: bool)
    ensures forall i :: 0 <= i < |Loop(converters, prompt, true, inputs, strictPadding)| ==>
      Loop(converters, prompt, true, inputs, strictPadding)[i].WriteLine?
    decreases |inputs|
  {
    if |inputs| > 0 && inputs[0] != "" {
      QuietWritesLinesOnly(converters, prompt, inputs[1..], strictPadding);
    }
  }

  /** An input no converter accepts prints the error line and the loop goes on. */
  lemma UnmatchedContinues(converters: seq<Converter>, prompt: string, quiet: bool, input: string,
                           rest: seq<string>, strictPadding: bool)
    requires input != ""
    requires forall k :: 0 <= k < |converters| ==> converters[k].TryParseInput(input, strictPadding).None?
    ensures Loop(converters, prompt, quiet, [input] + rest, strictPadding)
      == (if quiet then [] else [Write(prompt)]) + [WriteLine(ErrorMessage)] + Loop(converters, prompt, quiet, rest, strictPadding)
  {
    assert ([input] + rest)[1..] == rest;
  }
}
