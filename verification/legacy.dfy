/**
  The older front end, `Program.cs` with the `Converters` folder: no registry sort, a prompt on
  every round, and the loop ends at the first input nothing accepts.
  `Guid.TryParse` over a whole input accepts several textual forms whose grammar is
  not part of this model, so the GUID-text converter takes it as a parameter.
*/
module LegacyProgram {
  import opened Wrappers
  import opened Bytes
  import opened Base64
  import opened SystemGuid
  import opened Dispatch
  import opened Literals
  import BinaryToGuidConverter
  import HexToBinaryConverter
  import ConsoleProgram
  import Scan

  datatype LegacyConverter = LegacyBinaryToGuid | LegacyGuidToBinary | LegacyHexToBinary
  {
    function InputTypeName(): string {
      match this
      case LegacyBinaryToGuid => "Base64"
      case LegacyGuidToBinary => "GUID"
      case LegacyHexToBinary => "Hex"
    }

    function OutputTypeName(): string {
      match this
      case LegacyBinaryToGuid => ".NET GUID"
      case LegacyGuidToBinary => "MongoDB binary"
      case LegacyHexToBinary => "MongoDB binary"
    }
  }

  /**
    `Converters/BinaryToGuidConverter.TryParseInput`: the whole input is decoded (no
    search), and anything but exactly 16 bytes is refused.
  */
  function BinaryToGuid(input: string, strictPadding: bool): (r: Option<string>)
    ensures r.Some? ==> (FromBase64String(input, strictPadding).Some?
                         && |FromBase64String(input, strictPadding).value| == 16)
    ensures FromBase64String(input, strictPadding).Some? && |FromBase64String(input, strictPadding).value| == 16 ==> r.Some?
    ensures r.Some? ==> IsLowerGuidText(r.value)
  {
    match FromBase64String(input, strictPadding)
    case None => None
    case Some(binary) =>
      if |binary| != 16 then None
      else Some(ToString(FromBytes(binary)))
  }

  /** `Converters/GuidToBinaryConverter.TryParseInput`, over the given `Guid.TryParse`. */
  function GuidToBinary(input: string, guidTryParse: string -> Option<Guid>): (r: Option<string>)
    ensures r.Some? <==> guidTryParse(input).Some?
    ensures r.Some? ==> (|r.value| == 38 && r.value == BinData(r.value[12..36])
                         && BinaryToGuidConverter.IsBase64Window(r.value[12..36])
                         && Decode(r.value[12..36], true) == Some(ToByteArray(guidTryParse(input).value)))
  {
    match guidTryParse(input)
    case None => None
    case Some(g) =>
      BinaryToGuidConverter.EncodedGuidIsWindow(ToByteArray(g));
      EncodeDecode(ToByteArray(g), true);
      Some(BinData(Encode(ToByteArray(g))))
  }

  /**
    `TryParseInput` of each legacy converter. The legacy Hex converter is the same
    code as the service one, so it is the same function.
  */
  function TryParseInput(c: LegacyConverter, input: string, strictPadding: bool,
                         guidTryParse: string -> Option<Guid>): (r: Option<string>)
    ensures c.LegacyHexToBinary? ==> r == HexToBinaryConverter.TryParseInput(input)
  {
    match c
    case LegacyBinaryToGuid => BinaryToGuid(input, strictPadding)
    case LegacyGuidToBinary => GuidToBinary(input, guidTryParse)
    case LegacyHexToBinary => HexToBinaryConverter.TryParseInput(input)
  }

  /** The empty input decodes to no bytes, so it is refused. */
  lemma EmptyInputRefused(strictPadding: bool)
    ensures BinaryToGuid("", strictPadding).None?
  {
    assert RemoveWhitespace("") == "";
    assert Decode("", strictPadding) == Some([]);
  }

  /** A character outside the alphabet, `=` and whitespace anywhere in the input makes it fail. */
  lemma SurroundingTextRefused(input: string, i: nat, strictPadding: bool)
    requires i < |input|
    requires !IsBase64Char(input[i]) && input[i] != '=' && !IsSkippedWhitespace(input[i])
    ensures BinaryToGuid(input, strictPadding).None?
  {
    var s := RemoveWhitespace(input);
    var j :| 0 <= j < |s| && s[j] == input[i];
    if WellFormed(s, strictPadding) {
      assert false;
    }
  }

  /** On a bare `[0-9A-Za-z+/]{22}==` input the legacy and service converters agree. */
  lemma AgreesOnBareWindow(w: string, strictPadding: bool)
    requires BinaryToGuidConverter.IsBase64Window(w)
    ensures BinaryToGuid(w, strictPadding) == BinaryToGuidConverter.TryParseInput(w, strictPadding)
  {
    Scan.MatchValueOfMatch(w, 24, BinaryToGuidConverter.IsBase64Window);
    forall i | 0 <= i < |w|
      ensures !IsSkippedWhitespace(w[i])
    {
    }
    RemoveNoWhitespace(w);
  }

  /** Every converter's answer, in discovery order (the legacy registry does not sort). */
  function Attempts(converters: seq<LegacyConverter>, input: string, strictPadding: bool,
                    guidTryParse: string -> Option<Guid>): (rs: seq<Option<string>>)
    ensures |rs| == |converters|
    ensures forall i :: 0 <= i < |converters| ==> rs[i] == TryParseInput(converters[i], input, strictPadding, guidTryParse)
  {
    seq(|converters|, i requires 0 <= i < |converters| => TryParseInput(converters[i], input, strictPadding, guidTryParse))
  }

  /** The line printed for an input: the first accepting converter's output name and its answer. */
  function Outcome(converters: seq<LegacyConverter>, input: string, strictPadding: bool,
                   guidTryParse: string -> Option<Guid>): (line: Option<string>)
    ensures line.None? <==> FirstSome(Attempts(converters, input, strictPadding, guidTryParse)).None?
    ensures line.Some? ==>
      exists k :: 0 <= k < |converters|
        && TryParseInput(converters[k], input, strictPadding, guidTryParse).Some?
        && (forall j :: 0 <= j < k ==> TryParseInput(converters[j], input, strictPadding, guidTryParse).None?)
        && line.value == converters[k].OutputTypeName() + ": " + TryParseInput(converters[k], input, strictPadding, guidTryParse).value
  {
    match FirstSome(Attempts(converters, input, strictPadding, guidTryParse))
    case None => None
    case Some(m) => Some(converters[m.index].OutputTypeName() + ": " + m.output)
  }

  /**
    The loop: prompt, read, stop on null, stop on an input nothing accepts, otherwise
    print `Out: result` and go on.
  */
  function Loop(converters: seq<LegacyConverter>, prompt: string, inputs: seq<string>, strictPadding: bool,
                guidTryParse: string -> Option<Guid>): seq<ConsoleProgram.Event>
    decreases |inputs|
  {
    if |inputs| == 0 then [ConsoleProgram.Write(prompt)]
    else
      match Outcome(converters, inputs[0], strictPadding, guidTryParse)
      case None => [ConsoleProgram.Write(prompt)]
      case Some(line) =>
        [ConsoleProgram.Write(prompt), ConsoleProgram.WriteLine(line)]
          + Loop(converters, prompt, inputs[1..], strictPadding, guidTryParse)
  }

  /** `Main`: the prompt from the discovered converters' input names, then the loop. */
  function Transcript(discovered: seq<LegacyConverter>, inputs: seq<string>, strictPadding: bool,
                      guidTryParse: string -> Option<Guid>): seq<ConsoleProgram.Event> {
    var names := seq(|discovered|, i requires 0 <= i < |discovered| => discovered[i].InputTypeName());
    Loop(discovered, ConsoleProgram.ComposePromptString(names), inputs, strictPadding, guidTryParse)
  }

  /** An input no converter accepts ends the session at once; later inputs are never read. */
  lemma StopsAtUnmatched(converters: seq<LegacyConverter>, prompt: string, input: string, rest: seq<string>,
                         strictPadding: bool, guidTryParse: string -> Option<Guid>)
    requires forall k :: 0 <= k < |converters| ==> TryParseInput(converters[k], input, strictPadding, guidTryParse).None?
    ensures Loop(converters, prompt, [input] + rest, strictPadding, guidTryParse) == [ConsoleProgram.Write(prompt)]
  {
    assert ([input] + rest)[0] == input;
  }

  /** Unlike the newer console, an empty line is an ordinary input, refused by every legacy converter. */
  lemma EmptyLineStops(converters: seq<LegacyConverter>, prompt: string, rest: seq<string>,
                       strictPadding: bool, guidTryParse: string -> Option<Guid>)
    requires guidTryParse("").None?
    ensures Loop(converters, prompt, [""] + rest, strictPadding, guidTryParse) == [ConsoleProgram.Write(prompt)]
  {
    EmptyInputRefused(strictPadding);
    assert HexToBinaryConverter.TryParseInput("").None? by {
      assert Scan.FindWindow("", 32, HexToBinaryConverter.IsHex32).None?;
    }
    StopsAtUnmatched(converters, prompt, "", rest, strictPadding, guidTryParse);
  }

  /** Prompts at the even positions, one `WriteLine` at each odd one, ending with a prompt. */
  predicate Alternates(events: seq<ConsoleProgram.Event>, prompt: string) {
    && |events| % 2 == 1
    && (forall i :: 0 <= i < |events| && i % 2 == 0 ==> events[i] == ConsoleProgram.Write(prompt))
    && (forall i :: 0 <= i < |events| && i % 2 == 1 ==> events[i].WriteLine?)
  }

  lemma AlternatesCons(prompt: string, line: string, rest: seq<ConsoleProgram.Event>)
    requires Alternates(rest, prompt)
    ensures Alternates([ConsoleProgram.Write(prompt), ConsoleProgram.WriteLine(line)] + rest, prompt)
  {
    var events := [ConsoleProgram.Write(prompt), ConsoleProgram.WriteLine(line)] + rest;
    forall i | 2 <= i < |events|
      ensures events[i] == rest[i - 2]
    {
    }
  }

  /** The values `f` gives the inputs from the first on, up to the first input it refuses. */
  function Leading(f: string -> Option<string>, inputs: seq<string>): (lines: seq<string>)
    ensures |lines| <= |inputs|
    decreases |inputs|
  {
    if |inputs| == 0 || f(inputs[0]).None? then []
    else [f(inputs[0]).value] + Leading(f, inputs[1..])
  }

  /** `Leading` is the longest run of accepted inputs from the start, each mapped by `f`. */
  lemma {:induction false} LeadingAre(f: string -> Option<string>, inputs: seq<string>)
    ensures forall i :: 0 <= i < |Leading(f, inputs)| ==> f(inputs[i]) == Some(Leading(f, inputs)[i])
    ensures |Leading(f, inputs)| < |inputs| ==> f(inputs[|Leading(f, inputs)|]).None?
    decreases |inputs|
  {
    if |inputs| > 0 && f(inputs[0]).Some? {
      var tail := Leading(f, inputs[1..]);
      LeadingAre(f, inputs[1..]);
      assert Leading(f, inputs) == [f(inputs[0]).value] + tail;
      forall i | 0 < i < |tail| + 1
        ensures f(inputs[i]) == Some(([f(inputs[0]).value] + tail)[i])
      {
        assert inputs[1..][i - 1] == inputs[i];
      }
      if |tail| + 1 < |inputs| {
        assert inputs[1..][|tail|] == inputs[|tail| + 1];
      }
    }
  }

  /** The result lines the loop prints: those of the accepted inputs before the first refused one. */
  function ResultLines(converters: seq<LegacyConverter>, inputs: seq<string>, strictPadding: bool,
                       guidTryParse: string -> Option<Guid>): seq<string>
  {
    Leading(x => Outcome(converters, x, strictPadding, guidTryParse), inputs)
  }

  /**
    The result lines belong to the longest run of accepted inputs from the start:
    line `i` is input `i`'s result, and the input after the run is refused.
  */
  lemma ResultLinesAre(converters: seq<LegacyConverter>, inputs: seq<string>, strictPadding: bool,
                       guidTryParse: string -> Option<Guid>)
    ensures |ResultLines(converters, inputs, strictPadding, guidTryParse)| <= |inputs|
    ensures forall i :: 0 <= i < |ResultLines(converters, inputs, strictPadding, guidTryParse)| ==>
      Outcome(converters, inputs[i], strictPadding, guidTryParse)
        == Some(ResultLines(converters, inputs, strictPadding, guidTryParse)[i])
    ensures var n := |ResultLines(converters, inputs, strictPadding, guidTryParse)|;
      n < |inputs| ==> FirstSome(Attempts(converters, inputs[n], strictPadding, guidTryParse)).None?
  {
    LeadingAre(x => Outcome(converters, x, strictPadding, guidTryParse), inputs);
  }

  /** One accepted input: a prompt, its result line, then the rest of the session. */
  lemma LoopAccepted(converters: seq<LegacyConverter>, prompt: string, inputs: seq<string>,
                     strictPadding: bool, guidTryParse: string -> Option<Guid>)
    requires |inputs| > 0 && Outcome(converters, inputs[0], strictPadding, guidTryParse).Some?
    ensures Loop(converters, prompt, inputs, strictPadding, guidTryParse)
      == [ConsoleProgram.Write(prompt), ConsoleProgram.WriteLine(Outcome(converters, inputs[0], strictPadding, guidTryParse).value)]
         + Loop(converters, prompt, inputs[1..], strictPadding, guidTryParse)
  {
  }

  /** One accepted input puts its result line in front of the rest's. */
  lemma ResultLinesAccepted(converters: seq<LegacyConverter>, inputs: seq<string>,
                            strictPadding: bool, guidTryParse: string -> Option<Guid>)
    requires |inputs| > 0 && Outcome(converters, inputs[0], strictPadding, guidTryParse).Some?
    ensures ResultLines(converters, inputs, strictPadding, guidTryParse)
      == [Outcome(converters, inputs[0], strictPadding, guidTryParse).value]
         + ResultLines(converters, inputs[1..], strictPadding, guidTryParse)
  {
  }

  /** A prompt and a line in front of a session whose odd positions hold `lines` put `line` in front of them. */
  lemma OddLinesCons(prompt: string, line: string, rest: seq<ConsoleProgram.Event>, lines: seq<string>)
    requires |rest| == 2 * |lines| + 1
    requires forall i :: 0 <= i < |lines| ==> rest[2 * i + 1] == ConsoleProgram.WriteLine(lines[i])
    ensures var events := [ConsoleProgram.Write(prompt), ConsoleProgram.WriteLine(line)] + rest;
      |events| == 2 * |[line] + lines| + 1
      && forall i :: 0 <= i < |[line] + lines| ==> events[2 * i + 1] == ConsoleProgram.WriteLine(([line] + lines)[i])
  {
    var events := [ConsoleProgram.Write(prompt), ConsoleProgram.WriteLine(line)] + rest;
    forall i | 0 < i < |[line] + lines|
      ensures events[2 * i + 1] == ConsoleProgram.WriteLine(([line] + lines)[i])
    {
      assert events[2 * i + 1] == rest[2 * (i - 1) + 1];
    }
  }

  /** The session is one prompt and result line per accepted input, then the prompt before the stopping read. */
  lemma {:induction false} LoopResults(converters: seq<LegacyConverter>, prompt: string, inputs: seq<string>,
                                       strictPadding: bool, guidTryParse: string -> Option<Guid>)
    ensures var lines := ResultLines(converters, inputs, strictPadding, guidTryParse);
      |Loop(converters, prompt, inputs, strictPadding, guidTryParse)| == 2 * |lines| + 1
      && forall i :: 0 <= i < |lines| ==>
        Loop(converters, prompt, inputs, strictPadding, guidTryParse)[2 * i + 1] == ConsoleProgram.WriteLine(lines[i])
    decreases |inputs|
  {
    if |inputs| > 0 && Outcome(converters, inputs[0], strictPadding, guidTryParse).Some? {
      LoopResults(converters, prompt, inputs[1..], strictPadding, guidTryParse);
      LoopAccepted(converters, prompt, inputs, strictPadding, guidTryParse);
      ResultLinesAccepted(converters, inputs, strictPadding, guidTryParse);
      OddLinesCons(prompt, Outcome(converters, inputs[0], strictPadding, guidTryParse).value,
        Loop(converters, prompt, inputs[1..], strictPadding, guidTryParse),
        ResultLines(converters, inputs[1..], strictPadding, guidTryParse));
    }
  }

  /**
    Every input the loop reads before stopping gets exactly one `Out: result` line,
    with a prompt before each read; the prompt is written once more before the read
    that stops the loop, so there are never more result lines than inputs.
  */
  lemma {:induction false} LoopShape(converters: seq<LegacyConverter>, prompt: string, inputs: seq<string>,
                                     strictPadding: bool, guidTryParse: string -> Option<Guid>)
    ensures Alternates(Loop(converters, prompt, inputs, strictPadding, guidTryParse), prompt)
    ensures |Loop(converters, prompt, inputs, strictPadding, guidTryParse)| / 2 <= |inputs|
    decreases |inputs|
  {
    if |inputs| > 0 {
      match Outcome(converters, inputs[0], strictPadding, guidTryParse)
      case None =>
      case Some(line) =>
        LoopShape(converters, prompt, inputs[1..], strictPadding, guidTryParse);
        AlternatesCons(prompt, line, Loop(converters, prompt, inputs[1..], strictPadding, guidTryParse));
    }
  }
}
