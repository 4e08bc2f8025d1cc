# MongoConverter in Dafny

A Dafny model of the text-conversion core of MongoConverter (GuidToBase64), with
proofs about it. The utility turns identifiers between the textual forms a MongoDB
shell user meets:

- a Base64 GUID (`17TpxIvIdyhJXaZIVQiUpg==`) becomes .NET GUID text;
- GUID text (`f47ac10b-58cc-4372-a567-0e02b2c3d479`) becomes `BinData(3, '…')`;
- 32 hex digits become `BinData(3, '…')`;
- 24 hex digits become `ObjectId('…')`.

The model covers these parts:

- **The four service converters** (`BinaryToGuidConverter`, `GuidToBinaryConverter`,
  `HexToBinaryConverter`, `ObjectIdConverter`).
  - Each finds the leftmost window of its fixed-width pattern (`Scan`) and transforms it.
  - The transforms use models of the .NET library:
    - `Convert.ToBase64String` and `Convert.FromBase64String` (`Base64`).
    - `Convert.FromHexString` (`Hex`).
    - `System.Guid` with its mixed-endian byte layout and its "D" text form (`SystemGuid`).
  - `ConverterModel` joins the four into one datatype carrying the metadata of each class.
- **The registry** `Converters.Get`: a stable sort by `Order` (`Sorting`) of the
  converters discovered, which are an input sequence.
- **The clipboard command** `ConvertClipboardCommand.Execute`, as a pure function from
  the clipboard text to what would be shown and written.
  - Line splitting follows `StringReader.ReadLine` (`StringReader`).
  - Each line goes to the first converter that answers (`Dispatch`).
  - The model covers the per-converter tally, the choice of the line splitter, and the
    balloon title and text.
- **The console front end** (`ConsoleProgram`): the prompt, and the read–convert loop
  as a transcript of events (a sequence of input lines in, a sequence of events out).
- **The legacy front end** (`LegacyProgram`): `Program.cs` with its `Converters`
  folder. It has whole-input Base64 decoding, no sorting of the converters, and a loop
  that ends at the first input nothing accepts.

Five choices shape the model:

- **`Guid` is stored as .NET stores it.** It has a 32-bit field, two 16-bit fields and
  eight bytes. The byte order of the converters' output is therefore a theorem
  (`SystemGuid.ToByteArrayOfParse`, `SystemGuid.ToStringOfFromBytes`), not a definition.
- **The strictness of .NET Base64 decoding is a parameter.** .NET may reject a non-zero
  unused low bit in the last character before `=`, or it may ignore it. The source does
  not settle which, so every decoder takes `strictPadding` and states its contracts
  under both readings.
- **`Environment.NewLine` is a parameter `newLine`.** Read-back properties assume it
  is one of `\n`, `\r\n` or `\r`.
- **The GUID-text converter's `Order` is a parameter.** `Services/Converters/IConverter.cs`
  declares no `Order` member, and `Services/Converters/GuidToBinaryConverter.cs` defines
  none. The model carries the value as a field `GuidToBinary(guidOrder)` rather than
  inventing one.
- **The legacy `Guid.TryParse` is a parameter.** In the legacy GUID converter it runs
  over the whole input. Its grammar accepts several textual formats and is not part of
  this model, so it is a function parameter `guidTryParse`.

## Model

| member | source | states |
|---|---|---|
| BinaryToGuidConverter.TryParseInput | Services/Converters/BinaryToGuidConverter.cs:24-46 | null when no 22 Base64 characters followed by `==` occur. On a match the result is non-null exactly when the decoder accepts the window, which is always under the lenient reading. A result is lower-case 8-4-4-4-12 GUID text. |
| BinaryToGuidConverter.DecodeWindow | Services/Converters/BinaryToGuidConverter.cs:32-33 | A matched window always decodes to exactly 16 bytes, so `new Guid(bytes)` never throws. The strict reading alone refuses a window with stray bits, and "no stray bits" is the same as being a canonical encoding. |
| BinaryToGuidConverter.OnlyLeftmostWindow | Services/Converters/BinaryToGuidConverter.cs:28-31 | Only the leftmost match counts: the answer for the whole input is the answer for that window alone. |
| BinaryToGuidConverter.OutputShowsSwappedBytes | Services/Converters/BinaryToGuidConverter.cs:32-34 | The text shows the decoded bytes 3,2,1,0 then 5,4 then 7,6, then bytes 8 to 15 in order. |
| BinaryToGuidConverter.EncodedGuidIsWindow | Services/Converters/GuidToBinaryConverter.cs:16 | The Base64 of any 16 bytes matches the `[0-9A-Za-z+/]{22}==` pattern, and it is canonical. |
| GuidToBinaryConverter.TryParseInput | Services/Converters/GuidToBinaryConverter.cs:11-20 | Non-null exactly when 8-4-4-4-12 hex text occurs, since `Guid.TryParse` accepts every match. The result is the 38-character `BinData(3, '…')` around a canonical 24-character payload ending in `==`. |
| GuidToBinaryConverter.PayloadBytes | Services/Converters/GuidToBinaryConverter.cs:15-16 | The payload decodes to the bytes the text spells, with groups 1 to 3 reversed byte by byte and the last 8 bytes as written. |
| GuidToBinaryConverter.IgnoresCase | Services/Converters/GuidToBinaryConverter.cs:13-20 | Upper- and lower-case digits give the same output. |
| GuidToBinaryConverter.OnlyLeftmostMatch | Services/Converters/GuidToBinaryConverter.cs:13-15 | Only the leftmost GUID text is converted. |
| HexToBinaryConverter.TryParseInput | Services/Converters/HexToBinaryConverter.cs:24-36 | Non-null exactly when 32 hex digits occur in a row. The conversion is total: every match gives 16 bytes, and the result is `BinData(3, '…')` around a canonical 24-character payload. |
| HexToBinaryConverter.PayloadBytes | Services/Converters/HexToBinaryConverter.cs:26-30 | The payload decodes to the digits' bytes in written order, from the leftmost 32-digit window. The `Guid` round trip swaps nothing. |
| HexToBinaryConverter.IgnoresCase | Services/Converters/HexToBinaryConverter.cs:26-36 | Upper- and lower-case digits give the same output. |
| HexToBinaryConverter.OnlyLeftmostMatch | Services/Converters/HexToBinaryConverter.cs:26-29 | Only the leftmost window counts; in a longer run that is the first 32 digits. |
| ObjectIdConverter.TryParseInput | Services/Converters/ObjectIdConverter.cs:24-36 | Non-null exactly when 24 hex digits occur in a row. The result is the 36-character `ObjectId('…')`, whose digits are the leftmost run's digits lower-cased, one by one. |
| ObjectIdConverter.IgnoresCase | Services/Converters/ObjectIdConverter.cs:26-30 | Upper- and lower-case input give the same output. |
| ObjectIdConverter.Idempotent | Services/Converters/ObjectIdConverter.cs:24-31 | Converting an output again gives that same output. |
| ConverterModel.Converter.TryParseInput | Services/Converters/IConverter.cs:3-9 | Every converter's answer is a non-empty single line. |
| ConverterModel.DeclaredMetadata | Services/Converters/BinaryToGuidConverter.cs:12-21 | Base64 converter: order 0, `Base64`, `.NET GUID`, splitter `""`. Hex converter: order 2, `Hex`, `MongoDB binary`, `,`. ObjectId converter: order 3, `ObjectId string`, `ObjectId`, `,` (lines 12-21 of each class). GUID converter: `GUID`, `MongoDB binary`, `,` (`GuidToBinaryConverter.cs` lines 7-9), with the order it was given. |
| ConverterModel.FirstMatch | SystemTray/ConvertClipboardCommand.cs:60-62 | The earliest converter in collection order with a non-null answer, and that answer; none exactly when every converter answers null. |
| Dispatch.FirstSome | Console/Program.cs:35-37 | `FirstOrDefault(r => r != null)`: the first non-null result and its position; none when all results are null. |
| Converters.Get | Services/Converters/Converters.cs:16-26 | Same length and the same converters as discovered, sorted non-decreasing by `Order`. |
| Converters.GetStable | Services/Converters/Converters.cs:22 | Converters with equal `Order` keep their discovery order (`OrderBy` is stable). |
| Converters.GetOfSorted | Services/Converters/Converters.cs:22 | Discovery that is already in `Order` order is returned unchanged. |
| Converters.DeclaredOrder | Services/Converters/Converters.cs:22 | With the declared orders 0, 2 and 3, Base64 comes before Hex, which comes before ObjectId. |
| Converters.ObjectIdAcceptsHexRun | Services/Converters/ObjectIdConverter.cs:26-27 | Any input holding 32 hex digits is also accepted by the ObjectId converter. |
| Converters.HexRunNeverObjectId | Services/Converters/Converters.cs:22 | In registry order, a line holding 32 hex digits is answered, but never by ObjectId. |
| ConvertClipboardCommand.SplitLines | SystemTray/ConvertClipboardCommand.cs:105-128 | null gives no lines, and text gives none exactly when it is empty. No line holds `\r` or `\n`. |
| ConvertClipboardCommand.ConvertLine | SystemTray/ConvertClipboardCommand.cs:58-72 | A line no converter accepts is kept verbatim; otherwise the line becomes the answer of the first converter that accepts it. |
| ConvertClipboardCommand.ConvertAll | SystemTray/ConvertClipboardCommand.cs:56-72 | One converted line per source line, in the same order. |
| ConvertClipboardCommand.CountCounts | SystemTray/ConvertClipboardCommand.cs:55-71 | The counting fold gives each index the number of positions that picked it. The counts add up to the number of picked positions, which is at most the number of positions. |
| ConvertClipboardCommand.TallyCounts | SystemTray/ConvertClipboardCommand.cs:55-74 | Each converter's count is the number of lines it was first to answer. The total is the number of matched lines, so it lies between 0 and the line count. |
| ConvertClipboardCommand.SplitterPrefix | SystemTray/ConvertClipboardCommand.cs:165-172 | When the used converters share exactly one `PreferredSplitter` the prefix is that splitter, otherwise it is empty. |
| ConvertClipboardCommand.PreferredSplitters | Services/Converters/BinaryToGuidConverter.cs:21 | The Base64 converter prefers `""` and every other converter prefers `","`. |
| ConvertClipboardCommand.CommaSplitter | SystemTray/ConvertClipboardCommand.cs:165-172 | When only `BinData`/`ObjectId` producers were used, lines are joined with `,` and a line break. |
| ConvertClipboardCommand.MixedSplitter | SystemTray/ConvertClipboardCommand.cs:165-172 | When the Base64 converter and another converter were both used, lines are joined with a bare line break. |
| ConvertClipboardCommand.JoinedReadsBack | SystemTray/ConvertClipboardCommand.cs:161-175 | The joined text read back line by line gives the lines in order, each but the last ending in the splitter: there is no trailing delimiter. |
| ConvertClipboardCommand.ClipboardReadsBack | SystemTray/ConvertClipboardCommand.cs:95-97 | The new clipboard text reads back as the converted lines in order, with the shared splitter after each line but the last. |
| ConvertClipboardCommand.Statistics | SystemTray/ConvertClipboardCommand.cs:137-140 | The used converters with their counts, as a permutation of the rows in collection order, in non-increasing count order. |
| ConvertClipboardCommand.StatisticsRows | SystemTray/ConvertClipboardCommand.cs:137-140 | One row per used converter, each with its own positive count. |
| ConvertClipboardCommand.StatisticsTiesKeepOrder | SystemTray/ConvertClipboardCommand.cs:139 | Rows with equal counts keep the collection order of their converters. |
| ConvertClipboardCommand.GetTipText | SystemTray/ConvertClipboardCommand.cs:135-153 | With one used converter the text is `In to Out`. Otherwise it is the statistics lines (`1 line …` / `N lines …`) joined by the new-line text. |
| ConvertClipboardCommand.TipTextReadsBack | SystemTray/ConvertClipboardCommand.cs:148-152 | With no converter or several used, the tip text reads back as one line per used converter. Each line names a used converter with its own count, and the lines run from the largest count down. |
| ConvertClipboardCommand.OnlyUsage | SystemTray/ConvertClipboardCommand.cs:142-146 | With exactly one used converter there is one statistics row, and it is that converter. |
| ConvertClipboardCommand.Execute | SystemTray/ConvertClipboardCommand.cs:45-98 | Nothing happens exactly when the clipboard is null or empty. The notice without a clipboard write happens exactly when no line matches. Otherwise the title carries the matched and total line counts, and the balloon text and clipboard are the tip text and the joined lines. |
| ConsoleProgram.ComposePromptString | Console/Program.cs:57-65 | The prompt starts with `Enter ` and ends with ` value: `. With one name or none it is `Enter  value: `. |
| ConsoleProgram.PromptListsNames | Console/Program.cs:59-64 | With two or more non-empty names it is `Enter A, B or C value: `. |
| ConsoleProgram.InputTypeNames | Console/Program.cs:23 | The converters' input names, in collection order. |
| ConsoleProgram.Respond | Console/Program.cs:35-53 | Each non-empty input ends with exactly one line, its response. When nothing matches that line is the only event and holds the fixed error text. In quiet mode a match writes only the bare result, with no clipboard write. Otherwise a match first puts the result on the clipboard, then writes `Out: result (copied to clipboard)` with the answering converter's output name. |
| ConsoleProgram.LoopLines | Console/Program.cs:25-54 | The loop writes exactly one line per input read before the first empty line or the end, and that line is the response to that input. |
| ConsoleProgram.TranscriptLines | Console/Program.cs:18-55 | `Main` writes one line per input before the first empty one. That line is the response of the first converter in `Converters.Get()` order. Without `-q` the session opens with the prompt built from the registry's input names. |
| ConsoleProgram.EmptyLineEnds | Console/Program.cs:32-33 | An empty line ends the session; what follows it is never read. |
| ConsoleProgram.QuietWritesLinesOnly | Console/Program.cs:27-30 | In quiet mode there is no prompt and no clipboard write, only lines. |
| ConsoleProgram.UnmatchedContinues | Console/Program.cs:39-43 | An input nothing accepts prints the error line, and the loop goes on. |
| LegacyProgram.BinaryToGuid | Converters/BinaryToGuidConverter.cs:9-21 | Decodes the whole input. Non-null exactly when `FromBase64String` succeeds with exactly 16 bytes; the text is lower-case 8-4-4-4-12. |
| LegacyProgram.EmptyInputRefused | Converters/BinaryToGuidConverter.cs:13-20 | The empty input gives null. |
| LegacyProgram.SurroundingTextRefused | Converters/BinaryToGuidConverter.cs:13 | Any character outside the alphabet, `=` and whitespace makes the conversion fail: there is no substring search. |
| LegacyProgram.AgreesOnBareWindow | Converters/BinaryToGuidConverter.cs:13-15 | On a bare 22-character-plus-`==` input the legacy and service Base64 converters agree. |
| LegacyProgram.GuidToBinary | Converters/GuidToBinaryConverter.cs:9-14 | Non-null exactly when `Guid.TryParse` succeeds. The payload is a 24-character Base64 window that decodes to the parsed GUID's byte array. |
| LegacyProgram.TryParseInput | Converters/HexToBinaryConverter.cs:11-20 | The legacy Hex converter agrees with the service Hex converter on every input. |
| LegacyProgram.Attempts | Program.cs:22-24 | Every converter's answer, in discovery order, with no sort. |
| LegacyProgram.Outcome | Program.cs:22-28 | An input gets a result line exactly when some converter in discovery order accepts it. The line is `Out: result` for the first converter that accepts, every earlier one having refused. |
| LegacyProgram.ResultLinesAre | Program.cs:16-29 | The printed results belong to the longest run of accepted inputs from the start: result `i` is input `i`'s `Out: result` line, and the input after the run is refused by every converter. |
| LegacyProgram.LoopResults | Program.cs:16-29 | The session has one prompt and result line per accepted input, then the prompt before the read that stops it. Result line `i` sits at position `2i+1`. |
| LegacyProgram.StopsAtUnmatched | Program.cs:22-26 | An input nothing accepts ends the session after its prompt; later inputs are never read. |
| LegacyProgram.EmptyLineStops | Program.cs:19-26 | An empty line is an ordinary input, refused by every legacy converter, so it ends the session too. |
| LegacyProgram.LoopShape | Program.cs:16-29 | Prompts and `Out: result` lines alternate, starting and ending with a prompt. There are never more result lines than inputs. |
| RoundTrips.GuidToBinaryToGuid | Services/Converters/BinaryToGuidConverter.cs:28-34 | GUID text converted to `BinData` and back gives the GUID text lower-cased, under either Base64 reading. |
| RoundTrips.BinaryToGuidToBinary | Services/Converters/GuidToBinaryConverter.cs:13-16 | A canonical Base64 GUID converted to text and back gives `BinData` around the same Base64 text. |
| RoundTrips.PayloadIsLeftmostWindow | Services/Converters/BinaryToGuidConverter.cs:28-31 | Inside `BinData(3, '<payload>')` the leftmost Base64 window is the payload. |
| Scan.FindWindow | Services/Converters/ObjectIdConverter.cs:26 | `Regex.Match` for a fixed-width pattern: the smallest start of a matching window, none exactly when no window matches. |
| Scan.MatchValueLower | Services/Converters/ObjectIdConverter.cs:26-29 | For a pattern blind to letter case, the match in the lower-cased text is the lower-cased match. |
| Base64.EncodeShape | Services/Converters/GuidToBinaryConverter.cs:16 | `Convert.ToBase64String` output is alphabet characters followed by exactly the padding the byte count calls for. |
| Base64.EncodeDecode | Services/Converters/GuidToBinaryConverter.cs:16 | Decoding what `Convert.ToBase64String` wrote gives the bytes back, under either reading. |
| Base64.DecodeSucceedsIff | Services/Converters/BinaryToGuidConverter.cs:32 | `Convert.FromBase64String` throws exactly on text that is not well formed. |
| Base64.DecodeEncode | Services/Converters/BinaryToGuidConverter.cs:32 | Re-encoding decoded canonical text gives the text back. |
| Base64.FromBase64String | Converters/BinaryToGuidConverter.cs:13 | Whitespace is skipped, and decoding succeeds exactly when the rest is well formed. |
| Hex.FromToHex | Services/Converters/HexToBinaryConverter.cs:29 | Reading back the lower-case rendering of bytes gives the bytes. |
| Hex.ToFromHex | Services/Converters/HexToBinaryConverter.cs:29 | Rendering the bytes `Convert.FromHexString` read gives the digits lower-cased. |
| Hex.FromHexLower | Services/Converters/HexToBinaryConverter.cs:29 | `Convert.FromHexString` ignores the case of the digits. |
| SystemGuid.FromBytesOfToByteArray | Services/Converters/BinaryToGuidConverter.cs:33 | `new Guid(g.ToByteArray())` is `g`. |
| SystemGuid.ToByteArrayOfFromBytes | Services/Converters/HexToBinaryConverter.cs:29-30 | `new Guid(bytes).ToByteArray()` is `bytes`: the byte layout is a bijection. |
| SystemGuid.ParseOfToString | Services/Converters/GuidToBinaryConverter.cs:15 | Parsing the text `ToString()` wrote gives the same GUID. |
| SystemGuid.ToStringOfParse | Services/Converters/BinaryToGuidConverter.cs:34 | Printing a parsed GUID text gives the text lower-cased. |
| SystemGuid.ToByteArrayOfParse | Services/Converters/GuidToBinaryConverter.cs:15-16 | The byte array of a parsed GUID is the bytes its text spells, with the first three groups reversed. |
| SystemGuid.ToStringOfFromBytes | Services/Converters/BinaryToGuidConverter.cs:33-34 | The text of a GUID built from 16 bytes shows bytes 3..0, 5..4, 7..6, then 8..15. |
| SystemGuid.FieldSwapTwice | Services/Converters/GuidToBinaryConverter.cs:16 | The .NET field swap undone by itself gives the bytes back. |
| SystemGuid.ParseOfLower | Services/Converters/GuidToBinaryConverter.cs:15 | `Guid.TryParse` ignores the case of the digits. |
| Sorting.SortBy | Services/Converters/Converters.cs:22 | `OrderBy`: a permutation of the input, sorted by the key. |
| Sorting.SortByStable | Services/Converters/Converters.cs:22 | Within each key the sorted sequence lists the elements in input order. |
| StringReader.ReadJoined | SystemTray/ConvertClipboardCommand.cs:112-125 | Lines joined with a splitter and a terminator read back with `ReadLine` as the lines, each but the last carrying the splitter. This needs a non-empty last line. |
| StringReader.ReadLines | SystemTray/ConvertClipboardCommand.cs:112-125 | `ReadLine` until null: no lines exactly for the empty text, and no line holds a terminator. |
| Text.ParseNatToString | SystemTray/ConvertClipboardCommand.cs:91 | The decimal text of a count reads back as the count, so the title shows the numbers themselves. |

## Left out

- `SystemTray/Program.cs`: it sets up the tray icon and menu, and none of it is conversion logic.
- `NotifyIcon.ShowBalloonTip`, `BalloonTimeout` and the TextCopy clipboard reads and writes. `Execute` returns the title, text and new clipboard text instead of performing these effects.
- Console I/O and `TextCopy.ClipboardService.SetText` in `Console/Program.cs`. They become events of a transcript, and running out of inputs stands for `ReadLine` returning null.
- Reflection-based discovery (`Services/Converters/Converters.cs:18-21`, `Program.cs:34-38`). The discovered sequence is an input.
- `ICommand` plumbing (`CanExecute`, `CanExecuteChanged`), which does no conversion.
- General regular expressions. Each converter's pattern matches one fixed width, so a leftmost fixed-width window scan is exactly what `Regex.Match` finds for it.
- Unicode case mapping. `ToLowerInvariant` is modelled on ASCII letters only; the patterns admit only ASCII hex digits, so the converters' outputs are unaffected.
- LegacyProgram.GuidToBinary: stated over the `guidTryParse` parameter, because `Converters/GuidToBinaryConverter.cs` leaves the input grammar to `Guid.TryParse`. That grammar accepts braces, parentheses, the 32-digit form and surrounding whitespace, and is not part of this model.
- LegacyProgram.EmptyLineStops: assumes the given `Guid.TryParse` refuses the empty text, as the .NET one does.
- `Convert.FromBase64String` leniency beyond skipping whitespace, and which reading of stray pad bits .NET follows: both readings are modelled through `strictPadding`.
- RoundTrips.BinaryToGuidToBinary: proved only for canonical payloads, whose unused bits are zero. Under the lenient reading a payload with stray bits turns into a GUID whose `BinData` shows different Base64 text.
- ConvertClipboardCommand.ClipboardReadsBack: needs a non-empty last converted line, because `ReadLine` reports no line for text that ends in a terminator.
- ConvertClipboardCommand.StatisticsTiesKeepOrder: assumes that the `Dictionary` built by `ToDictionary` (`SystemTray/ConvertClipboardCommand.cs:55`) enumerates its entries in insertion order, so that `OrderByDescending` (lines 137-139) keeps converter order among equal counts. .NET does not document this order; it holds for a dictionary that is only added to.

The model follows the code on four points of behaviour:

- `Services/Converters/GuidToBinaryConverter.cs` defines no `Order`, and `IConverter` (`Services/Converters/IConverter.cs:3-9`) declares none, so the GUID-text converter's order is a parameter.
- The balloon text is the full tip text, with no truncation (`SystemTray/ConvertClipboardCommand.cs:87-93`).
- A whitespace-only clipboard splits into lines that no converter matches, which gives the "no convertible strings" notice.
- `NoMatches` carries no clipboard text, because `Execute` stops before joining the converted lines.
