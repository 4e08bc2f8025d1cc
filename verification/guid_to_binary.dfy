/**
  `Services/Converters/GuidToBinaryConverter`: finds the leftmost 8-4-4-4-12 GUID text
  and prints `BinData(3, '…')` around the Base64 of the GUID's .NET byte array.
*/
module GuidToBinaryConverter {
  import opened Wrappers
  import opened Bytes
  import opened Text
  import opened Base64
  import opened SystemGuid
  import opened Scan
  import opened Literals
  import BinaryToGuidConverter

  // The class declares no `Order`; see `ConverterModel.GuidToBinary`.
  const InputTypeName: string := "GUID"
  const OutputTypeName: string := "MongoDB binary"
  const PreferredSplitter: string := ","

  /**
    `TryParseInput`: `None` exactly when no GUID text occurs (`Guid.TryParse` accepts
    every text of the pattern). Otherwise a `BinData` literal whose payload is a
    24-character Base64 window with no stray pad bits.
  */
  function TryParseInput(input: string): (r: Option<string>)
    ensures r.Some? <==> MatchValue(input, 36, IsGuidText).Some?
    ensures r.Some? ==> |r.value| == 38 && r.value == BinData(r.value[12..36])
    ensures r.Some? ==> BinaryToGuidConverter.IsBase64Window(r.value[12..36])
    ensures r.Some? ==> Canonical(r.value[12..36])
  {
    match MatchValue(input, 36, IsGuidText)
    case None => None
    case Some(m) =>
      var bytes := ToByteArray(Parse(m));
      BinaryToGuidConverter.EncodedGuidIsWindow(bytes);
      Some(BinData(Encode(bytes)))
  }

  /**
    The payload decodes to the bytes the text spells, with the first three groups
    reversed byte by byte (the .NET mixed-endian layout).
  */
  lemma PayloadBytes(input: string, strictPadding: bool)
    requires TryParseInput(input).Some?
    ensures MatchValue(input, 36, IsGuidText).Some?
    ensures Decode(TryParseInput(input).value[12..36], strictPadding)
      == Some(FieldSwap(TextBytes(MatchValue(input, 36, IsGuidText).value)))
  {
    var m := MatchValue(input, 36, IsGuidText).value;
    ToByteArrayOfParse(m);
    EncodeDecode(ToByteArray(Parse(m)), strictPadding);
  }

  /** Upper- and lower-case digits give the same literal. */
  lemma IgnoresCase(input: string)
    ensures TryParseInput(Lower(input)) == TryParseInput(input)
  {
    forall w | |w| == 36
      ensures IsGuidText(Lower(w)) <==> IsGuidText(w)
    {
      GuidTextIgnoresCase(w);
    }
    MatchValueLower(input, 36, IsGuidText);
    if MatchValue(input, 36, IsGuidText).Some? {
      ParseOfLower(MatchValue(input, 36, IsGuidText).value);
    }
  }

  /** Only the leftmost GUID text counts: text around it and later GUIDs are ignored. */
  lemma OnlyLeftmostMatch(input: string)
    requires MatchValue(input, 36, IsGuidText).Some?
    ensures TryParseInput(input) == TryParseInput(MatchValue(input, 36, IsGuidText).value)
  {
    MatchValueOfMatch(MatchValue(input, 36, IsGuidText).value, 36, IsGuidText);
  }
}
