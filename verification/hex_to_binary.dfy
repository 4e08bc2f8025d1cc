/**
  `Services/Converters/HexToBinaryConverter`: finds the leftmost run of 32 hex digits,
  reads it as 16 bytes, builds a GUID from them and prints `BinData(3, '…')` around
  the Base64 of that GUID's byte array.
*/
module HexToBinaryConverter {
  import opened Wrappers
  import opened Bytes
  import opened Text
  import opened Hex
  import opened Base64
  import opened SystemGuid
  import opened Scan
  import opened Literals
  import BinaryToGuidConverter

  const Order: int := 2
  const InputTypeName: string := "Hex"
  const OutputTypeName: string := "MongoDB binary"
  const PreferredSplitter: string := ","

  predicate IsHex32(w: string) {
    |w| == 32 && IsHexString(w)
  }

  /**
    `TryParseInput`: `None` exactly when no 32-digit hex run occurs; otherwise a
    `BinData` literal whose payload is a canonical 24-character Base64 window.
  */
  function TryParseInput(input: string): (r: Option<string>)
    ensures r.Some? <==> MatchValue(input, 32, IsHex32).Some?
    ensures r.Some? ==> |r.value| == 38 && r.value == BinData(r.value[12..36])
    ensures r.Some? ==> BinaryToGuidConverter.IsBase64Window(r.value[12..36])
    ensures r.Some? ==> Canonical(r.value[12..36])
  {
    match MatchValue(input, 32, IsHex32)
    case None => None
    case Some(m) =>
      var bytes := ToByteArray(FromBytes(FromHex(m)));
      BinaryToGuidConverter.EncodedGuidIsWindow(bytes);
      Some(BinData(Encode(bytes)))
  }

  /**
    Going through `new Guid(bytes)` and back changes nothing: the payload decodes to
    the hex digits' bytes in the order written, unlike the GUID-text converter.
  */
  lemma PayloadBytes(input: string, strictPadding: bool)
    requires TryParseInput(input).Some?
    ensures MatchValue(input, 32, IsHex32).Some?
    ensures Decode(TryParseInput(input).value[12..36], strictPadding)
      == Some(FromHex(MatchValue(input, 32, IsHex32).value))
  {
    var m := MatchValue(input, 32, IsHex32).value;
    ToByteArrayOfFromBytes(FromHex(m));
    EncodeDecode(FromHex(m), strictPadding);
  }

  lemma PatternIgnoresCase()
    ensures Scan.IgnoresCase(32, IsHex32)
  {
    forall w | |w| == 32
      ensures IsHex32(Lower(w)) <==> IsHex32(w)
    {
      HexStringIgnoresCase(w);
    }
  }

  /** Upper- and lower-case digits give the same literal. */
  lemma MatchLower(input: string)
    ensures MatchValue(input, 32, IsHex32).None? ==> MatchValue(Lower(input), 32, IsHex32).None?
    ensures MatchValue(input, 32, IsHex32).Some? ==>
      MatchValue(Lower(input), 32, IsHex32) == Some(Lower(MatchValue(input, 32, IsHex32).value))
  {
    PatternIgnoresCase();
    MatchValueLower(input, 32, IsHex32);
  }

  lemma IgnoresCase(input: string)
    ensures TryParseInput(Lower(input)) == TryParseInput(input)
  {
    MatchLower(input);
    if MatchValue(input, 32, IsHex32).Some? {
      FromHexLower(MatchValue(input, 32, IsHex32).value);
    }
  }

  /** Only the leftmost run counts: text around it and later runs are ignored. */
  lemma OnlyLeftmostMatch(input: string)
    requires MatchValue(input, 32, IsHex32).Some?
    ensures TryParseInput(input) == TryParseInput(MatchValue(input, 32, IsHex32).value)
  {
    MatchValueOfMatch(MatchValue(input, 32, IsHex32).value, 32, IsHex32);
  }
}
