/**
  `Services/Converters/BinaryToGuidConverter`: finds the leftmost 22 Base64
  characters followed by `==`, decodes them to 16 bytes and prints the .NET GUID
  built from those bytes.
*/
module BinaryToGuidConverter {
  import opened Wrappers
  import opened Bytes
  import opened Hex
  import opened Base64
  import opened SystemGuid
  import opened Scan

  const Order: int := 0
  const InputTypeName: string := "Base64"
  const OutputTypeName: string := ".NET GUID"
  const PreferredSplitter: string := ""

  /** The pattern `[0-9A-Za-z+\/]{22}==`. */
  predicate IsBase64Window(w: string) {
    && |w| == 24
    && (forall i :: 0 <= i < 22 ==> IsBase64Char(w[i]))
    && w[22] == '=' && w[23] == '='
  }

  /** The four bits the last character before `==` carries beyond the 16th byte are zero. */
  predicate ZeroPadBits(w: string)
    requires IsBase64Window(w)
  {
    CharValue(w[21]) % 16 == 0
  }

  /** A window always decodes to 16 bytes, except that the strict reading refuses stray pad bits. */
  lemma DecodeWindow(w: string, strictPadding: bool)
    requires IsBase64Window(w)
    ensures Decode(w, strictPadding).Some? <==> (!strictPadding || ZeroPadBits(w))
    ensures Decode(w, strictPadding).Some? ==> |Decode(w, strictPadding).value| == 16
    ensures ZeroPadBits(w) <==> Canonical(w)
  {
    assert Padding(w) == 2;
    DecodeSucceedsIff(w, strictPadding);
    DecodeSucceedsIff(w, true);
  }

  /**
    `TryParseInput`: `None` when no window matches, or when the decoder refuses the
    window (`FormatException` caught). Otherwise the lower-case 8-4-4-4-12 text.
  */
  function TryParseInput(input: string, strictPadding: bool): (r: Option<string>)
    ensures MatchValue(input, 24, IsBase64Window).None? ==> r.None?
    ensures MatchValue(input, 24, IsBase64Window).Some? ==>
      (r.Some? <==> !strictPadding || ZeroPadBits(MatchValue(input, 24, IsBase64Window).value))
    ensures r.Some? ==> IsLowerGuidText(r.value)
  {
    match MatchValue(input, 24, IsBase64Window)
    case None => None
    case Some(w) =>
      DecodeWindow(w, strictPadding);
      match Decode(w, strictPadding)
      case None => None
      case Some(binary) =>
        if |binary| != 16 then None
        else Some(ToString(FromBytes(binary)))
  }

  /** Only the leftmost window counts: the answer is the one for that window alone. */
  lemma OnlyLeftmostWindow(input: string, strictPadding: bool)
    requires MatchValue(input, 24, IsBase64Window).Some?
    ensures TryParseInput(input, strictPadding)
      == TryParseInput(MatchValue(input, 24, IsBase64Window).value, strictPadding)
  {
    MatchValueOfMatch(MatchValue(input, 24, IsBase64Window).value, 24, IsBase64Window);
  }

  /**
    The text shows the decoded bytes 3, 2, 1, 0, then 5, 4, then 7, 6, then 8 to 15
    in order: the first three .NET fields are little-endian.
  */
  lemma OutputShowsSwappedBytes(input: string, strictPadding: bool)
    requires TryParseInput(input, strictPadding).Some?
    ensures MatchValue(input, 24, IsBase64Window).Some?
    ensures var bs := Decode(MatchValue(input, 24, IsBase64Window).value, strictPadding);
      && bs.Some? && |bs.value| == 16
      && TryParseInput(input, strictPadding).value == Hyphenate(
        ToHexLower(Reverse(bs.value[0..4])), ToHexLower(Reverse(bs.value[4..6])),
        ToHexLower(Reverse(bs.value[6..8])), ToHexLower(bs.value[8..10]), ToHexLower(bs.value[10..16]))
  {
    var w := MatchValue(input, 24, IsBase64Window).value;
    DecodeWindow(w, strictPadding);
    ToStringOfFromBytes(Decode(w, strictPadding).value);
  }

  /** `Convert.ToBase64String` of 16 bytes is always a canonical match of the pattern. */
  lemma EncodedGuidIsWindow(bs: seq<byte>)
    requires |bs| == 16
    ensures IsBase64Window(Encode(bs))
    ensures Canonical(Encode(bs)) && ZeroPadBits(Encode(bs))
  {
    EncodeShape(bs);
    assert PadFor(|bs|) == 2;
    EncodeDecode(bs, true);
    DecodeSucceedsIff(Encode(bs), true);
    DecodeWindow(Encode(bs), true);
  }
}
