/**
  The two GUID converters undo each other: the `BinData` payload printed for a GUID
  text reads back as the same GUID, and a canonical Base64 GUID printed as text turns
  back into the same payload.
*/
module RoundTrips {
  import opened Wrappers
  import opened Text
  import opened Bytes
  import opened Base64
  import opened SystemGuid
  import opened Scan
  import opened Literals
  import BinaryToGuidConverter
  import GuidToBinaryConverter

  /** Inside `BinData(3, '<window>')` the leftmost Base64 window is the payload. */
  lemma PayloadIsLeftmostWindow(payload: string)
    requires BinaryToGuidConverter.IsBase64Window(payload)
    ensures MatchValue(BinData(payload), 24, BinaryToGuidConverter.IsBase64Window) == Some(payload)
  {
    var r := BinData(payload);
    assert r[11] == '\'';
    forall j | 0 <= j < 12
      ensures !MatchesAt(r, j, 24, BinaryToGuidConverter.IsBase64Window)
    {
      assert r[j..j + 24][11 - j] == r[11];
    }
    assert r[12..12 + 24] == payload;
    FindWindowIs(r, 24, BinaryToGuidConverter.IsBase64Window, 12);
  }

  /**
    GUID text to `BinData` and back gives the GUID text, lower-cased, whichever
    padding policy the decoder follows.
  */
  lemma GuidToBinaryToGuid(input: string, strictPadding: bool)
    requires MatchValue(input, 36, IsGuidText).Some?
    ensures GuidToBinaryConverter.TryParseInput(input).Some?
    ensures BinaryToGuidConverter.TryParseInput(GuidToBinaryConverter.TryParseInput(input).value, strictPadding)
      == Some(Lower(MatchValue(input, 36, IsGuidText).value))
  {
    var t := MatchValue(input, 36, IsGuidText).value;
    var bytes := ToByteArray(Parse(t));
    var payload := Encode(bytes);
    BinaryToGuidConverter.EncodedGuidIsWindow(bytes);
    PayloadIsLeftmostWindow(payload);
    EncodeDecode(bytes, strictPadding);
    FromBytesOfToByteArray(Parse(t));
    ToStringOfParse(t);
  }

  /**
    A Base64 GUID whose unused bits are zero, printed as GUID text and converted back,
    gives `BinData` around the same Base64 text.
  */
  lemma BinaryToGuidToBinary(w: string, strictPadding: bool)
    requires BinaryToGuidConverter.IsBase64Window(w) && BinaryToGuidConverter.ZeroPadBits(w)
    ensures BinaryToGuidConverter.TryParseInput(w, strictPadding).Some?
    ensures GuidToBinaryConverter.TryParseInput(BinaryToGuidConverter.TryParseInput(w, strictPadding).value)
      == Some(BinData(w))
  {
    var bin := GuidOfWindow(w, strictPadding);
    BinDataOfGuidText(FromBytes(bin));
    ToByteArrayOfFromBytes(bin);
  }

  /** A canonical window read as a GUID: the GUID of the 16 bytes it encodes, whose encoding is the window. */
  lemma GuidOfWindow(w: string, strictPadding: bool) returns (bin: seq<byte>)
    requires BinaryToGuidConverter.IsBase64Window(w) && BinaryToGuidConverter.ZeroPadBits(w)
    ensures |bin| == 16 && Encode(bin) == w
    ensures BinaryToGuidConverter.TryParseInput(w, strictPadding) == Some(ToString(FromBytes(bin)))
  {
    MatchValueOfMatch(w, 24, BinaryToGuidConverter.IsBase64Window);
    BinaryToGuidConverter.DecodeWindow(w, strictPadding);
    bin := Decode(w, strictPadding).value;
    DecodeCanonical(w, strictPadding);
    DecodeEncode(w, strictPadding);
  }

  /** The text of a GUID converts to `BinData` around the Base64 of its byte array. */
  lemma BinDataOfGuidText(g: Guid)
    ensures GuidToBinaryConverter.TryParseInput(ToString(g)) == Some(BinData(Encode(ToByteArray(g))))
  {
    MatchValueOfMatch(ToString(g), 36, IsGuidText);
    ParseOfToString(g);
  }
}
