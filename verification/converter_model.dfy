/**
  `Services/Converters/IConverter`: the four converters of the service library as one
  datatype, with the metadata each class declares and its `TryParseInput`.
  The GUID-text converter declares no `Order`, so its value is carried as a field.
*/
module ConverterModel {
  import opened Wrappers
  import opened Text
  import opened Hex
  import opened SystemGuid
  import opened Scan
  import opened Dispatch
  import Literals
  import BinaryToGuidConverter
  import GuidToBinaryConverter
  import HexToBinaryConverter
  import ObjectIdConverter

  datatype Converter =
    | BinaryToGuid
    | GuidToBinary(guidOrder: int)
    | HexToBinary
    | ObjectId
  {
    function Order(): int {
      match this
      case BinaryToGuid => BinaryToGuidConverter.Order
      case GuidToBinary(o) => o
      case HexToBinary => HexToBinaryConverter.Order
      case ObjectId => ObjectIdConverter.Order
    }

    function InputTypeName(): string {
      match this
      case BinaryToGuid => BinaryToGuidConverter.InputTypeName
      case GuidToBinary(_) => GuidToBinaryConverter.InputTypeName
      case HexToBinary => HexToBinaryConverter.InputTypeName
      case ObjectId => ObjectIdConverter.InputTypeName
    }

    function OutputTypeName(): string {
      match this
      case BinaryToGuid => BinaryToGuidConverter.OutputTypeName
      case GuidToBinary(_) => GuidToBinaryConverter.OutputTypeName
      case HexToBinary => HexToBinaryConverter.OutputTypeName
      case ObjectId => ObjectIdConverter.OutputTypeName
    }

    function PreferredSplitter(): string {
      match this
      case BinaryToGuid => BinaryToGuidConverter.PreferredSplitter
      case GuidToBinary(_) => GuidToBinaryConverter.PreferredSplitter
      case HexToBinary => HexToBinaryConverter.PreferredSplitter
      case ObjectId => ObjectIdConverter.PreferredSplitter
    }

    /**
      Every answer is a single non-empty line, so a batch of answers can be joined
      with line breaks and split again.
    */
    function TryParseInput(input: string, strictPadding: bool): (r: Option<string>)
      ensures r.Some? ==> r.value != "" && HasNoLineBreak(r.value)
    {
      match this
      case BinaryToGuid =>
        var r := BinaryToGuidConverter.TryParseInput(input, strictPadding);
        if r.Some? then
          assert forall i :: 0 <= i < |r.value| ==> r.value[i] == '-' || IsHexDigit(r.value[i]);
          r
        else r
      case GuidToBinary(_) =>
        var r := GuidToBinaryConverter.TryParseInput(input);
        if r.Some? then BinDataIsOneLine(r.value[12..36]); r else r
      case HexToBinary =>
        var r := HexToBinaryConverter.TryParseInput(input);
        if r.Some? then BinDataIsOneLine(r.value[12..36]); r else r
      case ObjectId =>
        var r := ObjectIdConverter.TryParseInput(input);
        if r.Some? then
          assert r.value == "ObjectId('" + r.value[10..34] + "')";
          r
        else r
    }
  }

  /**
    The metadata each class declares: order, input name, output name, preferred
    splitter. The GUID-text converter's order is whatever it was given.
  */
  lemma DeclaredMetadata(guidOrder: int)
    ensures BinaryToGuid.Order() == 0 && BinaryToGuid.InputTypeName() == "Base64"
      && BinaryToGuid.OutputTypeName() == ".NET GUID" && BinaryToGuid.PreferredSplitter() == ""
    ensures GuidToBinary(guidOrder).Order() == guidOrder && GuidToBinary(guidOrder).InputTypeName() == "GUID"
      && GuidToBinary(guidOrder).OutputTypeName() == "MongoDB binary" && GuidToBinary(guidOrder).PreferredSplitter() == ","
    ensures HexToBinary.Order() == 2 && HexToBinary.InputTypeName() == "Hex"
      && HexToBinary.OutputTypeName() == "MongoDB binary" && HexToBinary.PreferredSplitter() == ","
    ensures ObjectId.Order() == 3 && ObjectId.InputTypeName() == "ObjectId string"
      && ObjectId.OutputTypeName() == "ObjectId" && ObjectId.PreferredSplitter() == ","
  {
  }

  /** A `BinData` literal around a Base64 window is one line. */
  lemma BinDataIsOneLine(payload: string)
    requires BinaryToGuidConverter.IsBase64Window(payload)
    ensures Literals.BinData(payload) != "" && HasNoLineBreak(Literals.BinData(payload))
  {
    assert Literals.BinData(payload) == "BinData(3, '" + payload + "')";
  }

  /** Every converter's answer for one input line, in collection order. */
  function Attempts(converters: seq<Converter>, input: string, strictPadding: bool): (rs: seq<Option<string>>)
    ensures |rs| == |converters|
    ensures forall i :: 0 <= i < |converters| ==> rs[i] == converters[i].TryParseInput(input, strictPadding)
  {
    seq(|converters|, i requires 0 <= i < |converters| => converters[i].TryParseInput(input, strictPadding))
  }

  /**
    `FirstOrDefault(x => x.Result != null)`: the earliest converter in the collection
    whose answer is not null, and its answer.
  */
  function FirstMatch(converters: seq<Converter>, input: string, strictPadding: bool): (r: Option<Match>)
    ensures r.None? <==> forall i :: 0 <= i < |converters| ==> converters[i].TryParseInput(input, strictPadding).None?
    ensures r.Some? ==> r.value.index < |converters|
    ensures r.Some? ==> converters[r.value.index].TryParseInput(input, strictPadding) == Some(r.value.output)
    ensures r.Some? ==> forall i :: 0 <= i < r.value.index ==> converters[i].TryParseInput(input, strictPadding).None?
    ensures r.Some? ==> r.value.output != "" && HasNoLineBreak(r.value.output)
  {
    var r := FirstSome(Attempts(converters, input, strictPadding));
    if r.Some? then
      assert Attempts(converters, input, strictPadding)[r.value.index] == Some(r.value.output);
      r
    else r
  }
}
