/**
  `Services/Converters/Converters.Get`: the discovered converters sorted by `Order`
  with a stable sort. Discovery by reflection is the input sequence.
*/
module Converters {
  import opened Wrappers
  import opened Scan
  import opened Sorting
  import opened ConverterModel
  import HexToBinaryConverter
  import ObjectIdConverter

  function OrderKey(c: Converter): int {
    c.Order()
  }

  /** Non-decreasing `Order`, and the same converters as discovered. */
  function Get(discovered: seq<Converter>): (r: seq<Converter>)
    ensures |r| == |discovered|
    ensures multiset(r) == multiset(discovered)
    ensures forall i, j :: 0 <= i < j < |r| ==> r[i].Order() <= r[j].Order()
  {
    SortBy(discovered, OrderKey)
  }

  /** Converters of equal `Order` stay in discovery order. */
  lemma GetStable(discovered: seq<Converter>, order: int)
    ensures WithKey(Get(discovered), OrderKey, order) == WithKey(discovered, OrderKey, order)
  {
    SortByStable(discovered, OrderKey, order);
  }

  /** Discovery already in `Order` order is kept as it is. */
  lemma GetOfSorted(discovered: seq<Converter>)
    requires forall i, j :: 0 <= i < j < |discovered| ==> discovered[i].Order() <= discovered[j].Order()
    ensures Get(discovered) == discovered
  {
    SortByOfSorted(discovered, OrderKey);
  }

  /** With the declared orders 0, 2 and 3: Base64 before Hex before ObjectId. */
  lemma DeclaredOrder(discovered: seq<Converter>, i: nat, j: nat)
    requires i < |Get(discovered)| && j < |Get(discovered)|
    ensures Get(discovered)[i] == BinaryToGuid && Get(discovered)[j] == HexToBinary ==> i < j
    ensures Get(discovered)[i] == HexToBinary && Get(discovered)[j] == ObjectId ==> i < j
    ensures Get(discovered)[i] == BinaryToGuid && Get(discovered)[j] == ObjectId ==> i < j
  {
    var r := Get(discovered);
    if j < i {
      assert r[j].Order() <= r[i].Order();
    }
  }

  /** A 32-digit hex run always holds a 24-digit one, so the ObjectId converter would accept it too. */
  lemma ObjectIdAcceptsHexRun(input: string)
    requires MatchValue(input, 32, HexToBinaryConverter.IsHex32).Some?
    ensures ObjectIdConverter.TryParseInput(input).Some?
  {
    var i := FindWindow(input, 32, HexToBinaryConverter.IsHex32).value;
    assert input[i..i + 24] == input[i..i + 32][..24];
    assert MatchesAt(input, i, 24, ObjectIdConverter.IsHex24);
  }

  /**
    In the registry's order a line holding a 32-digit hex run is never answered by
    the ObjectId converter: the Hex converter comes earlier and accepts it.
  */
  lemma HexRunNeverObjectId(discovered: seq<Converter>, input: string, strictPadding: bool)
    requires HexToBinary in discovered
    requires MatchValue(input, 32, HexToBinaryConverter.IsHex32).Some?
    ensures FirstMatch(Get(discovered), input, strictPadding).Some?
    ensures Get(discovered)[FirstMatch(Get(discovered), input, strictPadding).value.index] != ObjectId
  {
    var r := Get(discovered);
    assert HexToBinary in multiset(r);
    var h :| 0 <= h < |r| && r[h] == HexToBinary;
    assert r[h].TryParseInput(input, strictPadding).Some?;
    var m := FirstMatch(r, input, strictPadding).value;
    if r[m.index] == ObjectId {
      DeclaredOrder(discovered, h, m.index);
      assert false;
    }
  }
}
