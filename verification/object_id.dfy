/**
  `Services/Converters/ObjectIdConverter`: finds the leftmost run of 24 hex digits and
  prints it lower-cased inside `ObjectId('…')`.
*/
module ObjectIdConverter {
  import opened Wrappers
  import opened Text
  import opened Hex
  import opened Scan
  import opened Literals

  const Order: int := 3
  const InputTypeName: string := "ObjectId string"
  const OutputTypeName: string := "ObjectId"
  const PreferredSplitter: string := ","

  predicate IsHex24(w: string) {
    |w| == 24 && IsHexString(w)
  }

  /**
    `TryParseInput`: `None` exactly when no 24-digit hex run occurs; otherwise the
    literal holds that run's digits, lower-cased.
  */
  function TryParseInput(input: string): (r: Option<string>)
    ensures r.Some? <==> MatchValue(input, 24, IsHex24).Some?
    ensures r.Some? ==> |r.value| == 36 && r.value == ObjectId(r.value[10..34])
    ensures r.Some? ==> IsLowerHexString(r.value[10..34]) && IsHex24(r.value[10..34])
    ensures r.Some? ==> forall i :: 0 <= i < 24 ==>
      r.value[10 + i] == LowerChar(MatchValue(input, 24, IsHex24).value[i])
  {
    match MatchValue(input, 24, IsHex24)
    case None => None
    case Some(m) =>
      LowerHexString(m);
      forall i | 0 <= i < 24
        ensures IsLowerHexDigit(Lower(m)[i])
      {
        DigitValueOfLower(m[i]);
      }
      Some(ObjectId(Lower(m)))
  }

  lemma PatternIgnoresCase()
    ensures Scan.IgnoresCase(24, IsHex24)
  {
    forall w | |w| == 24
      ensures IsHex24(Lower(w)) <==> IsHex24(w)
    {
      HexStringIgnoresCase(w);
    }
  }

  /** Upper- and lower-case digits give the same literal. */
  lemma MatchLower(input: string)
    ensures MatchValue(input, 24, IsHex24).None? ==> MatchValue(Lower(input), 24, IsHex24).None?
    ensures MatchValue(input, 24, IsHex24).Some? ==>
      MatchValue(Lower(input), 24, IsHex24) == Some(Lower(MatchValue(input, 24, IsHex24).value))
  {
    PatternIgnoresCase();
    MatchValueLower(input, 24, IsHex24);
  }

  lemma IgnoresCase(input: string)
    ensures TryParseInput(Lower(input)) == TryParseInput(input)
  {
    MatchLower(input);
    if MatchValue(input, 24, IsHex24).Some? {
      var m := MatchValue(input, 24, IsHex24).value;
      assert Lower(Lower(m)) == Lower(m);
    }
  }

  /**
    Converting an output again gives the same output: the quote before the digits
    keeps every window that starts inside `ObjectId('` from matching.
  */
  lemma Idempotent(input: string)
    requires TryParseInput(input).Some?
    ensures TryParseInput(TryParseInput(input).value) == TryParseInput(input)
  {
    var r := TryParseInput(input).value;
    forall j | 0 <= j < 10
      ensures !MatchesAt(r, j, 24, IsHex24)
    {
      assert r[j..j + 24][9 - j] == r[9] == '\'';
    }
    assert r[10..34] == r[10..10 + 24];
    FindWindowIs(r, 24, IsHex24, 10);
    LowerOfLowerHex(r[10..34]);
  }
}
