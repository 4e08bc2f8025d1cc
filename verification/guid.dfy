/**
  `System.Guid` as .NET stores it: a 32-bit field `a`, two 16-bit fields `b` and `c`,
  and eight bytes `d`. The byte-array constructor and `ToByteArray` lay `a`, `b`, `c`
  out little-endian; `ToString()` (format "D") prints each field as a number, so the
  text shows the bytes of the first three fields reversed. The text form is the
  8-4-4-4-12 layout of section 4 of RFC 9562.
*/
module SystemGuid {
  import opened Bytes
  import opened Hex
  import opened Text

  datatype GuidFields = GuidFields(a: nat, b: nat, c: nat, d: seq<byte>)

  predicate ValidFields(g: GuidFields) {
    g.a < 0x1_0000_0000 && g.b < 0x1_0000 && g.c < 0x1_0000 && |g.d| == 8
  }

  type Guid = g: GuidFields | ValidFields(g) witness GuidFields(0, 0, 0, [0, 0, 0, 0, 0, 0, 0, 0])

  lemma PowValues()
    ensures Pow(256, 2) == 0x1_0000 && Pow(256, 4) == 0x1_0000_0000
    ensures Pow(16, 4) == 0x1_0000 && Pow(16, 8) == 0x1_0000_0000
  {
    assert Pow(256, 2) == 0x1_0000;
    assert Pow(256, 4) == 256 * (256 * Pow(256, 2));
    Pow256IsPow16(2);
    Pow256IsPow16(4);
  }

  /** The 8-4-4-4-12 text shape, hex digits of either case. */
  predicate IsGuidText(t: string) {
    && |t| == 36
    && t[8] == '-' && t[13] == '-' && t[18] == '-' && t[23] == '-'
    && forall i :: 0 <= i < 36 && i != 8 && i != 13 && i != 18 && i != 23 ==> IsHexDigit(t[i])
  }

  /** The shape `Guid.ToString()` produces: `IsGuidText` with lower-case digits only. */
  predicate IsLowerGuidText(t: string) {
    && IsGuidText(t)
    && forall i :: 0 <= i < 36 && i != 8 && i != 13 && i != 18 && i != 23 ==> IsLowerHexDigit(t[i])
  }

  function Hyphenate(p0: string, p1: string, p2: string, p3: string, p4: string): string {
    p0 + "-" + p1 + "-" + p2 + "-" + p3 + "-" + p4
  }

  lemma HyphenateShape(p0: string, p1: string, p2: string, p3: string, p4: string)
    requires |p0| == 8 && |p1| == 4 && |p2| == 4 && |p3| == 4 && |p4| == 12
    ensures var t := Hyphenate(p0, p1, p2, p3, p4);
      && |t| == 36
      && t[0..8] == p0 && t[9..13] == p1 && t[14..18] == p2 && t[19..23] == p3 && t[24..36] == p4
      && t[8] == '-' && t[13] == '-' && t[18] == '-' && t[23] == '-'
  {
  }

  /** A string with hyphens at 8, 13, 18 and 23 is its five groups joined by hyphens. */
  lemma SplitGroups(t: string)
    requires |t| == 36 && t[8] == '-' && t[13] == '-' && t[18] == '-' && t[23] == '-'
    ensures t == Hyphenate(t[0..8], t[9..13], t[14..18], t[19..23], t[24..36])
  {
    var h := Hyphenate(t[0..8], t[9..13], t[14..18], t[19..23], t[24..36]);
    HyphenateShape(t[0..8], t[9..13], t[14..18], t[19..23], t[24..36]);
    assert forall i :: 0 <= i < 36 ==> h[i] == t[i] by {
      forall i | 0 <= i < 36
        ensures h[i] == t[i]
      {
        if i < 8 {
          assert h[i] == h[0..8][i];
        } else if 9 <= i < 13 {
          assert h[i] == h[9..13][i - 9];
        } else if 14 <= i < 18 {
          assert h[i] == h[14..18][i - 14];
        } else if 19 <= i < 23 {
          assert h[i] == h[19..23][i - 19];
        } else if 24 <= i {
          assert h[i] == h[24..36][i - 24];
        }
      }
    }
  }

  /** The five groups of a GUID text, each a hex run. */
  lemma GuidTextGroups(t: string)
    requires IsGuidText(t)
    ensures IsHexString(t[0..8]) && IsHexString(t[9..13]) && IsHexString(t[14..18])
    ensures IsHexString(t[19..23]) && IsHexString(t[24..36])
    ensures IsHexString(t[19..23] + t[24..36])
  {
    assert forall i :: 0 <= i < 8 ==> t[0..8][i] == t[i];
    assert forall i :: 0 <= i < 4 ==> t[9..13][i] == t[9 + i];
    assert forall i :: 0 <= i < 4 ==> t[14..18][i] == t[14 + i];
    assert forall i :: 0 <= i < 4 ==> t[19..23][i] == t[19 + i];
    assert forall i :: 0 <= i < 12 ==> t[24..36][i] == t[24 + i];
  }

  /** `new Guid(byte[])` on a 16-byte array. */
  function FromBytes(bs: seq<byte>): (g: Guid)
    requires |bs| == 16
  {
    PowValues();
    GuidFields(FromLittleEndian(bs[0..4]), FromLittleEndian(bs[4..6]), FromLittleEndian(bs[6..8]), bs[8..16])
  }

  /** `Guid.ToByteArray()`. */
  function ToByteArray(g: Guid): (bs: seq<byte>)
    ensures |bs| == 16
  {
    ToLittleEndian(g.a, 4) + ToLittleEndian(g.b, 2) + ToLittleEndian(g.c, 2) + g.d
  }

  /** `Guid.ToString()`: format "D", lower-case. */
  function ToString(g: Guid): (t: string)
    ensures IsLowerGuidText(t)
  {
    var t := Hyphenate(HexNumber(g.a, 8), HexNumber(g.b, 4), HexNumber(g.c, 4), ToHexLower(g.d[..2]), ToHexLower(g.d[2..]));
    HyphenateShape(HexNumber(g.a, 8), HexNumber(g.b, 4), HexNumber(g.c, 4), ToHexLower(g.d[..2]), ToHexLower(g.d[2..]));
    assert forall i :: 0 <= i < 36 && i != 8 && i != 13 && i != 18 && i != 23 ==> IsLowerHexDigit(t[i]) by {
      forall i | 0 <= i < 36 && i != 8 && i != 13 && i != 18 && i != 23
        ensures IsLowerHexDigit(t[i])
      {
        if i < 8 {
          assert t[i] == t[0..8][i];
        } else if i < 13 {
          assert t[i] == t[9..13][i - 9];
        } else if i < 18 {
          assert t[i] == t[14..18][i - 14];
        } else if i < 23 {
          assert t[i] == t[19..23][i - 19];
        } else {
          assert t[i] == t[24..36][i - 24];
        }
      }
    }
    t
  }

  /** `Guid.TryParse` on text of the 8-4-4-4-12 shape, which always succeeds. */
  function Parse(t: string): (g: Guid)
    requires IsGuidText(t)
  {
    GuidTextGroups(t);
    PowValues();
    GuidFields(ParseHexNumber(t[0..8]), ParseHexNumber(t[9..13]), ParseHexNumber(t[14..18]), FromHex(t[19..23] + t[24..36]))
  }

  /** Constructing from `ToByteArray()` gives the same GUID. */
  lemma FromBytesOfToByteArray(g: Guid)
    ensures FromBytes(ToByteArray(g)) == g
  {
    PowValues();
    var bs := ToByteArray(g);
    assert bs[0..4] == ToLittleEndian(g.a, 4);
    assert bs[4..6] == ToLittleEndian(g.b, 2);
    assert bs[6..8] == ToLittleEndian(g.c, 2);
    assert bs[8..16] == g.d;
    FromToLittleEndian(g.a, 4);
    FromToLittleEndian(g.b, 2);
    FromToLittleEndian(g.c, 2);
  }

  /** `ToByteArray()` of a GUID built from 16 bytes gives those bytes: the layout is a bijection. */
  lemma ToByteArrayOfFromBytes(bs: seq<byte>)
    requires |bs| == 16
    ensures ToByteArray(FromBytes(bs)) == bs
  {
    ToFromLittleEndian(bs[0..4]);
    ToFromLittleEndian(bs[4..6]);
    ToFromLittleEndian(bs[6..8]);
    assert bs == bs[0..4] + bs[4..6] + bs[6..8] + bs[8..16];
  }

  /** Parsing the text `ToString()` wrote gives the same GUID. */
  lemma ParseOfToString(g: Guid)
    ensures Parse(ToString(g)) == g
  {
    PowValues();
    var p3, p4 := ToHexLower(g.d[..2]), ToHexLower(g.d[2..]);
    var t := ToString(g);
    HyphenateShape(HexNumber(g.a, 8), HexNumber(g.b, 4), HexNumber(g.c, 4), p3, p4);
    ParseHexNumberOf(g.a, 8);
    ParseHexNumberOf(g.b, 4);
    ParseHexNumberOf(g.c, 4);
    ToHexLowerAppend(g.d[..2], g.d[2..]);
    assert g.d[..2] + g.d[2..] == g.d;
    FromToHex(g.d);
  }

  /** Each field of a parsed GUID prints as its group of the text, lower-cased. */
  lemma ParsedGroups(t: string)
    requires IsGuidText(t)
    ensures var g := Parse(t);
      && HexNumber(g.a, 8) == Lower(t[0..8])
      && HexNumber(g.b, 4) == Lower(t[9..13])
      && HexNumber(g.c, 4) == Lower(t[14..18])
      && ToHexLower(g.d[..2]) == Lower(t[19..23])
      && ToHexLower(g.d[2..]) == Lower(t[24..36])
  {
    GuidTextGroups(t);
    var g := Parse(t);
    HexNumberOfParse(t[0..8]);
    HexNumberOfParse(t[9..13]);
    HexNumberOfParse(t[14..18]);
    FromHexAppend(t[19..23], t[24..36]);
    assert g.d[..2] == FromHex(t[19..23]) && g.d[2..] == FromHex(t[24..36]);
    ToFromHex(t[19..23]);
    ToFromHex(t[24..36]);
  }

  /** Lower-casing a GUID text lower-cases each group and keeps the hyphens. */
  lemma LowerGroups(t: string)
    requires IsGuidText(t)
    ensures Lower(t) == Hyphenate(Lower(t[0..8]), Lower(t[9..13]), Lower(t[14..18]), Lower(t[19..23]), Lower(t[24..36]))
  {
    var u := Lower(t);
    LowerSlice(t, 0, 8);
    LowerSlice(t, 9, 13);
    LowerSlice(t, 14, 18);
    LowerSlice(t, 19, 23);
    LowerSlice(t, 24, 36);
    SplitGroups(u);
  }

  /** Printing a parsed GUID gives the text back, lower-cased. */
  lemma ToStringOfParse(t: string)
    requires IsGuidText(t)
    ensures ToString(Parse(t)) == Lower(t)
  {
    ParsedGroups(t);
    LowerGroups(t);
  }

  /** The text of a GUID built from bytes shows bytes 3..0, 5..4, 7..6, then 8..15 in order. */
  lemma ToStringOfFromBytes(bs: seq<byte>)
    requires |bs| == 16
    ensures ToString(FromBytes(bs)) == Hyphenate(
      ToHexLower(Reverse(bs[0..4])), ToHexLower(Reverse(bs[4..6])), ToHexLower(Reverse(bs[6..8])),
      ToHexLower(bs[8..10]), ToHexLower(bs[10..16]))
  {
    HexNumberOfLittleEndian(bs[0..4]);
    HexNumberOfLittleEndian(bs[4..6]);
    HexNumberOfLittleEndian(bs[6..8]);
    assert bs[8..16][..2] == bs[8..10] && bs[8..16][2..] == bs[10..16];
  }

  /** The 16 bytes a GUID text spells, in the order its digits are written. */
  function TextBytes(t: string): (bs: seq<byte>)
    requires IsGuidText(t)
    ensures |bs| == 16
  {
    GuidTextGroups(t);
    FromHex(t[0..8]) + FromHex(t[9..13]) + FromHex(t[14..18]) + FromHex(t[19..23]) + FromHex(t[24..36])
  }

  /** The .NET mixed-endian permutation: bytes 0..3, 4..5 and 6..7 reversed, 8..15 kept. */
  function FieldSwap(bs: seq<byte>): (r: seq<byte>)
    requires |bs| == 16
    ensures |r| == 16
  {
    Reverse(bs[0..4]) + Reverse(bs[4..6]) + Reverse(bs[6..8]) + bs[8..16]
  }

  /** The four field groups of 16 bytes, taken apart. */
  lemma FieldParts(a: seq<byte>, b: seq<byte>, c: seq<byte>, d: seq<byte>)
    requires |a| == 4 && |b| == 2 && |c| == 2 && |d| == 8
    ensures var x := a + b + c + d;
      x[0..4] == a && x[4..6] == b && x[6..8] == c && x[8..16] == d
  {
  }

  /** The four field groups of 16 bytes, put back together. */
  lemma FieldJoin(bs: seq<byte>)
    requires |bs| == 16
    ensures bs == bs[0..4] + bs[4..6] + bs[6..8] + bs[8..16]
  {
  }

  lemma ReverseTwice(xs: seq<byte>)
    ensures Reverse(Reverse(xs)) == xs
  {
  }

  /** Swapping twice restores the bytes. */
  lemma FieldSwapTwice(bs: seq<byte>)
    requires |bs| == 16
    ensures FieldSwap(FieldSwap(bs)) == bs
  {
    FieldParts(Reverse(bs[0..4]), Reverse(bs[4..6]), Reverse(bs[6..8]), bs[8..16]);
    ReverseTwice(bs[0..4]);
    ReverseTwice(bs[4..6]);
    ReverseTwice(bs[6..8]);
    FieldJoin(bs);
  }

  /**
    The bytes of a parsed GUID are the bytes its text spells with the first three
    groups reversed: `ToByteArray` is not the written order.
  */
  lemma ToByteArrayOfParse(t: string)
    requires IsGuidText(t)
    ensures ToByteArray(Parse(t)) == FieldSwap(TextBytes(t))
  {
    GuidTextGroups(t);
    ToLittleEndianOfParse(t[0..8]);
    ToLittleEndianOfParse(t[9..13]);
    ToLittleEndianOfParse(t[14..18]);
    FromHexAppend(t[19..23], t[24..36]);
    FieldParts(FromHex(t[0..8]), FromHex(t[9..13]), FromHex(t[14..18]), FromHex(t[19..23]) + FromHex(t[24..36]));
    assert TextBytes(t) == FromHex(t[0..8]) + FromHex(t[9..13]) + FromHex(t[14..18]) + (FromHex(t[19..23]) + FromHex(t[24..36]));
  }

  /** `Guid.TryParse` ignores the case of the digits. */
  lemma ParseOfLower(t: string)
    requires IsGuidText(t)
    ensures IsGuidText(Lower(t))
    ensures Parse(Lower(t)) == Parse(t)
  {
    GuidTextGroups(t);
    var u := Lower(t);
    forall i | 0 <= i < 36 && i != 8 && i != 13 && i != 18 && i != 23
      ensures IsHexDigit(u[i])
    {
      DigitValueOfLower(t[i]);
    }
    assert u[0..8] == Lower(t[0..8]) && u[9..13] == Lower(t[9..13]) && u[14..18] == Lower(t[14..18]);
    assert u[19..23] + u[24..36] == Lower(t[19..23] + t[24..36]);
    ParseHexNumberLower(t[0..8]);
    ParseHexNumberLower(t[9..13]);
    ParseHexNumberLower(t[14..18]);
    FromHexLower(t[19..23] + t[24..36]);
  }

  /** The 8-4-4-4-12 pattern ignores letter case. */
  lemma GuidTextIgnoresCase(t: string)
    ensures IsGuidText(Lower(t)) <==> IsGuidText(t)
  {
    if |t| == 36 {
      forall i | 0 <= i < 36
        ensures IsHexDigit(Lower(t)[i]) <==> IsHexDigit(t[i])
        ensures Lower(t)[i] == '-' <==> t[i] == '-'
      {
        HexDigitIgnoresCase(t[i]);
      }
    }
  }
}
