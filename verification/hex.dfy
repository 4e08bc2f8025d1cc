/**
  Base16 as the converters use it: `Convert.FromHexString` (either case in, bytes out),
  lower-case rendering of bytes, and the fixed-width `x8`/`x4` rendering of a number
  that `Guid.ToString()` uses for its first three fields, with its inverse.
*/
module Hex {
  import opened Bytes
  import opened Text

  predicate IsHexDigit(c: char) {
    '0' <= c <= '9' || 'a' <= c <= 'f' || 'A' <= c <= 'F'
  }

  predicate IsHexString(s: string) {
    forall i :: 0 <= i < |s| ==> IsHexDigit(s[i])
  }

  predicate IsLowerHexDigit(c: char) {
    '0' <= c <= '9' || 'a' <= c <= 'f'
  }

  predicate IsLowerHexString(s: string) {
    forall i :: 0 <= i < |s| ==> IsLowerHexDigit(s[i])
  }

  function DigitValue(c: char): (v: nat)
    requires IsHexDigit(c)
    ensures v < 16
  {
    if '0' <= c <= '9' then c as int - '0' as int
    else if 'a' <= c <= 'f' then c as int - 'a' as int + 10
    else c as int - 'A' as int + 10
  }

  /** The lower-case digit for a value below 16; reading it back gives the value. */
  function LowerDigit(v: nat): (c: char)
    requires v < 16
    ensures IsLowerHexDigit(c) && IsHexDigit(c)
    ensures DigitValue(c) == v
  {
    if v < 10 then ('0' as int + v) as char else ('a' as int + v - 10) as char
  }

  /** Rendering a digit's value gives the digit, lower-cased. */
  lemma LowerDigitOfValue(c: char)
    requires IsHexDigit(c)
    ensures LowerDigit(DigitValue(c)) == LowerChar(c)
  {
  }

  /** Lower-casing a digit keeps it a digit of the same value. */
  lemma DigitValueOfLower(c: char)
    requires IsHexDigit(c)
    ensures IsHexDigit(LowerChar(c)) && DigitValue(LowerChar(c)) == DigitValue(c)
  {
  }

  lemma LowerHexString(s: string)
    requires IsHexString(s)
    ensures IsHexString(Lower(s))
  {
    forall i | 0 <= i < |s|
      ensures IsHexDigit(Lower(s)[i])
    {
      DigitValueOfLower(s[i]);
    }
  }

  /** The pattern `[0-9A-Fa-f]` ignores letter case. */
  lemma HexDigitIgnoresCase(c: char)
    ensures IsHexDigit(LowerChar(c)) <==> IsHexDigit(c)
  {
  }

  lemma HexStringIgnoresCase(s: string)
    ensures IsHexString(Lower(s)) <==> IsHexString(s)
  {
    forall i | 0 <= i < |s|
      ensures IsHexDigit(Lower(s)[i]) <==> IsHexDigit(s[i])
    {
      HexDigitIgnoresCase(s[i]);
    }
  }

  /** A hex string that is already lower case is unchanged by lower-casing. */
  lemma LowerOfLowerHex(s: string)
    requires IsLowerHexString(s)
    ensures Lower(s) == s
  {
  }

  function HexByte(b: byte): string {
    [LowerDigit(b / 16), LowerDigit(b % 16)]
  }

  /** Each byte as two lower-case hex digits, in order. */
  function ToHexLower(bs: seq<byte>): (s: string)
    ensures |s| == 2 * |bs|
    ensures IsLowerHexString(s) && IsHexString(s)
  {
    if |bs| == 0 then "" else HexByte(bs[0]) + ToHexLower(bs[1..])
  }

  lemma {:induction false} ToHexLowerAppend(a: seq<byte>, b: seq<byte>)
    ensures ToHexLower(a + b) == ToHexLower(a) + ToHexLower(b)
  {
    if |a| > 0 {
      assert (a + b)[0] == a[0] && (a + b)[1..] == a[1..] + b;
      ToHexLowerAppend(a[1..], b);
      calc {
        ToHexLower(a + b);
        HexByte(a[0]) + ToHexLower(a[1..] + b);
        HexByte(a[0]) + (ToHexLower(a[1..]) + ToHexLower(b));
        (HexByte(a[0]) + ToHexLower(a[1..])) + ToHexLower(b);
      }
    } else {
      assert a + b == b;
    }
  }

  /** `Convert.FromHexString`: each pair of digits, either case, is one byte. */
  function FromHex(s: string): (bs: seq<byte>)
    requires |s| % 2 == 0 && IsHexString(s)
    ensures |bs| == |s| / 2
  {
    if |s| == 0 then [] else [16 * DigitValue(s[0]) + DigitValue(s[1])] + FromHex(s[2..])
  }

  lemma {:induction false} FromHexAppend(a: string, b: string)
    requires |a| % 2 == 0 && IsHexString(a)
    requires |b| % 2 == 0 && IsHexString(b)
    ensures FromHex(a + b) == FromHex(a) + FromHex(b)
  {
    if |a| > 0 {
      assert (a + b)[0] == a[0] && (a + b)[1] == a[1] && (a + b)[2..] == a[2..] + b;
      FromHexAppend(a[2..], b);
    } else {
      assert a + b == b;
    }
  }

  /** Decoding the lower-case rendering gives the bytes back. */
  lemma {:induction false} FromToHex(bs: seq<byte>)
    ensures FromHex(ToHexLower(bs)) == bs
  {
    if |bs| > 0 {
      var s := ToHexLower(bs);
      assert s[2..] == ToHexLower(bs[1..]);
      FromToHex(bs[1..]);
    }
  }

  lemma HexByteOfDigits(hi: char, lo: char)
    requires IsHexDigit(hi) && IsHexDigit(lo)
    ensures HexByte(16 * DigitValue(hi) + DigitValue(lo)) == [LowerChar(hi), LowerChar(lo)]
  {
    var b := 16 * DigitValue(hi) + DigitValue(lo);
    assert b / 16 == DigitValue(hi) && b % 16 == DigitValue(lo);
    LowerDigitOfValue(hi);
    LowerDigitOfValue(lo);
  }

  /** Rendering the decoded bytes gives the input, lower-cased. */
  lemma {:induction false} ToFromHex(s: string)
    requires |s| % 2 == 0 && IsHexString(s)
    ensures ToHexLower(FromHex(s)) == Lower(s)
  {
    if |s| > 0 {
      var b: byte := 16 * DigitValue(s[0]) + DigitValue(s[1]);
      var bs := FromHex(s);
      assert bs == [b] + FromHex(s[2..]);
      assert bs[1..] == FromHex(s[2..]);
      HexByteOfDigits(s[0], s[1]);
      assert HexByte(b) == Lower(s[..2]);
      ToFromHex(s[2..]);
      assert s == s[..2] + s[2..];
      LowerAppend(s[..2], s[2..]);
    }
  }

  /** `Convert.FromHexString` ignores the case of the digits. */
  lemma {:induction false} FromHexLower(s: string)
    requires |s| % 2 == 0 && IsHexString(s)
    ensures IsHexString(Lower(s))
    ensures FromHex(Lower(s)) == FromHex(s)
  {
    LowerHexString(s);
    if |s| > 0 {
      DigitValueOfLower(s[0]);
      DigitValueOfLower(s[1]);
      assert Lower(s)[2..] == Lower(s[2..]);
      FromHexLower(s[2..]);
    }
  }

  /** The low `width` hex digits of `n`, most significant first (the `x8`/`x4` format). */
  function HexNumber(n: nat, width: nat): (s: string)
    ensures |s| == width
    ensures IsLowerHexString(s) && IsHexString(s)
  {
    if width == 0 then "" else HexNumber(n / 16, width - 1) + [LowerDigit(n % 16)]
  }

  /** The value of a run of hex digits, most significant first. */
  function ParseHexNumber(s: string): (n: nat)
    requires IsHexString(s)
    ensures n < Pow(16, |s|)
  {
    if |s| == 0 then 0 else 16 * ParseHexNumber(s[..|s| - 1]) + DigitValue(s[|s| - 1])
  }

  /** Reading back a rendering wide enough for the number gives the number. */
  lemma {:induction false} ParseHexNumberOf(n: nat, width: nat)
    requires n < Pow(16, width)
    ensures ParseHexNumber(HexNumber(n, width)) == n
  {
    if width > 0 {
      var s := HexNumber(n, width);
      assert s[..|s| - 1] == HexNumber(n / 16, width - 1);
      ParseHexNumberOf(n / 16, width - 1);
    }
  }

  /** Rendering the value of a hex run at its own width gives the run, lower-cased. */
  lemma {:induction false} HexNumberOfParse(s: string)
    requires IsHexString(s)
    ensures HexNumber(ParseHexNumber(s), |s|) == Lower(s)
  {
    if |s| > 0 {
      var init := s[..|s| - 1];
      var n := ParseHexNumber(s);
      assert n / 16 == ParseHexNumber(init) && n % 16 == DigitValue(s[|s| - 1]);
      HexNumberOfParse(init);
      LowerDigitOfValue(s[|s| - 1]);
      assert s == init + [s[|s| - 1]];
      LowerAppend(init, [s[|s| - 1]]);
    }
  }

  lemma {:induction false} ParseHexNumberLower(s: string)
    requires IsHexString(s)
    ensures IsHexString(Lower(s))
    ensures ParseHexNumber(Lower(s)) == ParseHexNumber(s)
  {
    LowerHexString(s);
    if |s| > 0 {
      assert Lower(s)[..|s| - 1] == Lower(s[..|s| - 1]);
      DigitValueOfLower(s[|s| - 1]);
      ParseHexNumberLower(s[..|s| - 1]);
    }
  }

  /** Splitting off the low byte of a number splits off the last two digits of its rendering. */
  lemma HexNumberLowByte(x: byte, y: nat, width: nat)
    ensures HexNumber(x + 256 * y, width + 2) == HexNumber(y, width) + HexByte(x)
  {
    var n := x + 256 * y;
    assert n / 16 == x / 16 + 16 * y && n % 16 == x % 16;
    var m := x / 16 + 16 * y;
    assert m / 16 == y && m % 16 == x / 16;
  }

  /**
    A little-endian number rendered at full width shows its bytes in reverse order:
    this is why `Guid.ToString()` shows the bytes of each of its first three fields reversed.
  */
  lemma {:induction false} HexNumberOfLittleEndian(bs: seq<byte>)
    ensures HexNumber(FromLittleEndian(bs), 2 * |bs|) == ToHexLower(Reverse(bs))
  {
    if |bs| > 0 {
      HexNumberOfLittleEndian(bs[1..]);
      HexNumberLowByte(bs[0], FromLittleEndian(bs[1..]), 2 * |bs[1..]|);
      ToHexLowerAppend(Reverse(bs[1..]), [bs[0]]);
      assert ToHexLower([bs[0]]) == HexByte(bs[0]);
    }
  }

  /** Reading a hex run as a number is reading its bytes as a big-endian number. */
  lemma {:induction false} ParseHexNumberAsLittleEndian(s: string)
    requires |s| % 2 == 0 && IsHexString(s)
    ensures ParseHexNumber(s) == FromLittleEndian(Reverse(FromHex(s)))
    decreases |s|
  {
    if |s| > 0 {
      var init := s[..|s| - 2];
      var b: byte := 16 * DigitValue(s[|s| - 2]) + DigitValue(s[|s| - 1]);
      assert s[..|s| - 1][..|s| - 2] == init;
      assert ParseHexNumber(s) == 256 * ParseHexNumber(init) + b;
      assert s == init + s[|s| - 2..];
      FromHexAppend(init, s[|s| - 2..]);
      assert FromHex(s[|s| - 2..]) == [b];
      var r := Reverse(FromHex(s));
      assert r == [b] + Reverse(FromHex(init));
      assert r[1..] == Reverse(FromHex(init));
      ParseHexNumberAsLittleEndian(init);
    }
  }

  /** Parsing a hex run of `2k` digits and laying the value out little-endian reverses its bytes. */
  lemma ToLittleEndianOfParse(s: string)
    requires |s| % 2 == 0 && IsHexString(s)
    ensures ToLittleEndian(ParseHexNumber(s), |s| / 2) == Reverse(FromHex(s))
  {
    ParseHexNumberAsLittleEndian(s);
    ToFromLittleEndian(Reverse(FromHex(s)));
  }
}
