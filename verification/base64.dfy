/**
  Base64 with the standard alphabet and `=` padding (section 4 of RFC 4648), as
  `Convert.ToBase64String` writes it and `Convert.FromBase64String` reads it.

  Whether the reader rejects non-zero bits in the unused low bits of the last
  character before padding is a platform detail the source does not pin down:
  `strictPadding` selects the rejecting reading, `false` the ignoring one.
*/
module Base64 {
  import opened Wrappers
  import opened Bytes

  predicate IsBase64Char(c: char) {
    'A' <= c <= 'Z' || 'a' <= c <= 'z' || '0' <= c <= '9' || c == '+' || c == '/'
  }

  function CharValue(c: char): (v: nat)
    requires IsBase64Char(c)
    ensures v < 64
  {
    if 'A' <= c <= 'Z' then c as int - 'A' as int
    else if 'a' <= c <= 'z' then c as int - 'a' as int + 26
    else if '0' <= c <= '9' then c as int - '0' as int + 52
    else if c == '+' then 62
    else 63
  }

  /** The alphabet: the character for a six-bit value; reading it back gives the value. */
  function ValueChar(v: nat): (c: char)
    requires v < 64
    ensures IsBase64Char(c) && CharValue(c) == v
  {
    if v < 26 then ('A' as int + v) as char
    else if v < 52 then ('a' as int + v - 26) as char
    else if v < 62 then ('0' as int + v - 52) as char
    else if v == 62 then '+'
    else '/'
  }

  lemma ValueCharOfValue(c: char)
    requires IsBase64Char(c)
    ensures ValueChar(CharValue(c)) == c
  {
  }

  /** How many `=` end `s` (at most two are counted). */
  function Padding(s: string): (p: nat)
    ensures p <= 2 && p <= |s|
  {
    if |s| >= 2 && s[|s| - 1] == '=' && s[|s| - 2] == '=' then 2
    else if |s| >= 1 && s[|s| - 1] == '=' then 1
    else 0
  }

  /** How many `=` the encoding of `n` bytes ends with. */
  function PadFor(n: nat): nat {
    (3 - n % 3) % 3
  }

  function EncodeBlock(b0: byte, b1: byte, b2: byte): (s: string)
    ensures |s| == 4
  {
    [ValueChar(b0 / 4), ValueChar((b0 % 4) * 16 + b1 / 16), ValueChar((b1 % 16) * 4 + b2 / 64), ValueChar(b2 % 64)]
  }

  /** `Convert.ToBase64String`: every three bytes become four characters, the tail is padded. */
  function Encode(bs: seq<byte>): (s: string)
    ensures |s| == 4 * ((|bs| + 2) / 3)
    decreases |bs|
  {
    if |bs| == 0 then ""
    else if |bs| == 1 then [ValueChar(bs[0] / 4), ValueChar((bs[0] % 4) * 16), '=', '=']
    else if |bs| == 2 then [ValueChar(bs[0] / 4), ValueChar((bs[0] % 4) * 16 + bs[1] / 16), ValueChar((bs[1] % 16) * 4), '=']
    else
      GroupCount(|bs|);
      EncodeBlock(bs[0], bs[1], bs[2]) + Encode(bs[3..])
  }

  lemma GroupCount(n: nat)
    requires n >= 3
    ensures 4 + 4 * ((n - 3 + 2) / 3) == 4 * ((n + 2) / 3)
  {
  }

  /** Alphabet characters up to `|s| - pad`, `=` from there on. */
  predicate PaddedShape(s: string, pad: nat) {
    forall i :: 0 <= i < |s| ==> (IsBase64Char(s[i]) <==> i < |s| - pad) && (s[i] == '=' <==> i >= |s| - pad)
  }

  /** Four alphabet characters in front of a padded string keep its shape. */
  lemma ShapeAppend(e: string, rest: string, pad: nat)
    requires |e| == 4 && IsBase64Char(e[0]) && IsBase64Char(e[1]) && IsBase64Char(e[2]) && IsBase64Char(e[3])
    requires pad <= |rest| && PaddedShape(rest, pad)
    ensures PaddedShape(e + rest, pad)
  {
    var s := e + rest;
    forall i | 0 <= i < |s|
      ensures (IsBase64Char(s[i]) <==> i < |s| - pad) && (s[i] == '=' <==> i >= |s| - pad)
    {
      if i >= 4 {
        assert s[i] == rest[i - 4];
      }
    }
  }

  lemma EncodeShapeOne(b0: byte)
    ensures PaddedShape(Encode([b0]), 2)
  {
    var s := Encode([b0]);
    assert IsBase64Char(s[0]) && IsBase64Char(s[1]) && s[2] == '=' && s[3] == '=';
  }

  lemma EncodeShapeTwo(b0: byte, b1: byte)
    ensures PaddedShape(Encode([b0, b1]), 1)
  {
    var s := Encode([b0, b1]);
    assert IsBase64Char(s[0]) && IsBase64Char(s[1]) && IsBase64Char(s[2]) && s[3] == '=';
  }

  lemma PadForStep(n: nat)
    requires n >= 3
    ensures PadFor(n) == PadFor(n - 3)
  {
  }

  lemma EncodeLengthPositive(bs: seq<byte>)
    ensures |bs| > 0 ==> |Encode(bs)| >= 4
    ensures |bs| == 0 ==> Encode(bs) == ""
  {
  }

  lemma BlockAlphabet(b0: byte, b1: byte, b2: byte)
    ensures var e := EncodeBlock(b0, b1, b2);
      IsBase64Char(e[0]) && IsBase64Char(e[1]) && IsBase64Char(e[2]) && IsBase64Char(e[3])
  {
  }

  lemma EncodeUnfold(bs: seq<byte>)
    requires |bs| >= 3
    ensures Encode(bs) == EncodeBlock(bs[0], bs[1], bs[2]) + Encode(bs[3..])
  {
  }

  lemma EncodeShapeStep(bs: seq<byte>)
    requires |bs| >= 3 && PaddedShape(Encode(bs[3..]), PadFor(|bs| - 3))
    ensures PaddedShape(Encode(bs), PadFor(|bs|))
  {
    var e := EncodeBlock(bs[0], bs[1], bs[2]);
    BlockAlphabet(bs[0], bs[1], bs[2]);
    PadForStep(|bs|);
    EncodeLengthPositive(bs[3..]);
    ShapeAppend(e, Encode(bs[3..]), PadFor(|bs|));
    EncodeUnfold(bs);
  }

  /** The encoding is alphabet characters followed by exactly the padding the length calls for. */
  lemma {:induction false} EncodeShape(bs: seq<byte>)
    ensures forall i :: 0 <= i < |Encode(bs)| ==> (IsBase64Char(Encode(bs)[i]) <==> i < |Encode(bs)| - PadFor(|bs|))
    ensures forall i :: 0 <= i < |Encode(bs)| ==> (Encode(bs)[i] == '=' <==> i >= |Encode(bs)| - PadFor(|bs|))
    decreases |bs|
  {
    if |bs| >= 3 {
      EncodeShape(bs[3..]);
      EncodeShapeStep(bs);
    } else if |bs| == 2 {
      assert bs == [bs[0], bs[1]];
      EncodeShapeTwo(bs[0], bs[1]);
    } else if |bs| == 1 {
      assert bs == [bs[0]];
      EncodeShapeOne(bs[0]);
    }
  }

  function DecodeBlock(c0: char, c1: char, c2: char, c3: char): (bs: seq<byte>)
    requires IsBase64Char(c0) && IsBase64Char(c1) && IsBase64Char(c2) && IsBase64Char(c3)
    ensures |bs| == 3
  {
    var v0, v1, v2, v3 := CharValue(c0), CharValue(c1), CharValue(c2), CharValue(c3);
    [v0 * 4 + v1 / 16, (v1 % 16) * 16 + v2 / 4, (v2 % 4) * 64 + v3]
  }

  /** The last group of four characters, which may end in one or two `=`. */
  function DecodeFinal(c0: char, c1: char, c2: char, c3: char, strictPadding: bool): (r: Option<seq<byte>>)
    ensures r.Some? ==> |r.value| == 3 - Padding([c0, c1, c2, c3])
  {
    if !(IsBase64Char(c0) && IsBase64Char(c1)) then None
    else if IsBase64Char(c2) && IsBase64Char(c3) then Some(DecodeBlock(c0, c1, c2, c3))
    else if IsBase64Char(c2) && c3 == '=' then
      var v0, v1, v2 := CharValue(c0), CharValue(c1), CharValue(c2);
      if strictPadding && v2 % 4 != 0 then None
      else Some([v0 * 4 + v1 / 16, (v1 % 16) * 16 + v2 / 4])
    else if c2 == '=' && c3 == '=' then
      var v0, v1 := CharValue(c0), CharValue(c1);
      if strictPadding && v1 % 16 != 0 then None
      else Some([v0 * 4 + v1 / 16])
    else None
  }

  /**
    Strict-format decoding: whole groups of four, padding only at the very end.
    `None` is the `FormatException` of `Convert.FromBase64String`.
  */
  function Decode(s: string, strictPadding: bool): (r: Option<seq<byte>>)
    ensures r.Some? ==> |s| % 4 == 0
    ensures r.Some? ==> |r.value| == 3 * (|s| / 4) - Padding(s)
    decreases |s|
  {
    if |s| == 0 then Some([])
    else if |s| < 4 then None
    else if |s| == 4 then DecodeFinal(s[0], s[1], s[2], s[3], strictPadding)
    else if IsBase64Char(s[0]) && IsBase64Char(s[1]) && IsBase64Char(s[2]) && IsBase64Char(s[3]) then
      match Decode(s[4..], strictPadding)
      case None => None
      case Some(rest) => Some(DecodeBlock(s[0], s[1], s[2], s[3]) + rest)
    else None
  }

  /**
    The strings `Decode` accepts: whole groups, alphabet characters up to at most two
    trailing `=`, and under `strictPadding` zero unused bits before the padding.
  */
  predicate WellFormed(s: string, strictPadding: bool) {
    && |s| % 4 == 0
    && (forall i :: 0 <= i < |s| - Padding(s) ==> IsBase64Char(s[i]))
    && (strictPadding && Padding(s) == 1 ==> CharValue(s[|s| - 2]) % 4 == 0)
    && (strictPadding && Padding(s) == 2 ==> CharValue(s[|s| - 3]) % 16 == 0)
  }

  /** A canonical encoding: one that `Convert.ToBase64String` can produce. */
  predicate Canonical(s: string) {
    WellFormed(s, true)
  }

  lemma DecodeFinalSucceeds(s: string, strictPadding: bool)
    requires |s| == 4
    ensures DecodeFinal(s[0], s[1], s[2], s[3], strictPadding).Some? <==> WellFormed(s, strictPadding)
  {
    assert [s[0], s[1], s[2], s[3]] == s;
  }

  /** Well-formedness of a string of more than one group splits off its first group. */
  lemma WellFormedCons(s: string, strictPadding: bool)
    requires |s| >= 8
    ensures WellFormed(s, strictPadding) <==>
      (IsBase64Char(s[0]) && IsBase64Char(s[1]) && IsBase64Char(s[2]) && IsBase64Char(s[3])
       && WellFormed(s[4..], strictPadding))
  {
    var t := s[4..];
    assert Padding(t) == Padding(s);
    assert forall i :: 4 <= i < |s| ==> s[i] == t[i - 4];
    if WellFormed(s, strictPadding) {
      assert IsBase64Char(s[0]) && IsBase64Char(s[1]) && IsBase64Char(s[2]) && IsBase64Char(s[3]);
      assert WellFormed(t, strictPadding);
    }
  }

  /** `Decode` fails exactly on the strings that are not well formed. */
  lemma {:induction false} DecodeSucceedsIff(s: string, strictPadding: bool)
    ensures Decode(s, strictPadding).Some? <==> WellFormed(s, strictPadding)
    decreases |s|
  {
    if |s| == 4 {
      DecodeFinalSucceeds(s, strictPadding);
    } else if |s| > 4 {
      DecodeSucceedsIff(s[4..], strictPadding);
      if |s| >= 8 {
        WellFormedCons(s, strictPadding);
      }
    }
  }

  /** Under either policy, a canonical encoding decodes the same way. */
  lemma {:induction false} DecodeCanonical(s: string, strictPadding: bool)
    requires Canonical(s)
    ensures Decode(s, strictPadding) == Decode(s, true)
    decreases |s|
  {
    if |s| > 4 {
      assert Canonical(s[4..]) by {
        DecodeSucceedsIff(s, true);
        DecodeSucceedsIff(s[4..], true);
      }
      DecodeCanonical(s[4..], strictPadding);
    }
  }

  /** Splitting a number below `64 * d` into a quotient and remainder by `d` and back. */
  lemma Split4(q: nat, r: nat)
    requires r < 4
    ensures (q * 4 + r) / 4 == q && (q * 4 + r) % 4 == r
  {
  }

  lemma Split16(q: nat, r: nat)
    requires r < 16
    ensures (q * 16 + r) / 16 == q && (q * 16 + r) % 16 == r
  {
  }

  lemma Split64(q: nat, r: nat)
    requires r < 64
    ensures (q * 64 + r) / 64 == q && (q * 64 + r) % 64 == r
  {
  }

  lemma BlockRoundTrip(b0: byte, b1: byte, b2: byte)
    ensures var e := EncodeBlock(b0, b1, b2);
      DecodeBlock(e[0], e[1], e[2], e[3]) == [b0, b1, b2]
  {
    var v1 := (b0 % 4) * 16 + b1 / 16;
    var v2 := (b1 % 16) * 4 + b2 / 64;
    assert v1 / 16 == b0 % 4 && v1 % 16 == b1 / 16;
    assert v2 / 4 == b1 % 16 && v2 % 4 == b2 / 64;
  }

  lemma EncodeDecodeOne(b0: byte, strictPadding: bool)
    ensures Decode(Encode([b0]), strictPadding) == Some([b0])
  {
    var v0, v1 := b0 / 4, (b0 % 4) * 16;
    Split16(b0 % 4, 0);
    var s := Encode([b0]);
    assert s == [ValueChar(v0), ValueChar(v1), '=', '='];
    assert Decode(s, strictPadding) == DecodeFinal(s[0], s[1], s[2], s[3], strictPadding);
  }

  lemma EncodeDecodeTwo(b0: byte, b1: byte, strictPadding: bool)
    ensures Decode(Encode([b0, b1]), strictPadding) == Some([b0, b1])
  {
    var v0, v1, v2 := b0 / 4, (b0 % 4) * 16 + b1 / 16, (b1 % 16) * 4;
    Split16(b0 % 4, b1 / 16);
    Split4(b1 % 16, 0);
    var s := Encode([b0, b1]);
    assert s == [ValueChar(v0), ValueChar(v1), ValueChar(v2), '='];
    assert Decode(s, strictPadding) == DecodeFinal(s[0], s[1], s[2], s[3], strictPadding);
  }

  lemma EncodeDecodeThree(bs: seq<byte>, strictPadding: bool)
    requires |bs| == 3
    ensures Decode(Encode(bs), strictPadding) == Some(bs)
  {
    BlockRoundTrip(bs[0], bs[1], bs[2]);
    assert Encode(bs) == EncodeBlock(bs[0], bs[1], bs[2]) + Encode(bs[3..]);
    assert Encode(bs[3..]) == "";
    assert bs == [bs[0], bs[1], bs[2]];
  }

  /** `Decode` on more than one group: the first group's bytes, then the rest's. */
  lemma DecodeCons(s: string, strictPadding: bool)
    requires |s| > 4
    requires IsBase64Char(s[0]) && IsBase64Char(s[1]) && IsBase64Char(s[2]) && IsBase64Char(s[3])
    requires Decode(s[4..], strictPadding).Some?
    ensures Decode(s, strictPadding) == Some(DecodeBlock(s[0], s[1], s[2], s[3]) + Decode(s[4..], strictPadding).value)
  {
  }

  /** A group that decodes to `b` in front of a string that decodes to `r` decodes to `b + r`. */
  lemma DecodeAppend(e: string, rest: string, r: seq<byte>, strictPadding: bool)
    requires |e| == 4 && IsBase64Char(e[0]) && IsBase64Char(e[1]) && IsBase64Char(e[2]) && IsBase64Char(e[3])
    requires |rest| > 0 && Decode(rest, strictPadding) == Some(r)
    ensures Decode(e + rest, strictPadding) == Some(DecodeBlock(e[0], e[1], e[2], e[3]) + r)
  {
    var s := e + rest;
    assert s[0] == e[0] && s[1] == e[1] && s[2] == e[2] && s[3] == e[3];
    assert s[4..] == rest;
    DecodeCons(s, strictPadding);
  }

  /** The group `EncodeBlock` writes is alphabet characters and decodes to the three bytes. */
  lemma BlockDecodes(b: seq<byte>, r: seq<byte>, e: string)
    requires |b| == 3 && e == EncodeBlock(b[0], b[1], b[2])
    ensures IsBase64Char(e[0]) && IsBase64Char(e[1]) && IsBase64Char(e[2]) && IsBase64Char(e[3])
    ensures DecodeBlock(e[0], e[1], e[2], e[3]) + r == b + r
  {
    BlockRoundTrip(b[0], b[1], b[2]);
    assert b == [b[0], b[1], b[2]];
  }

  /** One leading block decodes in front of whatever the rest decodes to. */
  lemma EncodeDecodeStep(bs: seq<byte>, strictPadding: bool)
    requires |bs| > 3
    requires Decode(Encode(bs[3..]), strictPadding) == Some(bs[3..])
    ensures Decode(Encode(bs), strictPadding) == Some(bs)
  {
    var e := EncodeBlock(bs[0], bs[1], bs[2]);
    var rest := Encode(bs[3..]);
    BlockDecodes(bs[..3], bs[3..], e);
    DecodeAppend(e, rest, bs[3..], strictPadding);
    assert bs[..3] + bs[3..] == bs;
    assert Encode(bs) == e + rest;
  }

  /** Decoding what `Convert.ToBase64String` wrote gives the bytes back, under either policy. */
  lemma {:induction false} EncodeDecode(bs: seq<byte>, strictPadding: bool)
    ensures Decode(Encode(bs), strictPadding) == Some(bs)
    decreases |bs|
  {
    if |bs| == 1 {
      assert bs == [bs[0]];
      EncodeDecodeOne(bs[0], strictPadding);
    } else if |bs| == 2 {
      assert bs == [bs[0], bs[1]];
      EncodeDecodeTwo(bs[0], bs[1], strictPadding);
    } else if |bs| == 3 {
      EncodeDecodeThree(bs, strictPadding);
    } else if |bs| > 3 {
      EncodeDecode(bs[3..], strictPadding);
      EncodeDecodeStep(bs, strictPadding);
    }
  }

  /** The six-bit values of a block survive a decode followed by an encode. */
  lemma BlockValuesRoundTrip(v0: nat, v1: nat, v2: nat, v3: nat)
    requires v0 < 64 && v1 < 64 && v2 < 64 && v3 < 64
    ensures var b0, b1, b2 := v0 * 4 + v1 / 16, (v1 % 16) * 16 + v2 / 4, (v2 % 4) * 64 + v3;
      && b0 / 4 == v0
      && (b0 % 4) * 16 + b1 / 16 == v1
      && (b1 % 16) * 4 + b2 / 64 == v2
      && b2 % 64 == v3
  {
    Split4(v0, v1 / 16);
    Split16(v1 % 16, v2 / 4);
    Split64(v2 % 4, v3);
    Split16(v1 / 16, v1 % 16);
    Split4(v2 / 4, v2 % 4);
  }

  lemma BlockChars(b0: byte, b1: byte, b2: byte, c0: char, c1: char, c2: char, c3: char)
    requires IsBase64Char(c0) && IsBase64Char(c1) && IsBase64Char(c2) && IsBase64Char(c3)
    requires b0 / 4 == CharValue(c0) && (b0 % 4) * 16 + b1 / 16 == CharValue(c1)
    requires (b1 % 16) * 4 + b2 / 64 == CharValue(c2) && b2 % 64 == CharValue(c3)
    ensures EncodeBlock(b0, b1, b2) == [c0, c1, c2, c3]
  {
    ValueCharOfValue(c0);
    ValueCharOfValue(c1);
    ValueCharOfValue(c2);
    ValueCharOfValue(c3);
  }

  lemma DecodeBlockRoundTrip(c0: char, c1: char, c2: char, c3: char)
    requires IsBase64Char(c0) && IsBase64Char(c1) && IsBase64Char(c2) && IsBase64Char(c3)
    ensures var b := DecodeBlock(c0, c1, c2, c3);
      EncodeBlock(b[0], b[1], b[2]) == [c0, c1, c2, c3]
  {
    var v0, v1, v2, v3 := CharValue(c0), CharValue(c1), CharValue(c2), CharValue(c3);
    BlockValuesRoundTrip(v0, v1, v2, v3);
    var b := DecodeBlock(c0, c1, c2, c3);
    BlockChars(b[0], b[1], b[2], c0, c1, c2, c3);
  }

  /** The six-bit values of a group ending in one `=` survive a decode followed by an encode. */
  lemma OnePadValues(v0: nat, v1: nat, v2: nat)
    requires v0 < 64 && v1 < 64 && v2 < 64 && v2 % 4 == 0
    ensures var b0, b1 := v0 * 4 + v1 / 16, (v1 % 16) * 16 + v2 / 4;
      && b0 < 256 && b1 < 256
      && b0 / 4 == v0
      && (b0 % 4) * 16 + b1 / 16 == v1
      && (b1 % 16) * 4 == v2
  {
    Split4(v0, v1 / 16);
    Split16(v1 % 16, v2 / 4);
    Split16(v1 / 16, v1 % 16);
    Split4(v2 / 4, 0);
  }

  lemma OnePadChars(b0: byte, b1: byte, c0: char, c1: char, c2: char)
    requires IsBase64Char(c0) && IsBase64Char(c1) && IsBase64Char(c2)
    requires b0 / 4 == CharValue(c0) && (b0 % 4) * 16 + b1 / 16 == CharValue(c1) && (b1 % 16) * 4 == CharValue(c2)
    ensures Encode([b0, b1]) == [c0, c1, c2, '=']
  {
    ValueCharOfValue(c0);
    ValueCharOfValue(c1);
    ValueCharOfValue(c2);
  }

  /** A group ending in one `=` re-encodes to itself when its unused bits are zero. */
  lemma OnePadRoundTrip(c0: char, c1: char, c2: char)
    requires IsBase64Char(c0) && IsBase64Char(c1) && IsBase64Char(c2) && CharValue(c2) % 4 == 0
    ensures DecodeFinal(c0, c1, c2, '=', true).Some?
    ensures Encode(DecodeFinal(c0, c1, c2, '=', true).value) == [c0, c1, c2, '=']
  {
    var v0, v1, v2 := CharValue(c0), CharValue(c1), CharValue(c2);
    OnePadValues(v0, v1, v2);
    var b0: byte, b1: byte := v0 * 4 + v1 / 16, (v1 % 16) * 16 + v2 / 4;
    assert DecodeFinal(c0, c1, c2, '=', true) == Some([b0, b1]);
    OnePadChars(b0, b1, c0, c1, c2);
  }

  lemma TwoPadChars(b0: byte, c0: char, c1: char)
    requires IsBase64Char(c0) && IsBase64Char(c1)
    requires b0 / 4 == CharValue(c0) && (b0 % 4) * 16 == CharValue(c1)
    ensures Encode([b0]) == [c0, c1, '=', '=']
  {
    ValueCharOfValue(c0);
    ValueCharOfValue(c1);
  }

  /** A group ending in two `=` re-encodes to itself when its unused bits are zero. */
  lemma TwoPadRoundTrip(c0: char, c1: char)
    requires IsBase64Char(c0) && IsBase64Char(c1) && CharValue(c1) % 16 == 0
    ensures DecodeFinal(c0, c1, '=', '=', true).Some?
    ensures Encode(DecodeFinal(c0, c1, '=', '=', true).value) == [c0, c1, '=', '=']
  {
    var v0, v1 := CharValue(c0), CharValue(c1);
    Split4(v0, v1 / 16);
    Split16(v1 / 16, 0);
    var b0: byte := v0 * 4 + v1 / 16;
    assert DecodeFinal(c0, c1, '=', '=', true) == Some([b0]);
    TwoPadChars(b0, c0, c1);
  }

  lemma DecodeFinalRoundTrip(s: string)
    requires |s| == 4 && Canonical(s)
    ensures DecodeFinal(s[0], s[1], s[2], s[3], true).Some?
    ensures Encode(DecodeFinal(s[0], s[1], s[2], s[3], true).value) == s
  {
    DecodeFinalSucceeds(s, true);
    assert s == [s[0], s[1], s[2], s[3]];
    if Padding(s) == 0 {
      DecodeBlockRoundTrip(s[0], s[1], s[2], s[3]);
    } else if Padding(s) == 1 {
      OnePadRoundTrip(s[0], s[1], s[2]);
    } else {
      TwoPadRoundTrip(s[0], s[1]);
    }
  }

  /** `Encode` on more than three bytes: the first block's group, then the rest's. */
  lemma EncodeAppend(b: seq<byte>, rest: seq<byte>)
    requires |b| == 3 && |rest| > 0
    ensures Encode(b + rest) == EncodeBlock(b[0], b[1], b[2]) + Encode(rest)
  {
    var bs := b + rest;
    assert bs[0] == b[0] && bs[1] == b[1] && bs[2] == b[2];
    assert bs[3..] == rest;
  }

  /** The leading group of four alphabet characters re-encodes to itself. */
  lemma GroupEncodesAt(s: string)
    requires |s| > 4 && IsBase64Char(s[0]) && IsBase64Char(s[1]) && IsBase64Char(s[2]) && IsBase64Char(s[3])
    ensures var b := DecodeBlock(s[0], s[1], s[2], s[3]);
      EncodeBlock(b[0], b[1], b[2]) + s[4..] == s
  {
    DecodeBlockRoundTrip(s[0], s[1], s[2], s[3]);
    assert [s[0], s[1], s[2], s[3]] + s[4..] == s;
  }

  /** One leading group re-encodes in front of whatever the rest re-encodes to. */
  lemma DecodeEncodeStep(s: string)
    requires |s| > 4
    requires IsBase64Char(s[0]) && IsBase64Char(s[1]) && IsBase64Char(s[2]) && IsBase64Char(s[3])
    requires Decode(s[4..], true).Some? && Encode(Decode(s[4..], true).value) == s[4..]
    ensures Decode(s, true).Some? && Encode(Decode(s, true).value) == s
  {
    var b := DecodeBlock(s[0], s[1], s[2], s[3]);
    var rest := Decode(s[4..], true).value;
    DecodeCons(s, true);
    assert |rest| > 0;
    EncodeAppend(b, rest);
    GroupEncodesAt(s);
  }

  /** Re-encoding a decoded canonical string gives the string back. */
  lemma {:induction false} DecodeEncode(s: string, strictPadding: bool)
    requires Canonical(s)
    ensures Decode(s, strictPadding).Some?
    ensures Encode(Decode(s, strictPadding).value) == s
    decreases |s|
  {
    DecodeCanonical(s, strictPadding);
    DecodeSucceedsIff(s, true);
    if |s| == 4 {
      DecodeFinalRoundTrip(s);
    } else if |s| > 4 {
      DecodeSucceedsIff(s[4..], true);
      DecodeEncode(s[4..], true);
      DecodeEncodeStep(s);
    }
  }

  /** The four characters `Convert.FromBase64String` skips wherever they occur. */
  predicate IsSkippedWhitespace(c: char) {
    c == ' ' || c == '\t' || c == '\r' || c == '\n'
  }

  function RemoveWhitespace(s: string): (r: string)
    ensures |r| <= |s|
    ensures forall i :: 0 <= i < |r| ==> !IsSkippedWhitespace(r[i])
    ensures forall i :: 0 <= i < |s| && !IsSkippedWhitespace(s[i]) ==> s[i] in r
    ensures forall i :: 0 <= i < |r| ==> r[i] in s
  {
    if |s| == 0 then ""
    else if IsSkippedWhitespace(s[0]) then RemoveWhitespace(s[1..])
    else [s[0]] + RemoveWhitespace(s[1..])
  }

  lemma {:induction false} RemoveNoWhitespace(s: string)
    requires forall i :: 0 <= i < |s| ==> !IsSkippedWhitespace(s[i])
    ensures RemoveWhitespace(s) == s
  {
    if |s| > 0 {
      RemoveNoWhitespace(s[1..]);
    }
  }

  /** `Convert.FromBase64String`: whitespace is skipped, the rest must be well formed. */
  function FromBase64String(s: string, strictPadding: bool): (r: Option<seq<byte>>)
    ensures r.Some? <==> WellFormed(RemoveWhitespace(s), strictPadding)
  {
    DecodeSucceedsIff(RemoveWhitespace(s), strictPadding);
    Decode(RemoveWhitespace(s), strictPadding)
  }
}
