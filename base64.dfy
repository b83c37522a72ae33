/**
  Base 64 encoding as section 4 of RFC 4648 defines it, then the two
  SuperGenPass substitutions applied to it: the alternate characters `9`
  for `+` and `8` for `/` (`base64.b64encode(digest, b'98')`), and every
  padding `=` replaced by `A`.
 */
module Base64 {
  import opened Text

  const Pad: char := '='

  /** Table 1 of RFC 4648: the character for a 6-bit value. */
  function Letter(v: nat): char
    requires v < 64
  {
    if v < 26 then ('A' as int + v) as char
    else if v < 52 then ('a' as int + (v - 26)) as char
    else if v < 62 then ('0' as int + (v - 52)) as char
    else if v == 62 then '+'
    else '/'
  }

  /** The 6-bit value of an alphabet character (0 for anything else, padding included). */
  function Value(c: char): (v: nat)
    ensures v < 64
  {
    if 'A' <= c <= 'Z' then c as int - 'A' as int
    else if 'a' <= c <= 'z' then c as int - 'a' as int + 26
    else if '0' <= c <= '9' then c as int - '0' as int + 52
    else if c == '+' then 62
    else if c == '/' then 63
    else 0
  }

  predicate InAlphabet(c: char)
  {
    IsAlnum(c) || c == '+' || c == '/'
  }

  /** Every value has its own character, which `Value` reads back. */
  lemma LetterValue(v: nat)
    requires v < 64
    ensures InAlphabet(Letter(v))
    ensures Value(Letter(v)) == v
  {
  }

  /** The length of the text for `n` octets: four characters per started group of three. */
  function EncodedLength(n: nat): nat
  {
    4 * ((n + 2) / 3)
  }

  /**
    Character `i` of the text: octets `3g`, `3g+1`, `3g+2` of group `g = i / 4`
    give four 6-bit values; a last group of one or two octets is filled with
    zero bits and its missing characters are `=`.
   */
  function CharAt(b: seq<byte>, i: nat): char
    requires i < EncodedLength(|b|)
  {
    var g, k := i / 4, i % 4;
    var n := |b| - 3 * g;
    var b0 := b[3 * g];
    var b1 := if n > 1 then b[3 * g + 1] else 0;
    var b2 := if n > 2 then b[3 * g + 2] else 0;
    if k == 0 then Letter(b0 / 4)
    else if k == 1 then Letter((b0 % 4) * 16 + b1 / 16)
    else if k == 2 then (if n > 1 then Letter((b1 % 16) * 4 + b2 / 64) else Pad)
    else (if n > 2 then Letter(b2 % 64) else Pad)
  }

  /** `base64.b64encode(b)`: the text, character by character. */
  function Encode(b: seq<byte>): (s: string)
    ensures |s| == EncodedLength(|b|)
  {
    seq(EncodedLength(|b|), i requires 0 <= i < EncodedLength(|b|) => CharAt(b, i))
  }

  /** The same encoding stated group by group: each group of three octets becomes four characters. */
  function EncodeByGroups(b: seq<byte>): (s: string)
    ensures |s| == EncodedLength(|b|)
    ensures |s| % 4 == 0
    decreases |b|
  {
    if |b| == 0 then []
    else if |b| == 1 then
      [Letter(b[0] / 4), Letter((b[0] % 4) * 16), Pad, Pad]
    else if |b| == 2 then
      [Letter(b[0] / 4), Letter((b[0] % 4) * 16 + b[1] / 16), Letter((b[1] % 16) * 4), Pad]
    else
      assert (|b| + 2) / 3 == (|b| - 1) / 3 + 1;
      Group(b[0], b[1], b[2]) + EncodeByGroups(b[3..])
  }

  /** The four characters of a full group of three octets. */
  function Group(b0: byte, b1: byte, b2: byte): (s: string)
    ensures |s| == 4
  {
    [Letter(b0 / 4), Letter((b0 % 4) * 16 + b1 / 16), Letter((b1 % 16) * 4 + b2 / 64), Letter(b2 % 64)]
  }

  /** Character `i + 4` of the text is character `i` of the text of the octets after the first three. */
  lemma CharAtAfterFirstGroup(b: seq<byte>, i: nat)
    requires |b| >= 3 && i < EncodedLength(|b| - 3)
    ensures CharAt(b, i + 4) == CharAt(b[3..], i)
  {
    var rest := b[3..];
    var g := i / 4;
    assert (i + 4) / 4 == g + 1 && (i + 4) % 4 == i % 4;
    assert |b| - 3 * (g + 1) == |rest| - 3 * g;
    assert b[3 * (g + 1)] == rest[3 * g];
    assert 3 * g + 1 < |rest| ==> b[3 * (g + 1) + 1] == rest[3 * g + 1];
    assert 3 * g + 2 < |rest| ==> b[3 * (g + 1) + 2] == rest[3 * g + 2];
  }

  /** After a first full group, the text goes on as the text of the remaining octets. */
  lemma EncodeAfterFirstGroup(b: seq<byte>)
    requires |b| >= 3
    ensures Encode(b)[4..] == Encode(b[3..])
  {
    forall i | 0 <= i < EncodedLength(|b| - 3)
      ensures Encode(b)[4 + i] == Encode(b[3..])[i]
    {
      CharAtAfterFirstGroup(b, i);
    }
  }

  /** The text of a single octet: two characters and two `=`. */
  lemma EncodeSingle(x: byte)
    ensures Encode([x]) == [Letter(x / 4), Letter((x % 4) * 16), Pad, Pad]
  {
  }

  /** The text of two octets: three characters and one `=`. */
  lemma EncodePair(x: byte, y: byte)
    ensures Encode([x, y]) == [Letter(x / 4), Letter((x % 4) * 16 + y / 16), Letter((y % 16) * 4), Pad]
  {
  }

  /** A last group of one or two octets: both statements give the same padded text. */
  lemma EncodeShortIsGroupwise(b: seq<byte>)
    requires 1 <= |b| <= 2
    ensures Encode(b) == EncodeByGroups(b)
  {
    if |b| == 1 {
      EncodeSingle(b[0]);
      assert b == [b[0]];
    } else {
      EncodePair(b[0], b[1]);
      assert b == [b[0], b[1]];
    }
  }

  /** A full first group gives the first four characters of the text. */
  lemma EncodeFirstGroup(b: seq<byte>)
    requires |b| >= 3
    ensures Encode(b)[..4] == Group(b[0], b[1], b[2])
  {
    var s, t := Encode(b), Group(b[0], b[1], b[2]);
    assert s[0] == t[0] && s[1] == t[1];
    assert s[2] == t[2] && s[3] == t[3];
  }

  /** Both statements of the encoding give the same text. */
  lemma {:induction false} EncodeIsGroupwise(b: seq<byte>)
    ensures Encode(b) == EncodeByGroups(b)
    decreases |b|
  {
    if 1 <= |b| <= 2 {
      EncodeShortIsGroupwise(b);
    } else if |b| >= 3 {
      var s := Encode(b);
      EncodeFirstGroup(b);
      EncodeAfterFirstGroup(b);
      EncodeIsGroupwise(b[3..]);
      assert s == s[..4] + s[4..];
    }
  }

  /** The three octets carried by four 6-bit values. */
  function Octets(v0: nat, v1: nat, v2: nat, v3: nat): seq<byte>
    requires v0 < 64 && v1 < 64 && v2 < 64 && v3 < 64
  {
    [v0 * 4 + v1 / 16, (v1 % 16) * 16 + v2 / 4, (v2 % 4) * 64 + v3]
  }

  /** Base 64 text holds only alphabet characters and padding. */
  lemma EncodeAlphabet(b: seq<byte>)
    ensures forall i :: 0 <= i < |Encode(b)| ==> InAlphabet(Encode(b)[i]) || Encode(b)[i] == Pad
  {
    forall i | 0 <= i < |Encode(b)|
      ensures InAlphabet(Encode(b)[i]) || Encode(b)[i] == Pad
    {
      CharAtAlphabet(b, i);
    }
  }

  /** Each character is an alphabet character or padding. */
  lemma CharAtAlphabet(b: seq<byte>, i: nat)
    requires i < EncodedLength(|b|)
    ensures InAlphabet(CharAt(b, i)) || CharAt(b, i) == Pad
  {
    var g := i / 4;
    var n := |b| - 3 * g;
    var b0 := b[3 * g];
    var b1 := if n > 1 then b[3 * g + 1] else 0;
    var b2 := if n > 2 then b[3 * g + 2] else 0;
    LetterValue(b0 / 4);
    LetterValue((b0 % 4) * 16 + b1 / 16);
    LetterValue((b1 % 16) * 4 + b2 / 64);
    LetterValue(b2 % 64);
  }

  /** Decoding, the inverse of `Encode`: padding is recognised in the last group only. */
  function Decode(s: string): seq<byte>
    requires |s| % 4 == 0
    decreases |s|
  {
    if |s| == 0 then []
    else
      var group := Octets(Value(s[0]), Value(s[1]), Value(s[2]), Value(s[3]));
      if |s| == 4 && s[2] == Pad then group[..1]
      else if |s| == 4 && s[3] == Pad then group[..2]
      else group + Decode(s[4..])
  }

  /** The 6-bit values that `Encode` takes from three octets carry those octets back. */
  lemma OctetsOfGroup(b0: byte, b1: byte, b2: byte)
    ensures Octets(b0 / 4, (b0 % 4) * 16 + b1 / 16, (b1 % 16) * 4 + b2 / 64, b2 % 64) == [b0, b1, b2]
  {
  }

  /** A padded last group decodes to the octets its characters before the padding carry. */
  lemma DecodePadded(c0: char, c1: char, c2: char, c3: char)
    requires c3 == Pad
    ensures Decode([c0, c1, c2, c3]) == Octets(Value(c0), Value(c1), Value(c2), 0)[..if c2 == Pad then 1 else 2]
  {
    var s := [c0, c1, c2, c3];
    assert s[0] == c0 && s[1] == c1 && s[2] == c2 && s[3] == c3;
  }

  /** A final single octet decodes back from its two characters and two `=`. */
  lemma DecodeEncodeOne(b: seq<byte>)
    requires |b| == 1
    ensures Decode(EncodeByGroups(b)) == b
  {
    var v0, v1 := b[0] / 4, (b[0] % 4) * 16;
    assert EncodeByGroups(b) == [Letter(v0), Letter(v1), Pad, Pad];
    LetterValue(v0);
    LetterValue(v1);
    DecodePadded(Letter(v0), Letter(v1), Pad, Pad);
    OctetsOfGroup(b[0], 0, 0);
    assert Octets(v0, v1, 0, 0) == [b[0], 0, 0];
  }

  /** A final pair of octets decodes back from its three characters and one `=`. */
  lemma DecodeEncodeTwo(b: seq<byte>)
    requires |b| == 2
    ensures Decode(EncodeByGroups(b)) == b
  {
    var v0, v1, v2 := b[0] / 4, (b[0] % 4) * 16 + b[1] / 16, (b[1] % 16) * 4;
    assert EncodeByGroups(b) == [Letter(v0), Letter(v1), Letter(v2), Pad];
    LetterValue(v0);
    LetterValue(v1);
    LetterValue(v2);
    DecodePadded(Letter(v0), Letter(v1), Letter(v2), Pad);
    OctetsOfGroup(b[0], b[1], 0);
    assert Octets(v0, v1, v2, 0) == [b[0], b[1], 0];
    assert [b[0], b[1], 0][..2] == b;
  }

  /** Four unpadded characters in front decode to their octets, ahead of what the rest decodes to. */
  lemma DecodeGroup(c0: char, c1: char, c2: char, c3: char, t: string)
    requires |t| % 4 == 0
    requires c2 != Pad && c3 != Pad
    ensures Decode([c0, c1, c2, c3] + t) == Octets(Value(c0), Value(c1), Value(c2), Value(c3)) + Decode(t)
  {
    var s := [c0, c1, c2, c3] + t;
    assert s[0] == c0 && s[1] == c1 && s[2] == c2 && s[3] == c3;
    assert s[4..] == t;
  }

  /** Four alphabet characters in front decode to the octets their values carry. */
  lemma DecodeLetters(v0: nat, v1: nat, v2: nat, v3: nat, t: string)
    requires v0 < 64 && v1 < 64 && v2 < 64 && v3 < 64
    requires |t| % 4 == 0
    ensures Decode([Letter(v0), Letter(v1), Letter(v2), Letter(v3)] + t) == Octets(v0, v1, v2, v3) + Decode(t)
  {
    LetterValue(v0);
    LetterValue(v1);
    LetterValue(v2);
    LetterValue(v3);
    DecodeGroup(Letter(v0), Letter(v1), Letter(v2), Letter(v3), t);
  }

  /** A full group decodes to its three octets, ahead of what the rest decodes to. */
  lemma DecodeFullGroup(b0: byte, b1: byte, b2: byte, t: string)
    requires |t| % 4 == 0
    ensures var s := Group(b0, b1, b2) + t;
      |s| == |t| + 4 && Decode(s) == [b0, b1, b2] + Decode(t)
  {
    var v0, v1, v2, v3 := b0 / 4, (b0 % 4) * 16 + b1 / 16, (b1 % 16) * 4 + b2 / 64, b2 % 64;
    assert Group(b0, b1, b2) == [Letter(v0), Letter(v1), Letter(v2), Letter(v3)];
    DecodeLetters(v0, v1, v2, v3, t);
    assert Octets(v0, v1, v2, v3) == [b0, b1, b2] by {
      OctetsOfGroup(b0, b1, b2);
    }
  }

  /** Decoding the group-by-group text gives back every octet. */
  lemma {:induction false} DecodeEncodeByGroups(b: seq<byte>)
    ensures Decode(EncodeByGroups(b)) == b
    decreases |b|
  {
    if |b| == 1 {
      DecodeEncodeOne(b);
    } else if |b| == 2 {
      DecodeEncodeTwo(b);
    } else if |b| >= 3 {
      DecodeFirstGroup(b);
      DecodeEncodeByGroups(b[3..]);
      assert [b[0], b[1], b[2]] + b[3..] == b;
    }
  }

  /** A full first group decodes to its three octets, ahead of what the rest decodes to. */
  lemma DecodeFirstGroup(b: seq<byte>)
    requires |b| >= 3
    ensures Decode(EncodeByGroups(b)) == [b[0], b[1], b[2]] + Decode(EncodeByGroups(b[3..]))
  {
    var rest := EncodeByGroups(b[3..]);
    assert EncodeByGroups(b) == Group(b[0], b[1], b[2]) + rest;
    DecodeFullGroup(b[0], b[1], b[2], rest);
  }

  /** Encoding loses nothing: decoding gives back every octet. */
  lemma DecodeEncode(b: seq<byte>)
    ensures Decode(Encode(b)) == b
  {
    EncodeIsGroupwise(b);
    DecodeEncodeByGroups(b);
  }

  /** `bytes.maketrans(b'+/', b'98')` applied to one character. */
  function AltChar(c: char): (r: char)
    ensures r != '+' && r != '/'
    ensures c == '+' || c == '/' || IsAlnum(c) ==> IsAlnum(r)
  {
    if c == '+' then '9' else if c == '/' then '8' else c
  }

  /** The translation applied to a whole text. */
  function Translate(s: string): (r: string)
    ensures |r| == |s|
    decreases |s|
  {
    if s == [] then [] else [AltChar(s[0])] + Translate(s[1..])
  }

  lemma {:induction false} TranslateAt(s: string)
    ensures forall i :: 0 <= i < |s| ==> Translate(s)[i] == AltChar(s[i])
    decreases |s|
  {
    if s != [] {
      TranslateAt(s[1..]);
      forall i | 1 <= i < |s| ensures s[i] == s[1..][i - 1] { }
    }
  }

  /** `base64.b64encode(b, b'98')`. */
  function EncodeAlt(b: seq<byte>): (s: string)
    ensures |s| == |Encode(b)|
  {
    Translate(Encode(b))
  }

  /** The SuperGenPass encoding of a digest: alternate characters, then every `=` replaced by `A`. */
  function SpecialEncode(b: seq<byte>): (s: string)
    ensures |s| == 4 * ((|b| + 2) / 3)
    ensures AllAlnum(s)
  {
    EncodeAlphabet(b);
    TranslateAt(Encode(b));
    ReplaceAt(EncodeAlt(b), Pad, 'A');
    Replace(EncodeAlt(b), Pad, 'A')
  }

  /** The encoding agrees with plain base 64 everywhere except at `+`, `/` and `=`. */
  lemma SpecialEncodeAgrees(b: seq<byte>, i: nat)
    requires i < |Encode(b)|
    ensures SpecialEncode(b)[i] ==
      match Encode(b)[i]
      case '+' => '9'
      case '/' => '8'
      case '=' => 'A'
      case c => c
  {
    TranslateAt(Encode(b));
    ReplaceAt(EncodeAlt(b), Pad, 'A');
  }

  /** The SuperGenPass text of octets whose base 64 text is `e`: the definition of `SpecialEncode` unfolded at a known text, so that concrete examples can compute from `e`. */
  lemma SpecialEncodeOf(b: seq<byte>, e: string)
    requires Encode(b) == e
    ensures SpecialEncode(b) == Replace(Translate(e), Pad, 'A')
  {
  }

  /**
    The substitutions are not one-to-one: different digests can give the same
    text. Value 62 (`+`) and value 61 (`9`) now share `9`.
   */
  lemma AltCharsCollide()
    ensures SpecialEncode([248]) == SpecialEncode([244]) == "9AAA"
  {
    EncodeSingle(248);
    SpecialEncodeOf([248], "+A==");
    EncodeSingle(244);
    SpecialEncodeOf([244], "9A==");
  }

  /** Padding now reads as value 0, so one zero octet and three zero octets give the same text. */
  lemma PaddingCollides()
    ensures SpecialEncode([0]) == SpecialEncode([0, 0, 0]) == "AAAA"
  {
    EncodeSingle(0);
    SpecialEncodeOf([0], "AA==");
    ZeroGroup();
    SpecialEncodeOf([0, 0, 0], "AAAA");
  }

  /** Three zero octets encode as four `A`. */
  lemma ZeroGroup()
    ensures Encode([0, 0, 0]) == "AAAA"
  {
    var b: seq<byte> := [0, 0, 0];
    EncodeFirstGroup(b);
    assert Encode(b) == Encode(b)[..4];
  }
}
