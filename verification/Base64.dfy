/** The base64 encoding of section 4 of RFC 4648, with padding. */
module Base64 {
  import opened Wrappers
  import opened Serial

  type Sextet = x: int | 0 <= x < 64

  function Letter(x: Sextet): char {
    if x < 26 then ('A' as int + x) as char
    else if x < 52 then ('a' as int + (x - 26)) as char
    else if x < 62 then ('0' as int + (x - 52)) as char
    else if x == 62 then '+'
    else '/'
  }

  function SextetOf(c: char): (x: Option<Sextet>) {
    if 'A' <= c <= 'Z' then Some(c as int - 'A' as int)
    else if 'a' <= c <= 'z' then Some(c as int - 'a' as int + 26)
    else if '0' <= c <= '9' then Some(c as int - '0' as int + 52)
    else if c == '+' then Some(62)
    else if c == '/' then Some(63)
    else None
  }

  /** The alphabet of table 1 of RFC 4648: A to Z, a to z, 0 to 9, plus and slash. */
  lemma LetterExact(x: Sextet)
    ensures Letter(0) == 'A' && Letter(25) == 'Z' && Letter(26) == 'a' && Letter(51) == 'z'
    ensures Letter(52) == '0' && Letter(61) == '9' && Letter(62) == '+' && Letter(63) == '/'
    ensures x < 61 && x != 25 && x != 51 ==> Letter(x + 1) as int == Letter(x) as int + 1
  {
  }

  predicate IsEncodingChar(c: char) { SextetOf(c).Some? || c == '=' }

  lemma LetterIsRead(x: Sextet)
    ensures SextetOf(Letter(x)) == Some(x)
  {
  }

  /** The four characters for one to three bytes; missing bytes count as zero and print as padding. */
  function EncodeGroup(group: seq<Byte>): (text: string)
    requires 1 <= |group| <= 3
    ensures |text| == 4
    ensures forall c | c in text :: IsEncodingChar(c)
  {
    var a := group[0];
    var b: Byte := if |group| > 1 then group[1] else 0;
    var c: Byte := if |group| > 2 then group[2] else 0;
    LetterIsRead(a / 4);
    LetterIsRead(a % 4 * 16 + b / 16);
    LetterIsRead(b % 16 * 4 + c / 64);
    LetterIsRead(c % 64);
    [Letter(a / 4), Letter(a % 4 * 16 + b / 16),
     if |group| > 1 then Letter(b % 16 * 4 + c / 64) else '=',
     if |group| > 2 then Letter(c % 64) else '=']
  }

  function Encode(bytes: seq<Byte>): (text: string)
    ensures forall c | c in text :: IsEncodingChar(c)
    ensures text == "" <==> bytes == []
  {
    if bytes == [] then ""
    else if |bytes| <= 3 then EncodeGroup(bytes)
    else EncodeGroup(bytes[..3]) + Encode(bytes[3..])
  }

  /** Four characters for every three bytes begun. */
  lemma {:induction false} EncodedLength(bytes: seq<Byte>)
    ensures |Encode(bytes)| == (|bytes| + 2) / 3 * 4
    decreases |bytes|
  {
    if |bytes| > 3 {
      EncodedLength(bytes[3..]);
      OneMoreGroup(|bytes|);
      assert |Encode(bytes)| == 4 + |Encode(bytes[3..])|;
    }
  }

  lemma OneMoreGroup(n: nat)
    requires n > 3
    ensures (n + 2) / 3 * 4 == 4 + (n - 3 + 2) / 3 * 4
  {
  }

  /** One group of four characters; padding is allowed only in the last group. */
  function DecodeGroup(group: string, isLast: bool): Option<seq<Byte>>
    requires |group| == 4
  {
    var s0, s1, s2, s3 := SextetOf(group[0]), SextetOf(group[1]), SextetOf(group[2]), SextetOf(group[3]);
    if s0.None? || s1.None? then None
    else
      var a: Byte := s0.value * 4 + s1.value / 16;
      if group[2] == '=' && group[3] == '=' && isLast then Some([a])
      else if s2.None? then None
      else
        var b: Byte := s1.value % 16 * 16 + s2.value / 4;
        if group[3] == '=' && isLast then Some([a, b])
        else if s3.None? then None
        else Some([a, b, s2.value % 4 * 64 + s3.value])
  }

  function Decode(text: string): Option<seq<Byte>> {
    if text == "" then Some([])
    else if |text| < 4 then None
    else
      var group := DecodeGroup(text[..4], |text| == 4);
      var rest := Decode(text[4..]);
      if group.None? || rest.None? then None else Some(group.value + rest.value)
  }

  lemma SextetsOfNumber(n: nat, d3: Sextet, d2: Sextet, d1: Sextet, d0: Sextet)
    requires n == d3 * 0x40000 + d2 * 0x1000 + d1 * 0x40 + d0
    ensures n / 0x40000 == d3 && n / 0x1000 % 64 == d2 && n / 0x40 % 64 == d1 && n % 64 == d0
  {
    assert n / 0x1000 == d3 * 64 + d2;
    assert n / 0x40 == d3 * 0x1000 + d2 * 64 + d1;
  }

  /** Three bytes and their four sextets are the digits of one 24-bit number. */
  lemma GroupIsNumber(a: Byte, b: Byte, c: Byte)
    ensures var n := a * 0x10000 + b * 0x100 + c;
            EncodeGroup([a, b, c]) ==
            [Letter(n / 0x40000), Letter(n / 0x1000 % 64), Letter(n / 0x40 % 64), Letter(n % 64)]
  {
    var n := a * 0x10000 + b * 0x100 + c;
    SextetsOfNumber(n, a / 4, a % 4 * 16 + b / 16, b % 16 * 4 + c / 64, c % 64);
  }

  /** The four sextets of three bytes hold all their bits. */
  lemma SextetsRebuild(a: Byte, b: Byte, c: Byte)
    ensures a / 4 * 4 + (a % 4 * 16 + b / 16) / 16 == a
    ensures (a % 4 * 16 + b / 16) % 16 * 16 + (b % 16 * 4 + c / 64) / 4 == b
    ensures (b % 16 * 4 + c / 64) % 4 * 64 + c % 64 == c
  {
  }

  /** Reading four letters puts their sextets together; the last one or two may be padding. */
  lemma LettersAreRead(s0: Sextet, s1: Sextet, s2: Sextet, s3: Sextet, isLast: bool)
    ensures DecodeGroup([Letter(s0), Letter(s1), Letter(s2), Letter(s3)], isLast)
            == Some([s0 * 4 + s1 / 16, s1 % 16 * 16 + s2 / 4, s2 % 4 * 64 + s3])
    ensures DecodeGroup([Letter(s0), Letter(s1), Letter(s2), '='], true)
            == Some([s0 * 4 + s1 / 16, s1 % 16 * 16 + s2 / 4])
    ensures DecodeGroup([Letter(s0), Letter(s1), '=', '='], true) == Some([s0 * 4 + s1 / 16])
  {
    LetterIsRead(s0);
    LetterIsRead(s1);
    LetterIsRead(s2);
    LetterIsRead(s3);
    assert SextetOf('=').None?;
  }

  ghost predicate IsLetter(c: char) {
    'A' <= c <= 'Z' || 'a' <= c <= 'z' || '0' <= c <= '9' || c == '+' || c == '/'
  }

  /** A letter, or padding that is followed by at most one more character, itself padding. */
  ghost predicate IsPlacedAt(text: string, i: nat)
    requires i < |text|
  {
    || IsLetter(text[i])
    || (text[i] == '=' && (i == |text| - 1 || (i == |text| - 2 && text[i + 1] == '=')))
  }

  /** Whole groups of four letters; the last one or two characters may be padding instead. */
  ghost predicate IsPadded(text: string) { |text| % 4 == 0 && forall i | 0 <= i < |text| :: IsPlacedAt(text, i) }

  lemma LettersHaveSextets(c: char)
    ensures SextetOf(c).Some? <==> IsLetter(c)
    ensures IsLetter(c) ==> c != '='
  {
  }

  lemma GroupIsPadded(group: string)
    requires |group| == 4
    ensures IsPadded(group) <==>
            && IsLetter(group[0]) && IsLetter(group[1])
            && (IsLetter(group[2]) || (group[2] == '=' && group[3] == '='))
            && (IsLetter(group[3]) || group[3] == '=')
  {
    if IsPadded(group) {
      assert IsPlacedAt(group, 0) && IsPlacedAt(group, 1) && IsPlacedAt(group, 2) && IsPlacedAt(group, 3);
    }
  }

  lemma GroupReadsPadded(group: string, isLast: bool)
    requires |group| == 4
    ensures DecodeGroup(group, isLast).Some? <==> IsPadded(group) && (isLast || group[3] != '=')
  {
    GroupIsPadded(group);
    LettersHaveSextets(group[0]);
    LettersHaveSextets(group[1]);
    LettersHaveSextets(group[2]);
    LettersHaveSextets(group[3]);
  }

  lemma FirstGroup(text: string)
    requires |text| > 4
    ensures IsPadded(text) <==> IsPadded(text[..4]) && text[3] != '=' && IsPadded(text[4..])
  {
    var group, rest := text[..4], text[4..];
    GroupIsPadded(group);
    LettersHaveSextets(text[2]);
    LettersHaveSextets(text[3]);
    forall i | 0 <= i < |rest| ensures IsPlacedAt(rest, i) <==> IsPlacedAt(text, i + 4) {
    }
    if IsPadded(text) {
      assert IsPlacedAt(text, 0) && IsPlacedAt(text, 1) && IsPlacedAt(text, 2) && IsPlacedAt(text, 3);
    }
    if IsPadded(group) && text[3] != '=' && IsPadded(rest) {
      forall i | 0 <= i < |text| ensures IsPlacedAt(text, i) {
        if i >= 4 { assert IsPlacedAt(rest, i - 4); }
      }
    }
  }

  /** Exactly such texts are decoded, and nothing else is. */
  lemma {:induction false} DecodesExact(text: string)
    ensures Decode(text).Some? <==> IsPadded(text)
    decreases |text|
  {
    if |text| == 4 {
      assert text[..4] == text && text[4..] == "";
      GroupReadsPadded(text, true);
    } else if |text| > 4 {
      GroupReadsPadded(text[..4], false);
      DecodesExact(text[4..]);
      FirstGroup(text);
    }
  }

  lemma OneByteIsRead(a: Byte)
    ensures DecodeGroup(EncodeGroup([a]), true) == Some([a])
  {
    LettersAreRead(a / 4, a % 4 * 16, 0, 0, true);
    assert EncodeGroup([a]) == [Letter(a / 4), Letter(a % 4 * 16), '=', '='];
  }

  lemma TwoBytesAreRead(a: Byte, b: Byte)
    ensures DecodeGroup(EncodeGroup([a, b]), true) == Some([a, b])
  {
    SextetsRebuild(a, b, 0);
    LettersAreRead(a / 4, a % 4 * 16 + b / 16, b % 16 * 4, 0, true);
    assert EncodeGroup([a, b]) == [Letter(a / 4), Letter(a % 4 * 16 + b / 16), Letter(b % 16 * 4), '='];
  }

  lemma ThreeBytesAreRead(a: Byte, b: Byte, c: Byte, isLast: bool)
    ensures DecodeGroup(EncodeGroup([a, b, c]), isLast) == Some([a, b, c])
  {
    var s0: Sextet, s1: Sextet, s2: Sextet, s3: Sextet := a / 4, a % 4 * 16 + b / 16, b % 16 * 4 + c / 64, c % 64;
    assert s0 * 4 + s1 / 16 == a && s1 % 16 * 16 + s2 / 4 == b && s2 % 4 * 64 + s3 == c by { SextetsRebuild(a, b, c); }
    assert EncodeGroup([a, b, c]) == [Letter(s0), Letter(s1), Letter(s2), Letter(s3)];
    LettersAreRead(s0, s1, s2, s3, isLast);
  }

  lemma GroupIsRead(group: seq<Byte>, isLast: bool)
    requires 1 <= |group| <= 3 && (|group| < 3 ==> isLast)
    ensures DecodeGroup(EncodeGroup(group), isLast) == Some(group)
  {
    if |group| == 1 {
      assert group == [group[0]];
      OneByteIsRead(group[0]);
    } else if |group| == 2 {
      assert group == [group[0], group[1]];
      TwoBytesAreRead(group[0], group[1]);
    } else {
      assert group == [group[0], group[1], group[2]];
      ThreeBytesAreRead(group[0], group[1], group[2], isLast);
    }
  }

  /** Decoding undoes encoding for every byte string. */
  lemma {:induction false} DecodeEncode(bytes: seq<Byte>)
    ensures Decode(Encode(bytes)) == Some(bytes)
    decreases |bytes|
  {
    if 0 < |bytes| <= 3 {
      GroupIsRead(bytes, true);
      var text := Encode(bytes);
      assert text[..4] == text && text[4..] == "";
      assert Decode(text[4..]) == Some([]) && bytes + [] == bytes;
    } else if |bytes| > 3 {
      var first, rest := bytes[..3], bytes[3..];
      DecodeEncode(rest);
      GroupIsRead(first, false);
      var text := Encode(bytes);
      assert text[..4] == EncodeGroup(first) && text[4..] == Encode(rest);
      assert bytes == first + rest;
    }
  }
}
