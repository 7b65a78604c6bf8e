/** The three encodings under which src/sanitize.rs also looks for a secret:
    the UTF-8 bytes of a text, padded base64 with the standard alphabet
    (section 4 of RFC 4648) or the URL- and filename-safe alphabet
    (section 5 of RFC 4648), and percent-encoding (section 2.1 of RFC 3986)
    of every byte outside the unreserved set of section 2.3 of RFC 3986.
    Each encoder has a decoder beside it that undoes it. */
module Encoding {
  import opened Errors
  import opened Text

  type Byte = x: int | 0 <= x < 256

  // ---------------------------------------------------------------------
  // UTF-8 (`str::as_bytes`)

  /** The UTF-8 encoding of one Unicode scalar value. */
  function Utf8Char(c: char): (b: seq<Byte>)
    ensures 1 <= |b| <= 4
    ensures |b| == 1 <==> c as int < 0x80
    ensures |b| == 1 ==> b[0] == c as int
    ensures |b| > 1 ==> forall i :: 0 <= i < |b| ==> b[i] >= 0x80
  {
    var n := c as int;
    if n < 0x80 then [n]
    else if n < 0x800 then [0xC0 + n / 0x40, 0x80 + n % 0x40]
    else if n < 0x1_0000 then [0xE0 + n / 0x1000, 0x80 + n / 0x40 % 0x40, 0x80 + n % 0x40]
    else [0xF0 + n / 0x4_0000, 0x80 + n / 0x1000 % 0x40, 0x80 + n / 0x40 % 0x40, 0x80 + n % 0x40]
  }

  /** The UTF-8 bytes of a text: one to four per character. */
  function Utf8(s: string): (b: seq<Byte>)
    ensures |s| <= |b| <= 4 * |s|
  {
    if s == [] then [] else Utf8Char(s[0]) + Utf8(s[1..])
  }

  lemma {:induction false} Utf8Concat(s: string, t: string)
    ensures Utf8(s + t) == Utf8(s) + Utf8(t)
    decreases |s|
  {
    if s != [] {
      assert (s + t)[1..] == s[1..] + t;
      Utf8Concat(s[1..], t);
    } else {
      assert s + t == t;
    }
  }

  /** ASCII text is its own UTF-8: one byte per character, its code. */
  lemma {:induction false} Utf8Ascii(s: string)
    requires forall i | 0 <= i < |s| :: s[i] as int < 0x80
    ensures |Utf8(s)| == |s| && forall i | 0 <= i < |s| :: Utf8(s)[i] == s[i] as int
    decreases |s|
  {
    if s != [] {
      Utf8Ascii(s[1..]);
    }
  }

  // ---------------------------------------------------------------------
  // Base64 (RFC 4648)

  /** The character of a 6-bit value: `A-Z`, `a-z`, `0-9`, then `+` and `/`
      in the standard alphabet or `-` and `_` in the URL-safe one. */
  function Base64Digit(v: int, urlSafe: bool): (c: char)
    requires 0 <= v < 64
    ensures c != '='
  {
    if v < 26 then ('A' as int + v) as char
    else if v < 52 then ('a' as int + (v - 26)) as char
    else if v < 62 then ('0' as int + (v - 52)) as char
    else if v == 62 then (if urlSafe then '-' else '+')
    else (if urlSafe then '_' else '/')
  }

  /** The 6-bit value of a character of the alphabet. */
  function Base64Value(c: char, urlSafe: bool): Option<int> {
    if 'A' <= c <= 'Z' then Some(c as int - 'A' as int)
    else if 'a' <= c <= 'z' then Some(c as int - 'a' as int + 26)
    else if '0' <= c <= '9' then Some(c as int - '0' as int + 52)
    else if c == (if urlSafe then '-' else '+') then Some(62)
    else if c == (if urlSafe then '_' else '/') then Some(63)
    else None
  }

  lemma DigitValue(v: int, urlSafe: bool)
    requires 0 <= v < 64
    ensures Base64Value(Base64Digit(v, urlSafe), urlSafe) == Some(v)
  {
  }

  /** Padded base64 (`general_purpose::STANDARD` / `URL_SAFE`): each group of
      three bytes becomes four characters, and a last group of one or two
      bytes is completed with `=`. */
  function Base64Encode(b: seq<Byte>, urlSafe: bool): (s: string)
    ensures |s| == (|b| + 2) / 3 * 4
    decreases |b|
  {
    if b == [] then []
    else if |b| == 1 then
      [Base64Digit(b[0] / 4, urlSafe), Base64Digit(b[0] % 4 * 16, urlSafe), '=', '=']
    else if |b| == 2 then
      [Base64Digit(b[0] / 4, urlSafe), Base64Digit(b[0] % 4 * 16 + b[1] / 16, urlSafe),
       Base64Digit(b[1] % 16 * 4, urlSafe), '=']
    else
      [Base64Digit(b[0] / 4, urlSafe), Base64Digit(b[0] % 4 * 16 + b[1] / 16, urlSafe),
       Base64Digit(b[1] % 16 * 4 + b[2] / 64, urlSafe), Base64Digit(b[2] % 64, urlSafe)]
      + Base64Encode(b[3..], urlSafe)
  }

  /** Reads back what `Base64Encode` wrote: groups of four characters, the
      last of which may end in `=` or `==`. */
  function Base64Decode(s: string, urlSafe: bool): Option<seq<Byte>>
    decreases |s|
  {
    if s == [] then Some([])
    else if |s| < 4 then None
    else
      var v0, v1 := Base64Value(s[0], urlSafe), Base64Value(s[1], urlSafe);
      var v2, v3 := Base64Value(s[2], urlSafe), Base64Value(s[3], urlSafe);
      if v0.None? || v1.None? then None
      else if |s| == 4 && s[2] == '=' && s[3] == '=' then
        Some([v0.value * 4 + v1.value / 16])
      else if v2.None? then None
      else if |s| == 4 && s[3] == '=' then
        Some([v0.value * 4 + v1.value / 16, v1.value % 16 * 16 + v2.value / 4])
      else if v3.None? then None
      else
        var rest := Base64Decode(s[4..], urlSafe);
        if rest.None? then None
        else
          Some([v0.value * 4 + v1.value / 16, v1.value % 16 * 16 + v2.value / 4,
                v2.value % 4 * 64 + v3.value] + rest.value)
  }

  /** The arithmetic of one group: the 6-bit values put back together give
      the bytes they were cut from. */
  lemma FirstByte(b0: Byte, b1: Byte)
    ensures b0 / 4 * 4 + (b0 % 4 * 16 + b1 / 16) / 16 == b0
  {
  }

  lemma SecondByte(b0: Byte, b1: Byte, b2: Byte)
    ensures (b0 % 4 * 16 + b1 / 16) % 16 * 16 + (b1 % 16 * 4 + b2 / 64) / 4 == b1
  {
    assert (b0 % 4 * 16 + b1 / 16) % 16 == b1 / 16;
    assert (b1 % 16 * 4 + b2 / 64) / 4 == b1 % 16;
  }

  lemma ThirdByte(b1: Byte, b2: Byte)
    ensures (b1 % 16 * 4 + b2 / 64) % 4 * 64 + b2 % 64 == b2
  {
  }

  lemma RoundTripOne(b: seq<Byte>, urlSafe: bool)
    requires |b| == 1
    ensures Base64Decode(Base64Encode(b, urlSafe), urlSafe) == Some(b)
  {
    var s := Base64Encode(b, urlSafe);
    DigitValue(b[0] / 4, urlSafe);
    DigitValue(b[0] % 4 * 16, urlSafe);
    FirstByte(b[0], 0);
    assert s == [Base64Digit(b[0] / 4, urlSafe), Base64Digit(b[0] % 4 * 16, urlSafe), '=', '='];
    assert Base64Value(s[0], urlSafe) == Some(b[0] / 4);
    assert Base64Value(s[1], urlSafe) == Some(b[0] % 4 * 16);
    assert |s| == 4 && s[2] == '=' && s[3] == '=';
    assert Base64Decode(s, urlSafe) == Some([b[0] / 4 * 4 + b[0] % 4 * 16 / 16]);
    assert [b[0] / 4 * 4 + b[0] % 4 * 16 / 16] == b;
  }

  lemma RoundTripTwo(b: seq<Byte>, urlSafe: bool)
    requires |b| == 2
    ensures Base64Decode(Base64Encode(b, urlSafe), urlSafe) == Some(b)
  {
    PairValues(b, urlSafe);
    DecodePair(Base64Encode(b, urlSafe), b[0], b[1], urlSafe);
    assert b == [b[0], b[1]];
  }

  /** The three characters a last group of two bytes is written with
      read back as the 6-bit values they were made from. */
  lemma PairValues(b: seq<Byte>, urlSafe: bool)
    requires |b| == 2
    ensures var s := Base64Encode(b, urlSafe);
      && |s| == 4 && s[2] != '=' && s[3] == '='
      && Base64Value(s[0], urlSafe) == Some(b[0] / 4)
      && Base64Value(s[1], urlSafe) == Some(b[0] % 4 * 16 + b[1] / 16)
      && Base64Value(s[2], urlSafe) == Some(b[1] % 16 * 4)
  {
    DigitValue(b[0] / 4, urlSafe);
    DigitValue(b[0] % 4 * 16 + b[1] / 16, urlSafe);
    DigitValue(b[1] % 16 * 4, urlSafe);
  }

  /** Four characters ending in one `=` that hold the 6-bit values of two
      bytes decode to those bytes. */
  lemma DecodePair(s: string, b0: Byte, b1: Byte, urlSafe: bool)
    requires |s| == 4 && s[2] != '=' && s[3] == '='
    requires Base64Value(s[0], urlSafe) == Some(b0 / 4)
    requires Base64Value(s[1], urlSafe) == Some(b0 % 4 * 16 + b1 / 16)
    requires Base64Value(s[2], urlSafe) == Some(b1 % 16 * 4)
    ensures Base64Decode(s, urlSafe) == Some([b0, b1])
  {
    FirstByte(b0, b1);
    SecondByte(b0, b1, 0);
  }

  /** How `Base64Decode` reads a full group of four alphabet characters. */
  lemma DecodeGroup(s: string, urlSafe: bool, v0: int, v1: int, v2: int, v3: int)
    requires |s| >= 4 && s[2] != '=' && s[3] != '='
    requires Base64Value(s[0], urlSafe) == Some(v0) && Base64Value(s[1], urlSafe) == Some(v1)
    requires Base64Value(s[2], urlSafe) == Some(v2) && Base64Value(s[3], urlSafe) == Some(v3)
    requires Base64Decode(s[4..], urlSafe).Some?
    ensures Base64Decode(s, urlSafe)
         == Some([v0 * 4 + v1 / 16, v1 % 16 * 16 + v2 / 4, v2 % 4 * 64 + v3]
                 + Base64Decode(s[4..], urlSafe).value)
  {
  }

  /** The encoding of a full group, character by character. */
  lemma EncodeGroup(b: seq<Byte>, urlSafe: bool)
    requires |b| >= 3
    ensures var s := Base64Encode(b, urlSafe);
      && s[0] == Base64Digit(b[0] / 4, urlSafe)
      && s[1] == Base64Digit(b[0] % 4 * 16 + b[1] / 16, urlSafe)
      && s[2] == Base64Digit(b[1] % 16 * 4 + b[2] / 64, urlSafe)
      && s[3] == Base64Digit(b[2] % 64, urlSafe)
      && s[4..] == Base64Encode(b[3..], urlSafe)
  {
  }

  lemma GroupBytes(b0: Byte, b1: Byte, b2: Byte)
    ensures var v0, v1, v2, v3 := b0 / 4, b0 % 4 * 16 + b1 / 16, b1 % 16 * 4 + b2 / 64, b2 % 64;
      [v0 * 4 + v1 / 16, v1 % 16 * 16 + v2 / 4, v2 % 4 * 64 + v3] == [b0, b1, b2]
  {
    FirstByte(b0, b1);
    SecondByte(b0, b1, b2);
    ThirdByte(b1, b2);
  }

  /** Decoding the encoding of a full group gives the group's three bytes
      back, followed by the decoding of the rest. */
  lemma DecodeEncodedGroup(b: seq<Byte>, urlSafe: bool)
    requires |b| >= 3
    requires Base64Decode(Base64Encode(b[3..], urlSafe), urlSafe).Some?
    ensures Base64Decode(Base64Encode(b, urlSafe), urlSafe)
         == Some(b[..3] + Base64Decode(Base64Encode(b[3..], urlSafe), urlSafe).value)
  {
    GroupValues(b, urlSafe);
    DecodeGroupOf(Base64Encode(b, urlSafe), b, urlSafe);
  }

  lemma DecodeGroupOf(s: string, b: seq<Byte>, urlSafe: bool)
    requires |b| >= 3 && |s| >= 4 && s[2] != '=' && s[3] != '='
    requires Base64Value(s[0], urlSafe) == Some(b[0] / 4)
    requires Base64Value(s[1], urlSafe) == Some(b[0] % 4 * 16 + b[1] / 16)
    requires Base64Value(s[2], urlSafe) == Some(b[1] % 16 * 4 + b[2] / 64)
    requires Base64Value(s[3], urlSafe) == Some(b[2] % 64)
    requires Base64Decode(s[4..], urlSafe).Some?
    ensures Base64Decode(s, urlSafe) == Some(b[..3] + Base64Decode(s[4..], urlSafe).value)
  {
    DecodeValues(s, b[0], b[1], b[2], urlSafe);
    assert b[..3] == [b[0], b[1], b[2]];
  }

  /** A text that starts with the four characters of the group `b0 b1 b2`
      decodes to the group, then the decoding of the rest. */
  lemma DecodeValues(s: string, b0: Byte, b1: Byte, b2: Byte, urlSafe: bool)
    requires |s| >= 4 && s[2] != '=' && s[3] != '='
    requires Base64Value(s[0], urlSafe) == Some(b0 / 4)
    requires Base64Value(s[1], urlSafe) == Some(b0 % 4 * 16 + b1 / 16)
    requires Base64Value(s[2], urlSafe) == Some(b1 % 16 * 4 + b2 / 64)
    requires Base64Value(s[3], urlSafe) == Some(b2 % 64)
    requires Base64Decode(s[4..], urlSafe).Some?
    ensures Base64Decode(s, urlSafe) == Some([b0, b1, b2] + Base64Decode(s[4..], urlSafe).value)
  {
    var v0, v1, v2, v3 := b0 / 4, b0 % 4 * 16 + b1 / 16, b1 % 16 * 4 + b2 / 64, b2 % 64;
    DecodeGroup(s, urlSafe, v0, v1, v2, v3);
    GroupBytes(b0, b1, b2);
  }

  /** The four characters of a full group read back as the four 6-bit
      values they were made from. */
  lemma GroupValues(b: seq<Byte>, urlSafe: bool)
    requires |b| >= 3
    ensures var s := Base64Encode(b, urlSafe);
      && |s| >= 4 && s[2] != '=' && s[3] != '='
      && Base64Value(s[0], urlSafe) == Some(b[0] / 4)
      && Base64Value(s[1], urlSafe) == Some(b[0] % 4 * 16 + b[1] / 16)
      && Base64Value(s[2], urlSafe) == Some(b[1] % 16 * 4 + b[2] / 64)
      && Base64Value(s[3], urlSafe) == Some(b[2] % 64)
      && s[4..] == Base64Encode(b[3..], urlSafe)
  {
    EncodeGroup(b, urlSafe);
    DigitValue(b[0] / 4, urlSafe);
    DigitValue(b[0] % 4 * 16 + b[1] / 16, urlSafe);
    DigitValue(b[1] % 16 * 4 + b[2] / 64, urlSafe);
    DigitValue(b[2] % 64, urlSafe);
  }

  lemma RoundTripGroup(b: seq<Byte>, urlSafe: bool)
    requires |b| >= 3
    requires Base64Decode(Base64Encode(b[3..], urlSafe), urlSafe) == Some(b[3..])
    ensures Base64Decode(Base64Encode(b, urlSafe), urlSafe) == Some(b)
  {
    DecodeEncodedGroup(b, urlSafe);
    assert b == b[..3] + b[3..];
  }

  /** Decoding the encoding of any bytes gives those bytes back. */
  lemma {:induction false} Base64RoundTrip(b: seq<Byte>, urlSafe: bool)
    ensures Base64Decode(Base64Encode(b, urlSafe), urlSafe) == Some(b)
    decreases |b|
  {
    if |b| == 1 {
      RoundTripOne(b, urlSafe);
    } else if |b| == 2 {
      RoundTripTwo(b, urlSafe);
    } else if |b| >= 3 {
      Base64RoundTrip(b[3..], urlSafe);
      RoundTripGroup(b, urlSafe);
    }
  }

  /** Nonempty input always has a nonempty encoding, so the emptiness guard of
      the base64 pass in src/sanitize.rs never skips it. */
  lemma Base64NonEmpty(b: seq<Byte>, urlSafe: bool)
    ensures Base64Encode(b, urlSafe) == [] <==> b == []
  {
  }

  /** The URL-safe alphabet is the standard one with `+` and `/` changed. */
  function UrlSafeChar(c: char): char {
    if c == '+' then '-' else if c == '/' then '_' else c
  }

  function UrlSafeText(s: string): (r: string)
    ensures |r| == |s| && forall i :: 0 <= i < |s| ==> r[i] == UrlSafeChar(s[i])
  {
    if s == [] then [] else [UrlSafeChar(s[0])] + UrlSafeText(s[1..])
  }

  /** The URL-safe encoding is the standard encoding with `+` turned into `-`
      and `/` into `_`. */
  lemma UrlSafeIsTranslation(b: seq<Byte>)
    ensures Base64Encode(b, true) == UrlSafeText(Base64Encode(b, false))
  {
    UrlSafeTranslates(b);
  }

  /** `t` is `s` translated character by character. */
  predicate Translates(s: string, t: string) {
    |s| == |t| && forall i | 0 <= i < |s| :: t[i] == UrlSafeChar(s[i])
  }

  lemma {:induction false} UrlSafeTranslates(b: seq<Byte>)
    ensures Translates(Base64Encode(b, false), Base64Encode(b, true))
    decreases |b|
  {
    if |b| >= 3 {
      UrlSafeTranslates(b[3..]);
      GroupTranslates(b);
    } else {
      ShortTranslates(b);
    }
  }

  lemma GroupTranslates(b: seq<Byte>)
    requires |b| >= 3 && Translates(Base64Encode(b[3..], false), Base64Encode(b[3..], true))
    ensures Translates(Base64Encode(b, false), Base64Encode(b, true))
  {
    var s, t := Base64Encode(b, false), Base64Encode(b, true);
    EncodeGroup(b, false);
    EncodeGroup(b, true);
    DigitTranslates(b[0] / 4);
    DigitTranslates(b[0] % 4 * 16 + b[1] / 16);
    DigitTranslates(b[1] % 16 * 4 + b[2] / 64);
    DigitTranslates(b[2] % 64);
    TranslatesAfter(s, t);
  }

  /** Four translated characters followed by a translated rest. */
  lemma TranslatesAfter(s: string, t: string)
    requires |s| >= 4 && |t| >= 4 && Translates(s[4..], t[4..])
    requires t[0] == UrlSafeChar(s[0]) && t[1] == UrlSafeChar(s[1])
    requires t[2] == UrlSafeChar(s[2]) && t[3] == UrlSafeChar(s[3])
    ensures Translates(s, t)
  {
    forall i | 4 <= i < |s| ensures t[i] == UrlSafeChar(s[i]) {
      assert t[i] == t[4..][i - 4] && s[i] == s[4..][i - 4];
    }
  }

  lemma ShortTranslates(b: seq<Byte>)
    requires |b| < 3
    ensures Translates(Base64Encode(b, false), Base64Encode(b, true))
  {
    if |b| == 1 {
      DigitTranslates(b[0] / 4);
      DigitTranslates(b[0] % 4 * 16);
    } else if |b| == 2 {
      DigitTranslates(b[0] / 4);
      DigitTranslates(b[0] % 4 * 16 + b[1] / 16);
      DigitTranslates(b[1] % 16 * 4);
    }
  }

  /** The two alphabets differ only in the digits of 62 and 63. */
  lemma DigitTranslates(v: int)
    requires 0 <= v < 64
    ensures Base64Digit(v, true) == UrlSafeChar(Base64Digit(v, false))
  {
  }

  /** So the two encodings differ exactly when the standard one holds `+` or
      `/`, which is when src/sanitize.rs makes its third pass. */
  lemma UrlSafeDiffers(b: seq<Byte>)
    ensures Base64Encode(b, true) != Base64Encode(b, false)
        <==> '+' in Base64Encode(b, false) || '/' in Base64Encode(b, false)
  {
    var s := Base64Encode(b, false);
    UrlSafeIsTranslation(b);
    if '+' in s || '/' in s {
      var i :| 0 <= i < |s| && (s[i] == '+' || s[i] == '/');
      assert UrlSafeText(s)[i] != s[i];
    } else {
      assert UrlSafeText(s) == s;
    }
  }

  // ---------------------------------------------------------------------
  // Percent-encoding (`urlencoding::encode`)

  /** The unreserved characters of section 2.3 of RFC 3986. */
  predicate IsUnreserved(c: char) {
    IsAsciiAlphanumeric(c) || c == '-' || c == '.' || c == '_' || c == '~'
  }

  function HexDigit(v: int): (c: char)
    requires 0 <= v < 16
  {
    if v < 10 then ('0' as int + v) as char else ('A' as int + (v - 10)) as char
  }

  function HexValue(c: char): Option<int> {
    if '0' <= c <= '9' then Some(c as int - '0' as int)
    else if 'A' <= c <= 'F' then Some(c as int - 'A' as int + 10)
    else if 'a' <= c <= 'f' then Some(c as int - 'a' as int + 10)
    else None
  }

  /** One byte: kept as its character when it is an unreserved ASCII
      character, otherwise `%` and two upper-case hex digits. */
  function PercentByte(x: Byte): (s: string)
    ensures |s| == 1 || |s| == 3
    ensures |s| == 1 <==> x < 0x80 && IsUnreserved(x as char)
    ensures |s| == 1 ==> s[0] as int == x
  {
    if x < 0x80 && IsUnreserved(x as char) then [x as char]
    else ['%', HexDigit(x / 16), HexDigit(x % 16)]
  }

  function PercentEncodeBytes(b: seq<Byte>): (s: string)
    ensures |b| <= |s| <= 3 * |b|
  {
    if b == [] then [] else PercentByte(b[0]) + PercentEncodeBytes(b[1..])
  }

  /** `urlencoding::encode`: the percent-encoding of the UTF-8 bytes. */
  function PercentEncode(s: string): string {
    PercentEncodeBytes(Utf8(s))
  }

  /** Reads back what `PercentEncodeBytes` wrote. */
  function PercentDecode(s: string): Option<seq<Byte>>
    decreases |s|
  {
    if s == [] then Some([])
    else if s[0] == '%' then
      if |s| < 3 then None
      else
        var hi, lo := HexValue(s[1]), HexValue(s[2]);
        var rest := PercentDecode(s[3..]);
        if hi.None? || lo.None? || rest.None? then None
        else Some([hi.value * 16 + lo.value] + rest.value)
    else if s[0] as int < 0x80 then
      var rest := PercentDecode(s[1..]);
      if rest.None? then None else Some([s[0] as int] + rest.value)
    else None
  }

  /** Decoding the percent-encoding of any bytes gives those bytes back. */
  lemma {:induction false} PercentRoundTrip(b: seq<Byte>)
    ensures PercentDecode(PercentEncodeBytes(b)) == Some(b)
    decreases |b|
  {
    if b != [] {
      PercentRoundTrip(b[1..]);
      DecodeByteThen(b[0], PercentEncodeBytes(b[1..]));
      assert b == [b[0]] + b[1..];
    }
  }

  /** The encoding of one byte, in front of text that decodes, decodes to
      that byte in front. */
  lemma DecodeByteThen(x: Byte, rest: string)
    requires PercentDecode(rest).Some?
    ensures PercentDecode(PercentByte(x) + rest) == Some([x] + PercentDecode(rest).value)
  {
    var s := PercentByte(x) + rest;
    if |PercentByte(x)| == 1 {
      assert s[0] == PercentByte(x)[0] && s[1..] == rest;
      DecodeKept(s, x);
    } else {
      HexRoundTrip(x / 16);
      HexRoundTrip(x % 16);
      assert s[0] == '%' && s[1] == HexDigit(x / 16) && s[2] == HexDigit(x % 16) && s[3..] == rest;
      DecodeEscaped(s, x);
    }
  }

  /** A text that starts with the byte `x` as it is decodes to `x`, then
      the rest. */
  lemma DecodeKept(s: string, x: Byte)
    requires s != [] && s[0] as int == x && x < 0x80 && IsUnreserved(x as char)
    requires PercentDecode(s[1..]).Some?
    ensures PercentDecode(s) == Some([x] + PercentDecode(s[1..]).value)
  {
  }

  /** A text that starts with `%` and the two hex digits of `x` decodes to
      `x`, then the rest. */
  lemma DecodeEscaped(s: string, x: Byte)
    requires |s| >= 3 && s[0] == '%'
    requires HexValue(s[1]) == Some(x / 16) && HexValue(s[2]) == Some(x % 16)
    requires PercentDecode(s[3..]).Some?
    ensures PercentDecode(s) == Some([x] + PercentDecode(s[3..]).value)
  {
  }

  lemma HexRoundTrip(v: int)
    requires 0 <= v < 16
    ensures HexValue(HexDigit(v)) == Some(v)
  {
  }

  lemma {:induction false} PercentConcat(a: seq<Byte>, b: seq<Byte>)
    ensures PercentEncodeBytes(a + b) == PercentEncodeBytes(a) + PercentEncodeBytes(b)
    decreases |a|
  {
    if a != [] {
      DropFirst(a, b);
      PercentConcat(a[1..], b);
      Regroup(PercentByte(a[0]), PercentEncodeBytes(a[1..]), PercentEncodeBytes(b));
    } else {
      assert a + b == b;
    }
  }

  /** One character: an unreserved character stays as it is, any other
      character becomes at least three characters. */
  lemma PercentChar(c: char)
    ensures IsUnreserved(c) ==> PercentEncodeBytes(Utf8Char(c)) == [c]
    ensures !IsUnreserved(c) ==> |PercentEncodeBytes(Utf8Char(c))| >= 3
  {
    var b := Utf8Char(c);
    if |b| > 1 {
      assert |PercentByte(b[0])| == 3;
    }
  }

  /** The encoding is never shorter than the text, and is longer as soon as
      one character is not unreserved. */
  lemma {:induction false} PercentLength(s: string)
    ensures |PercentEncode(s)| >= |s|
    ensures (exists i :: 0 <= i < |s| && !IsUnreserved(s[i])) ==> |PercentEncode(s)| >= |s| + 2
    decreases |s|
  {
    if s != [] {
      PercentConcat(Utf8Char(s[0]), Utf8(s[1..]));
      PercentChar(s[0]);
      PercentLength(s[1..]);
      if exists i :: 0 <= i < |s| && !IsUnreserved(s[i]) {
        var i :| 0 <= i < |s| && !IsUnreserved(s[i]);
        if i > 0 {
          assert !IsUnreserved(s[1..][i - 1]);
        }
      }
    }
  }

  /** Percent-encoding leaves a text as it is exactly when every character is
      unreserved, which is when src/sanitize.rs skips its fourth pass. */
  lemma {:induction false} PercentIdentity(s: string)
    ensures PercentEncode(s) == s <==> forall i :: 0 <= i < |s| ==> IsUnreserved(s[i])
    decreases |s|
  {
    PercentLength(s);
    if s != [] && forall i :: 0 <= i < |s| ==> IsUnreserved(s[i]) {
      PercentConcat(Utf8Char(s[0]), Utf8(s[1..]));
      PercentChar(s[0]);
      assert forall i :: 0 <= i < |s| - 1 ==> IsUnreserved(s[1..][i]);
      PercentIdentity(s[1..]);
      assert s == [s[0]] + s[1..];
    }
  }

  lemma UnreservedUnchanged(s: string)
    requires forall i | 0 <= i < |s| :: IsUnreserved(s[i])
    ensures PercentEncode(s) == s
  {
    PercentIdentity(s);
  }
}
