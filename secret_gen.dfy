/** Random secret generation (src/secret_gen.rs): a charset named on the
    command line and `generate`, which draws `length` characters from the
    charset's alphabet. The random number generator is an oracle: the
    indices it returns are passed in as `draws`. */
module SecretGen {
  import opened Text

  datatype Charset = Alphanumeric | Ascii | Hex | Base64

  /** `#[default]` on `Alphanumeric`. */
  const DefaultCharset: Charset := Alphanumeric

  /** `ALPHANUMERIC`, written as its three runs. */
  const UpperChars: string := "ABCDEFGHIJKLMNOPQRSTUVWXYZ"
  const LowerChars: string := "abcdefghijklmnopqrstuvwxyz"
  const DigitChars: string := "0123456789"
  const AlphanumericChars: string := UpperChars + LowerChars + DigitChars
  /** The punctuation `ASCII_PRINTABLE` adds after the alphanumerics. */
  const Punctuation: string := "!@#$%^&*()-_=+[]{}|;:,.<>?"
  const AsciiPrintableChars: string := AlphanumericChars + Punctuation
  const HexChars: string := "0123456789abcdef"
  const Base64Chars: string := AlphanumericChars + "+/"

  /** The lower-case name `from_str` accepts for each charset. */
  function Name(c: Charset): string {
    match c
    case Alphanumeric => "alphanumeric"
    case Ascii => "ascii"
    case Hex => "hex"
    case Base64 => "base64"
  }

  /** `char::to_lowercase`, on the ASCII letters. */
  function LowerChar(c: char): (l: char)
    ensures IsAsciiUpper(c) ==> IsAsciiLower(l) && l as int == c as int + 32
    ensures !IsAsciiUpper(c) ==> l == c
  {
    if IsAsciiUpper(c) then (c as int + 32) as char else c
  }

  /** `str::to_lowercase`, character by character. */
  function Lower(s: string): (l: string)
    ensures |l| == |s|
    ensures forall i | 0 <= i < |s| :: l[i] == LowerChar(s[i])
  {
    seq(|s|, i requires 0 <= i < |s| => LowerChar(s[i]))
  }

  /** The outcome of `Charset::from_str`: a charset, or the message
      `unknown charset: <input>`. */
  datatype Parsed = Known(charset: Charset) | Unknown(message: string)

  function FromStr(s: string): (r: Parsed)
    ensures r.Known? ==> Name(r.charset) == Lower(s)
    ensures r.Unknown? ==> r.message == "unknown charset: " + s
    ensures r.Unknown? <==> forall c: Charset :: Name(c) != Lower(s)
  {
    var l := Lower(s);
    if l == "alphanumeric" then Known(Alphanumeric)
    else if l == "ascii" then Known(Ascii)
    else if l == "hex" then Known(Hex)
    else if l == "base64" then Known(Base64)
    else Unknown("unknown charset: " + s)
  }

  /** Every charset is read back from its own name. */
  lemma FromStrName(c: Charset)
    ensures FromStr(Name(c)) == Known(c)
  {
    var n := Name(c);
    assert Lower(n) == n by {
      forall i | 0 <= i < |n| ensures LowerChar(n[i]) == n[i] {
        assert !IsAsciiUpper(n[i]);
      }
    }
  }

  /** Two spellings that differ only in letter case select the same
      charset, or are both refused. */
  lemma FromStrIgnoresCase(s: string, t: string)
    requires Lower(s) == Lower(t)
    ensures FromStr(s).Known? <==> FromStr(t).Known?
    ensures FromStr(s).Known? ==> FromStr(s) == FromStr(t)
  {
  }

  /** `invalid` is refused, as the unit test on `from_str` checks; and,
      as an example of the lower-casing `from_str` does first, `HEX` in
      upper case is accepted. */
  lemma FromStrExamples(bad: string, upper: string)
    requires bad == "invalid" && upper == "HEX"
    ensures FromStr(bad) == Unknown("unknown charset: invalid")
    ensures FromStr(upper) == Known(Hex)
  {
    assert Lower(bad) == bad by {
      forall i | 0 <= i < |bad| ensures LowerChar(bad[i]) == bad[i] {
        assert !IsAsciiUpper(bad[i]);
      }
    }
    assert Lower(upper) == "hex";
  }

  /** The byte string a charset draws from. */
  function Alphabet(c: Charset): (a: string)
    ensures a != []
  {
    match c
    case Alphanumeric => AlphanumericChars
    case Ascii => AsciiPrintableChars
    case Hex => HexChars
    case Base64 => Base64Chars
  }

  /** What `rng.gen_range(0..chars.len())` promises, once per character:
      one index per character, each inside the alphabet. */
  predicate ValidDraws(draws: seq<nat>, length: nat, c: Charset) {
    |draws| == length && forall i | 0 <= i < |draws| :: draws[i] < |Alphabet(c)|
  }

  /** `generate(length, charset)`, with the generator's indices given. */
  function Generate(length: nat, c: Charset, draws: seq<nat>): (s: string)
    requires ValidDraws(draws, length, c)
    ensures |s| == length
    ensures forall i | 0 <= i < |s| :: s[i] in Alphabet(c)
  {
    seq(length, i requires 0 <= i < length => Alphabet(c)[draws[i]])
  }

  /** The generator can produce every string over the alphabet: the draws
      that pick each character's position produce it. */
  lemma GenerateReachesAll(s: string, c: Charset)
    requires forall i | 0 <= i < |s| :: s[i] in Alphabet(c)
    ensures exists draws :: ValidDraws(draws, |s|, c) && Generate(|s|, c, draws) == s
  {
    var a := Alphabet(c);
    var draws := seq(|s|, i requires 0 <= i < |s| => IndexOf(a, s[i]));
    assert ValidDraws(draws, |s|, c);
    assert Generate(|s|, c, draws) == s;
  }

  /** The characters of the alphanumeric alphabet are ASCII letters and
      digits. */
  lemma AlphanumericAlphabet(x: char)
    requires x in AlphanumericChars
    ensures IsAsciiAlphanumeric(x)
  {
    if x in UpperChars {
      assert IsAsciiUpper(x);
    } else if x in LowerChars {
      assert IsAsciiLower(x);
    } else {
      assert x in DigitChars;
    }
  }

  /** Alphanumeric secrets hold only ASCII letters and digits. */
  lemma AlphanumericOutput(length: nat, draws: seq<nat>)
    requires ValidDraws(draws, length, Alphanumeric)
    ensures forall x | x in Generate(length, Alphanumeric, draws) :: IsAsciiAlphanumeric(x)
  {
    forall x | x in Generate(length, Alphanumeric, draws) ensures IsAsciiAlphanumeric(x) {
      AlphanumericAlphabet(x);
    }
  }

  /** Hex secrets hold only the digits and the lower-case letters `a`-`f`. */
  lemma HexOutput(length: nat, draws: seq<nat>)
    requires ValidDraws(draws, length, Hex)
    ensures forall x | x in Generate(length, Hex, draws) :: IsAsciiDigit(x) || 'a' <= x <= 'f'
  {
    assert forall x | x in HexChars :: IsAsciiDigit(x) || 'a' <= x <= 'f';
  }

  /** Visible ASCII, and none of the characters a shell reads as a quote
      or an escape. */
  predicate ShellQuiet(x: char) {
    '!' <= x <= '~' && x != '"' && x != '\'' && x != '`' && x != '\\'
  }

  /** The punctuation the printable alphabet adds is visible and
      quote-free. */
  lemma PunctuationQuiet(x: char)
    requires x in Punctuation
    ensures ShellQuiet(x)
  {
  }

  /** Printable secrets hold only visible ASCII: no space, no control
      character, nothing a shell would read as a quote. */
  lemma AsciiOutput(length: nat, draws: seq<nat>)
    requires ValidDraws(draws, length, Ascii)
    ensures forall x | x in Generate(length, Ascii, draws) :: ShellQuiet(x)
  {
    forall x | x in AsciiPrintableChars ensures ShellQuiet(x) {
      if x in AlphanumericChars {
        AlphanumericAlphabet(x);
      } else {
        PunctuationQuiet(x);
      }
    }
  }

  /** Base64 secrets hold only ASCII letters, digits, `+` and `/`. */
  lemma Base64Output(length: nat, draws: seq<nat>)
    requires ValidDraws(draws, length, Base64)
    ensures forall x | x in Generate(length, Base64, draws) :: IsAsciiAlphanumeric(x) || x == '+' || x == '/'
  {
    forall x | x in Base64Chars ensures IsAsciiAlphanumeric(x) || x == '+' || x == '/' {
      if x != '+' && x != '/' {
        assert x in AlphanumericChars;
        AlphanumericAlphabet(x);
      }
    }
  }
}
