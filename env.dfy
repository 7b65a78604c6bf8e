/** The `.env` file commands of src/commands/env.rs: how a value is quoted
    for the file, how a line of the file is read back, and the two loops
    that write every secret out and read new ones in. */
module Env {
  import opened Errors
  import opened Text
  import Vault

  // ---------------------------------------------------------------------
  // Writing a value: `quote_env_value`

  /** The characters that make `quote_env_value` wrap a value in quotes. */
  predicate NeedsQuoting(v: string) {
    ' ' in v || '"' in v || '\'' in v || '$' in v || '\n' in v || '#' in v
  }

  /** How one character is written between double quotes. */
  function EscapeChar(c: char): (e: string)
    ensures e == [c] <==> c != '\\' && c != '"' && c != '$' && c != '\n'
    ensures '\n' !in e
  {
    if c == '\\' then "\\\\"
    else if c == '"' then "\\\""
    else if c == '$' then "\\$"
    else if c == '\n' then "\\n"
    else [c]
  }

  /** Escaping character by character. */
  function Escape(v: string): (e: string)
    ensures |v| <= |e| <= 2 * |v|
    ensures '\n' !in e
    decreases |v|
  {
    if v == [] then [] else EscapeChar(v[0]) + Escape(v[1..])
  }

  /** The four `replace` calls of `quote_env_value`, in their order. */
  function EscapeChain(v: string): string {
    Replace(Replace(Replace(Replace(v, "\\", "\\\\"), "\"", "\\\""), "$", "\\$"), "\n", "\\n")
  }

  /** `quote_env_value`: a value with none of space, `"`, `'`, `$`, newline
      or `#` is written as it is; any other is escaped and put between
      double quotes. The written value never spans two lines. */
  function QuoteEnvValue(v: string): (q: string)
    ensures !NeedsQuoting(v) ==> q == v
    ensures NeedsQuoting(v) ==> q == "\"" + Escape(v) + "\""
    ensures '\n' !in q
  {
    if NeedsQuoting(v) then
      assert EscapeChain(v) == Escape(v) by { EscapeChainIsEscape(v); }
      "\"" + EscapeChain(v) + "\""
    else v
  }

  /** Since every pattern of the chain is one character long, the chain
      works on each character separately. */
  lemma {:induction false} EscapeChainIsEscape(v: string)
    ensures EscapeChain(v) == Escape(v)
    decreases |v|
  {
    if v != [] {
      assert v == [v[0]] + v[1..];
      ChainConcat([v[0]], v[1..]);
      ChainChar(v[0]);
      EscapeChainIsEscape(v[1..]);
    }
  }

  lemma ChainConcat(a: string, b: string)
    ensures EscapeChain(a + b) == EscapeChain(a) + EscapeChain(b)
  {
    var a1, b1 := Replace(a, "\\", "\\\\"), Replace(b, "\\", "\\\\");
    ReplaceCharConcat(a, b, '\\', "\\\\");
    var a2, b2 := Replace(a1, "\"", "\\\""), Replace(b1, "\"", "\\\"");
    ReplaceCharConcat(a1, b1, '"', "\\\"");
    var a3, b3 := Replace(a2, "$", "\\$"), Replace(b2, "$", "\\$");
    ReplaceCharConcat(a2, b2, '$', "\\$");
    ReplaceCharConcat(a3, b3, '\n', "\\n");
  }

  /** A backslash is doubled before the other escapes add theirs, so no
      escape is escaped again. */
  lemma ChainChar(c: char)
    ensures EscapeChain([c]) == EscapeChar(c)
  {
    var s1 := Replace([c], "\\", "\\\\");
    assert s1 == if c == '\\' then "\\\\" else [c] by { ReplaceOne(c, '\\', "\\\\"); }
    var s2 := Replace(s1, "\"", "\\\"");
    assert s2 == if c == '"' then "\\\"" else s1 by {
      if c == '"' { ReplaceOne(c, '"', "\\\""); } else { ReplaceMissingChar(s1, '"', "\\\""); }
    }
    var s3 := Replace(s2, "$", "\\$");
    assert s3 == if c == '$' then "\\$" else s2 by {
      if c == '$' { ReplaceOne(c, '$', "\\$"); } else { ReplaceMissingChar(s2, '$', "\\$"); }
    }
    var s4 := Replace(s3, "\n", "\\n");
    assert s4 == if c == '\n' then "\\n" else s3 by {
      if c == '\n' { ReplaceOne(c, '\n', "\\n"); } else { ReplaceMissingChar(s3, '\n', "\\n"); }
    }
  }

  lemma ReplaceOne(c: char, d: char, rep: string)
    ensures Replace([c], [d], rep) == if c == d then rep else [c]
  {
    assert [c][1..] == [];
  }

  /** The unit tests of `quote_env_value`: a plain value is kept, ... */
  lemma QuoteSimple(v: string)
    requires v == "simple"
    ensures QuoteEnvValue(v) == v
  {
    assert !NeedsQuoting(v);
  }

  /** ... a value with a space is put between quotes, ... */
  lemma QuoteSpace(v: string)
    requires v == "has space"
    ensures QuoteEnvValue(v) == "\"" + v + "\""
  {
    assert v[3] == ' ';
    assert Escape(v) == v by { EscapePlain(v); }
  }

  /** ... and a `$` is escaped. */
  lemma QuoteDollar(a: string, b: string)
    requires a == "has" && b == "var"
    ensures QuoteEnvValue(a + "$" + b) == "\"" + a + "\\$" + b + "\""
  {
    QuoteOneEscape(a, '$', b);
  }

  /** A value whose one special character needs escaping is written with
      that character escaped and the rest as it is. */
  lemma QuoteOneEscape(a: string, c: char, b: string)
    requires forall i | 0 <= i < |a| :: EscapeChar(a[i]) == [a[i]]
    requires forall i | 0 <= i < |b| :: EscapeChar(b[i]) == [b[i]]
    requires c == '"' || c == '$'
    ensures QuoteEnvValue(a + [c] + b) == "\"" + a + EscapeChar(c) + b + "\""
  {
    QuotedAround(a, c, b);
    EscapePlain(a);
    EscapePlain(b);
    EscapeAround(a, c, b);
    Surround("\"", a, EscapeChar(c), b);
  }

  /** A value holding a `"` or a `$` is quoted. */
  lemma QuotedAround(a: string, c: char, b: string)
    requires c == '"' || c == '$'
    ensures NeedsQuoting(a + [c] + b)
  {
    assert (a + [c] + b)[|a|] == c;
  }

  /** Wrapping three pieces is wrapping their concatenation. */
  lemma Surround(q: string, x: string, y: string, z: string)
    ensures q + (x + y + z) + q == q + x + y + z + q
  {
  }

  /** Escaping acts only on the one special character between plain text. */
  lemma EscapeAround(a: string, c: char, b: string)
    requires Escape(a) == a && Escape(b) == b
    ensures Escape(a + [c] + b) == a + EscapeChar(c) + b
  {
    Regroup(a, [c], b);
    EscapeCons(c, b);
    EscapeConcat(a, [c] + b);
    Regroup(a, EscapeChar(c), b);
  }

  lemma EscapeCons(c: char, b: string)
    ensures Escape([c] + b) == EscapeChar(c) + Escape(b)
  {
    DropFirst([c], b);
  }

  /** Text without any of the four escaped characters escapes to itself. */
  lemma {:induction false} EscapePlain(v: string)
    requires forall i | 0 <= i < |v| :: EscapeChar(v[i]) == [v[i]]
    ensures Escape(v) == v
    decreases |v|
  {
    if v != [] {
      EscapePlain(v[1..]);
      assert v == [v[0]] + v[1..];
    }
  }

  lemma {:induction false} EscapeConcat(a: string, b: string)
    ensures Escape(a + b) == Escape(a) + Escape(b)
    decreases |a|
  {
    if a != [] {
      DropFirst(a, b);
      EscapeConcat(a[1..], b);
      Regroup(EscapeChar(a[0]), Escape(a[1..]), Escape(b));
    } else {
      assert a + b == b;
    }
  }

  // ---------------------------------------------------------------------
  // Reading a value: `unquote_env_value`

  /** The five `replace` calls of `unquote_env_value`, in their order. */
  function UnescapeChain(inner: string): string {
    Replace(Replace(Replace(Replace(Replace(inner, "\\n", "\n"), "\\\"", "\""), "\\'", "'"), "\\$", "$"), "\\\\", "\\")
  }

  /** `v` starts and ends with the quote `q`; a single `q` does both. */
  predicate WrappedIn(v: string, q: char) {
    StartsWith(v, [q]) && EndsWith(v, [q])
  }

  predicate IsQuoted(v: string) {
    WrappedIn(v, '"') || WrappedIn(v, '\'')
  }

  /** `unquote_env_value`: trim; a value between matching `"` or `'` loses
      them and has its escapes undone; anything else stays as trimmed. */
  function UnquoteEnvValue(value: string): (r: Outcome<string>)
    ensures r.Panicked? <==> Trim(value) == "\"" || Trim(value) == "'"
    ensures !IsQuoted(Trim(value)) ==> r == Returned(Trim(value))
  {
    UnquoteTrimmed(Trim(value))
  }

  /** `unquote_env_value` after its `trim`. A lone quote character is both
      the start and the end of the value, and the slice between them does
      not exist: the source panics there. */
  function UnquoteTrimmed(v: string): (r: Outcome<string>)
    ensures r.Panicked? <==> v == "\"" || v == "'"
    ensures !IsQuoted(v) ==> r == Returned(v)
  {
    if IsQuoted(v) then
      if |v| < 2 then Panicked else Returned(UnescapeChain(v[1..|v| - 1]))
    else Returned(v)
  }

  /** A value that is its own trim is unquoted as it stands. */
  lemma UnquoteOfTrimmed(v: string)
    requires IsTrimmed(v)
    ensures UnquoteEnvValue(v) == UnquoteTrimmed(v)
  {
    TrimUntouched(v);
  }

  /** Unquoting a trimmed value again gives the same. */
  lemma UnquoteEnvValueField(v: string)
    ensures UnquoteEnvValue(Trim(v)) == UnquoteEnvValue(v)
  {
    TrimIsTrimmed(v);
    TrimUntouched(Trim(v));
  }

  /** Text without a backslash has nothing to undo. */
  lemma UnescapeWithoutBackslash(s: string)
    requires '\\' !in s
    ensures UnescapeChain(s) == s
  {
    NoBackslashPair(s, 'n');
    ReplaceAbsent(s, "\\n", "\n");
    NoBackslashPair(s, '"');
    ReplaceAbsent(s, "\\\"", "\"");
    NoBackslashPair(s, '\'');
    ReplaceAbsent(s, "\\'", "'");
    NoBackslashPair(s, '$');
    ReplaceAbsent(s, "\\$", "$");
    NoBackslashPair(s, '\\');
    ReplaceAbsent(s, "\\\\", "\\");
  }

  lemma NoBackslashPair(s: string, c: char)
    requires '\\' !in s
    ensures !Contains(s, ['\\', c])
  {
    MissingCharNotContained(s, ['\\', c], '\\');
  }

  /** A quoted value without backslashes just loses its quotes. */
  lemma UnquotePlain(q: char, inner: string)
    requires q == '"' || q == '\''
    requires '\\' !in inner
    ensures UnquoteEnvValue([q] + inner + [q]) == Returned(inner)
  {
    QuotedTrim(q, inner);
    InnerOf(q, inner);
    UnescapeWithoutBackslash(inner);
    UnquoteQuotedValue([q] + inner + [q]);
  }

  lemma InnerOf(q: char, inner: string)
    ensures ([q] + inner + [q])[1..|inner| + 1] == inner
  {
  }

  lemma UnquoteQuotedValue(v: string)
    requires IsTrimmed(v) && IsQuoted(v) && |v| >= 2
    ensures UnquoteEnvValue(v) == Returned(UnescapeChain(v[1..|v| - 1]))
  {
    UnquoteOfTrimmed(v);
  }

  lemma UnquoteUnquotedValue(v: string)
    requires IsTrimmed(v) && !IsQuoted(v)
    ensures UnquoteEnvValue(v) == Returned(v)
  {
    UnquoteOfTrimmed(v);
  }

  /** A value between quotes is its own trim, and is quoted. */
  lemma QuotedTrim(q: char, inner: string)
    requires q == '"' || q == '\''
    ensures IsTrimmed([q] + inner + [q])
    ensures IsQuoted([q] + inner + [q])
  {
    Wrapped(q, inner);
    var v := [q] + inner + [q];
    assert v[0] == q && v[|v| - 1] == q;
  }

  lemma Wrapped(q: char, inner: string)
    ensures WrappedIn([q] + inner + [q], q)
  {
    var v := [q] + inner + [q];
    assert v[..1] == [q];
    assert v[|v| - 1..] == [q];
  }

  /** The unit tests of `unquote_env_value`: a plain value, ... */
  lemma UnquoteSimple(v: string)
    requires v == "simple"
    ensures UnquoteEnvValue(v) == Returned(v)
  {
    PlainWord(v);
    UnquoteUnquotedValue(v);
  }

  /** A word of letters, digits, `-` and `_` is trimmed and unquoted. */
  lemma PlainWord(v: string)
    requires v != [] && forall i | 0 <= i < |v| :: IsAsciiAlphanumeric(v[i]) || v[i] == '-' || v[i] == '_'
    ensures IsTrimmed(v) && !IsQuoted(v)
  {
  }

  /** ... a double-quoted value, ... */
  lemma UnquoteDouble(inner: string)
    requires inner == "quoted"
    ensures UnquoteEnvValue("\"" + inner + "\"") == Returned(inner)
  {
    UnquotePlain('"', inner);
  }

  /** ... a single-quoted one, ... */
  lemma UnquoteSingle(inner: string)
    requires inner == "single"
    ensures UnquoteEnvValue("'" + inner + "'") == Returned(inner)
  {
    UnquotePlain('\'', inner);
  }

  /** An escape between backslash-free text is undone. */
  lemma UnescapeOne(a: string, c: char, b: string, d: char)
    requires '\\' !in a && '\\' !in b
    requires c in "n\"'$" && d == (if c == 'n' then '\n' else c)
    ensures UnescapeChain(a + ['\\', c] + b) == a + [d] + b
  {
    var s := a + ['\\', c] + b;
    var t := a + [d] + b;
    assert '\\' !in t;
    // The `replace` that matches `\c` turns `s` into `t`; the others see no
    // pair to replace, before it in `s` and after it in `t`.
    var s1 := Replace(s, "\\n", "\n");
    assert s1 == if c == 'n' then t else s by {
      if c == 'n' { ReplaceEscape(a, c, b, d); } else { OnlyPair(a, c, b, 'n'); ReplaceAbsent(s, "\\n", "\n"); }
    }
    var s2 := Replace(s1, "\\\"", "\"");
    assert s2 == if c in "n\"" then t else s by {
      if c == '"' { ReplaceEscape(a, c, b, d); }
      else if c == 'n' { NoBackslashPair(t, '"'); ReplaceAbsent(t, "\\\"", "\""); }
      else { OnlyPair(a, c, b, '"'); ReplaceAbsent(s, "\\\"", "\""); }
    }
    var s3 := Replace(s2, "\\'", "'");
    assert s3 == if c in "n\"'" then t else s by {
      if c == '\'' { ReplaceEscape(a, c, b, d); }
      else if c in "n\"" { NoBackslashPair(t, '\''); ReplaceAbsent(t, "\\'", "'"); }
      else { OnlyPair(a, c, b, '\''); ReplaceAbsent(s, "\\'", "'"); }
    }
    var s4 := Replace(s3, "\\$", "$");
    assert s4 == t by {
      if c == '$' { ReplaceEscape(a, c, b, d); }
      else { NoBackslashPair(t, '$'); ReplaceAbsent(t, "\\$", "$"); }
    }
    NoBackslashPair(t, '\\');
    ReplaceAbsent(t, "\\\\", "\\");
  }

  /** In `a + ['\\', c] + b` the only pair starting with a backslash is
      the one after `a`. */
  lemma OnlyPair(a: string, c: char, b: string, e: char)
    requires '\\' !in a && '\\' !in b && c != e && c != '\\'
    ensures !Contains(a + ['\\', c] + b, ['\\', e])
  {
    var s := a + ['\\', c] + b;
    forall i | 0 <= i < |s| - 1
      ensures s[i] != '\\' || s[i + 1] != e
    {
      if i < |a| {
        assert s[i] == a[i];
      } else if i == |a| {
        assert s[i + 1] == c;
      } else if i == |a| + 1 {
        assert s[i] == c;
      } else {
        assert s[i] == b[i - |a| - 2];
      }
    }
    PairAbsent(s, ['\\', e], 0);
  }

  lemma ReplaceEscape(a: string, c: char, b: string, d: char)
    requires '\\' !in a && '\\' !in b
    ensures Replace(a + ['\\', c] + b, ['\\', c], [d]) == a + [d] + b
  {
    assert !Contains(a + ['\\'], ['\\', c]) by {
      MissingCharNotContained(a, ['\\'], '\\');
      PairAbsent(a + ['\\'], ['\\', c], 0);
    }
    assert ['\\', c][..1] == ['\\'];
    ReplaceAfter(a, ['\\', c], b, [d]);
    ReplaceAbsent(b, ['\\', c], [d]) by { MissingCharNotContained(b, ['\\', c], '\\'); }
  }

  /** ... and the two escaped values `"with\nnewline"` and
      `"with\"quote"`. */
  lemma UnquoteNewline(a: string, b: string)
    requires a == "with" && b == "newline"
    ensures UnquoteEnvValue("\"" + a + "\\n" + b + "\"") == Returned(a + "\n" + b)
  {
    UnquoteEscaped(a, 'n', b, '\n');
  }

  lemma UnquoteQuote(a: string, b: string)
    requires a == "with" && b == "quote"
    ensures UnquoteEnvValue("\"" + a + "\\\"" + b + "\"") == Returned(a + "\"" + b)
  {
    UnquoteEscaped(a, '"', b, '"');
  }

  lemma UnquoteEscaped(a: string, c: char, b: string, d: char)
    requires '\\' !in a && '\\' !in b
    requires c in "n\"'$" && d == (if c == 'n' then '\n' else c)
    ensures UnquoteEnvValue("\"" + a + ['\\', c] + b + "\"") == Returned(a + [d] + b)
  {
    var inner := a + ['\\', c] + b;
    assert "\"" + a + ['\\', c] + b + "\"" == ['"'] + inner + ['"'];
    QuotedTrim('"', inner);
    InnerOf('"', inner);
    UnescapeOne(a, c, b, d);
    UnquoteQuotedValue(['"'] + inner + ['"']);
  }

  // ---------------------------------------------------------------------
  // Quoting and unquoting do not undo each other

  /** `quote_env_value` writes a value with a space, a backslash and an `n`
      as `" \\n"`; the first `replace` of `unquote_env_value` reads the
      second backslash and the `n` as a newline, so the value comes back
      with a newline in place of its `n`. */
  lemma QuoteNotUndone(v: string, w: string)
    requires v == [' ', '\\', 'n'] && w == [' ', '\\', '\n']
    ensures UnquoteEnvValue(QuoteEnvValue(v)) == Returned(w) && w != v
  {
    var e := [' ', '\\', '\\', 'n'];
    assert Escape(v) == e by {
      assert Escape(v[2..]) == "n";
      assert Escape(v[1..]) == "\\\\n";
    }
    assert NeedsQuoting(v) by { assert v[0] == ' '; }
    var q := ['"'] + e + ['"'];
    assert QuoteEnvValue(v) == q;
    QuotedTrim('"', e);
    InnerOf('"', e);
    UnquoteQuotedValue(q);
    ChainOnDoubledBackslash(e, w);
  }

  /** The chain on ` \\n`: `\n` is replaced first, taking the second
      backslash; the backslash left over pairs with nothing. */
  lemma ChainOnDoubledBackslash(e: string, w: string)
    requires e == [' ', '\\', '\\', 'n'] && w == [' ', '\\', '\n']
    ensures UnescapeChain(e) == w
  {
    assert e == [' ', '\\'] + "\\n" + [];
    PairAbsent([' ', '\\', '\\'], "\\n", 0);
    assert [' ', '\\'] + "\\n"[..1] == [' ', '\\', '\\'];
    ReplaceAfter([' ', '\\'], "\\n", [], "\n");
    assert Replace(e, "\\n", "\n") == w;
    PairAbsent(w, "\\\"", 0);
    ReplaceAbsent(w, "\\\"", "\"");
    PairAbsent(w, "\\'", 0);
    ReplaceAbsent(w, "\\'", "'");
    PairAbsent(w, "\\$", 0);
    ReplaceAbsent(w, "\\$", "$");
    PairAbsent(w, "\\\\", 0);
    ReplaceAbsent(w, "\\\\", "\\");
  }

  /** The characters `unquote_env_value` knows after a backslash. */
  predicate IsEscapable(c: char) {
    c == 'n' || c == '"' || c == '\'' || c == '$' || c == '\\'
  }

  /** The character the escape `\c` stands for. */
  function Unescaped(c: char): char {
    if c == 'n' then '\n' else c
  }

  /** The escapes undone in one pass from left to right: a backslash pairs
      with the character right after it, so the second backslash of `\\`
      never starts an escape of its own. */
  function Unescape(s: string): (r: string)
    ensures |r| <= |s|
    decreases |s|
  {
    if s == [] then []
    else if |s| >= 2 && s[0] == '\\' && IsEscapable(s[1]) then [Unescaped(s[1])] + Unescape(s[2..])
    else [s[0]] + Unescape(s[1..])
  }

  /** `Unescape` undoes `Escape`. */
  lemma {:induction false} UnescapeEscape(v: string)
    ensures Unescape(Escape(v)) == v
    decreases |v|
  {
    if v != [] {
      var c, rest := v[0], Escape(v[1..]);
      UnescapeEscape(v[1..]);
      var s := EscapeChar(c) + rest;
      if EscapeChar(c) == [c] {
        assert s[0] == c && s[1..] == rest;
      } else {
        assert s[0] == '\\' && IsEscapable(s[1]) && Unescaped(s[1]) == c && s[2..] == rest;
      }
      assert v == [c] + v[1..];
    }
  }

  /** Text without a backslash has nothing to undo. */
  lemma {:induction false} UnescapePlain(s: string)
    requires '\\' !in s
    ensures Unescape(s) == s
    decreases |s|
  {
    if s != [] {
      assert s[0] != '\\';
      UnescapePlain(s[1..]);
      assert s == [s[0]] + s[1..];
    }
  }

  /** `unquote_env_value` with its escapes undone by `Unescape`. */
  function UnquoteValue(value: string): (r: Outcome<string>)
    ensures r.Panicked? <==> Trim(value) == "\"" || Trim(value) == "'"
    ensures !IsQuoted(Trim(value)) ==> r == Returned(Trim(value))
  {
    UnquoteTrimmedValue(Trim(value))
  }

  function UnquoteTrimmedValue(v: string): (r: Outcome<string>)
    ensures r.Panicked? <==> v == "\"" || v == "'"
    ensures !IsQuoted(v) ==> r == Returned(v)
  {
    if IsQuoted(v) then
      if |v| < 2 then Panicked else Returned(Unescape(v[1..|v| - 1]))
    else Returned(v)
  }

  lemma UnquoteValueOfTrimmed(v: string)
    requires IsTrimmed(v)
    ensures UnquoteValue(v) == UnquoteTrimmedValue(v)
  {
    TrimUntouched(v);
  }

  /** Unquoting a trimmed value again gives the same. */
  lemma UnquoteValueField(v: string)
    ensures UnquoteValue(Trim(v)) == UnquoteValue(v)
  {
    TrimIsTrimmed(v);
    TrimUntouched(Trim(v));
  }

  /** What `quote_env_value` writes, `UnquoteValue` reads back: the value
      itself when it was quoted, and the value without surrounding
      whitespace when it was written as it is. */
  lemma QuoteThenUnquote(v: string)
    ensures UnquoteValue(QuoteEnvValue(v)) == Returned(if NeedsQuoting(v) then v else Trim(v))
  {
    if NeedsQuoting(v) {
      QuotedThenUnquoted(v);
    } else {
      PlainThenUnquoted(v);
    }
  }

  lemma QuotedThenUnquoted(v: string)
    requires NeedsQuoting(v)
    ensures UnquoteValue(QuoteEnvValue(v)) == Returned(v)
  {
    var e := Escape(v);
    assert QuoteEnvValue(v) == ['"'] + e + ['"'];
    QuotedTrim('"', e);
    InnerOf('"', e);
    UnquoteValueOfTrimmed(['"'] + e + ['"']);
    UnescapeEscape(v);
  }

  lemma PlainThenUnquoted(v: string)
    requires !NeedsQuoting(v)
    ensures UnquoteValue(QuoteEnvValue(v)) == Returned(Trim(v))
  {
    TrimChars(v);
    var t := Trim(v);
    assert t != [] ==> t[0] in v;
  }

  /** The two unquotings differ only on values with a backslash. */
  lemma UnquoteAgreesWithoutBackslash(value: string)
    requires '\\' !in value
    ensures UnquoteValue(value) == UnquoteEnvValue(value)
  {
    TrimChars(value);
    var v := Trim(value);
    if IsQuoted(v) && |v| >= 2 {
      var inner := v[1..|v| - 1];
      assert forall c | c in inner :: c in v;
      UnescapePlain(inner);
      UnescapeWithoutBackslash(inner);
    }
  }

  // ---------------------------------------------------------------------
  // Reading a line: `parse_env_line`

  const ExportPrefix := "export "

  /** `strip_prefix("export ")`: at most one prefix is removed. */
  function StripExport(line: string): (r: string)
    ensures StartsWith(line, ExportPrefix) ==> ExportPrefix + r == line
    ensures !StartsWith(line, ExportPrefix) ==> r == line
  {
    if StartsWith(line, ExportPrefix) then
      assert line == line[..|ExportPrefix|] + line[|ExportPrefix|..];
      line[|ExportPrefix|..]
    else line
  }

  /** A name the parser accepts: letters, digits and `_`. */
  predicate IsEnvName(name: string) {
    name != [] && forall i | 0 <= i < |name| :: IsAsciiAlphanumeric(name[i]) || name[i] == '_'
  }

  /** The part of `parse_env_line` before the value is unquoted: at most
      one `export ` dropped, the split at the first `=`, and both sides
      trimmed. */
  function SplitAssignment(line: string): (r: Option<(string, string)>)
    ensures '=' !in line ==> r == None
    ensures r.Some? ==> '=' in line && IsTrimmed(r.value.0) && IsTrimmed(r.value.1)
  {
    var rest := StripExport(line);
    assert forall c | c in rest :: c in line;
    match SplitOnce(rest, '=')
    case None => None
    case Some((before, after)) =>
      TrimIsTrimmed(before);
      TrimIsTrimmed(after);
      Some((Trim(before), Trim(after)))
  }

  /** The end of `parse_env_line`: a panic of the unquoting passes
      through; otherwise the pair is kept when the name is valid. The value
      is unquoted before the name is checked, so a lone quote panics even
      on a line whose name is refused. */
  function Accept(name: string, unquoted: Outcome<string>): (r: Outcome<Option<(string, string)>>)
    ensures r.Panicked? <==> unquoted.Panicked?
    ensures r.Returned? && r.value.Some? <==> unquoted.Returned? && IsEnvName(name)
    ensures r.Returned? && r.value.Some? ==> r.value.value == (name, unquoted.value)
  {
    match unquoted
    case Panicked => Panicked
    case Returned(value) => if IsEnvName(name) then Returned(Some((name, value))) else Returned(None)
  }

  /** `parse_env_line`, with the value unquoted by `unquote_env_value` as
      written: its chain of `replace` calls (see `QuoteNotUndone`). */
  function ParseEnvLine(line: string): (r: Outcome<Option<(string, string)>>)
    ensures '=' !in line ==> r == Returned(None)
    ensures r.Returned? && r.value.Some? ==> IsEnvName(r.value.value.0) && '=' in line
  {
    match SplitAssignment(line)
    case None => Returned(None)
    case Some((name, field)) => Accept(name, UnquoteEnvValue(field))
  }

  /** `parse_env_line` as evidently intended: the value's escapes undone
      by the single pass `Unescape`. */
  function ParseEnvLineCorrected(line: string): (r: Outcome<Option<(string, string)>>)
    ensures '=' !in line ==> r == Returned(None)
    ensures r.Returned? && r.value.Some? ==> IsEnvName(r.value.value.0) && '=' in line
  {
    match SplitAssignment(line)
    case None => Returned(None)
    case Some((name, field)) => Accept(name, UnquoteValue(field))
  }

  /** The two parsers agree on every line without a backslash. */
  lemma ParsersAgreeWithoutBackslash(line: string)
    requires '\\' !in line
    ensures ParseEnvLine(line) == ParseEnvLineCorrected(line)
  {
    var rest := StripExport(line);
    assert forall c | c in rest :: c in line;
    match SplitOnce(rest, '=')
    case None =>
    case Some((before, after)) =>
      assert forall c | c in after :: c in rest;
      TrimChars(after);
      UnquoteAgreesWithoutBackslash(Trim(after));
  }

  /** `NAME=value`, with a value that needs no unquoting, reads back as
      that pair: the split is at the first `=`, so the value may hold more
      of them. */
  lemma ParseAssignment(name: string, value: string)
    requires IsEnvName(name)
    requires IsTrimmed(value) && !IsQuoted(value)
    ensures ParseEnvLine(name + "=" + value) == Returned(Some((name, value)))
  {
    UnquoteUnquotedValue(value);
    ParseField(name, value, value);
  }

  /** A name has no `=` and no surrounding whitespace. */
  lemma EnvNameFacts(name: string)
    requires IsEnvName(name)
    ensures '=' !in name && Trim(name) == name
  {
    assert forall i | 0 <= i < |name| :: name[i] != '=';
    TrimUntouched(name);
  }

  /** A line that starts with a name cannot start with `export `: the
      prefix holds a space, a name does not, and the `=` comes right after
      the name. */
  lemma NoExportPrefix(name: string, value: string)
    requires IsEnvName(name)
    ensures !StartsWith(name + "=" + value, ExportPrefix)
  {
    var line := name + "=" + value;
    var j := if |name| < 7 then |name| else 6;
    assert j < |line| && line[j] != ExportPrefix[j];
    PrefixChar(line, ExportPrefix, j);
  }

  /** `export ` in front of a line that does not already start with it
      changes nothing. */
  lemma ParseExportPrefix(rest: string)
    requires !StartsWith(rest, ExportPrefix)
    ensures ParseEnvLine(ExportPrefix + rest) == ParseEnvLine(rest)
  {
    assert (ExportPrefix + rest)[..|ExportPrefix|] == ExportPrefix;
    assert (ExportPrefix + rest)[|ExportPrefix|..] == rest;
    assert SplitAssignment(ExportPrefix + rest) == SplitAssignment(rest);
  }

  /** The unit tests of `parse_env_line`: a plain assignment, ... */
  lemma ParsePlain(name: string, value: string)
    requires name == "API_KEY" && value == "sk-12345"
    ensures ParseEnvLine(name + "=" + value) == Returned(Some((name, value)))
  {
    PlainWord(value);
    EnvNameWord(name);
    ParseAssignment(name, value);
  }

  lemma EnvNameWord(name: string)
    requires name != [] && forall i | 0 <= i < |name| :: IsAsciiUpper(name[i]) || name[i] == '_'
    ensures IsEnvName(name)
  {
  }

  /** ... one behind `export `, ... */
  lemma ParseExported(name: string, value: string)
    requires name == "DB_PASS" && value == "hunter2"
    ensures ParseEnvLine(ExportPrefix + name + "=" + value) == Returned(Some((name, value)))
  {
    PlainWord(value);
    EnvNameWord(name);
    ParseExportedAssignment(name, value);
  }

  /** `export NAME=value` reads as `NAME=value`. */
  lemma ParseExportedAssignment(name: string, value: string)
    requires IsEnvName(name) && IsTrimmed(value) && !IsQuoted(value)
    ensures ParseEnvLine(ExportPrefix + name + "=" + value) == Returned(Some((name, value)))
  {
    assert ExportPrefix + name + "=" + value == ExportPrefix + (name + "=" + value);
    NoExportPrefix(name, value);
    ParseExportPrefix(name + "=" + value);
    ParseAssignment(name, value);
  }

  /** ... a quoted value, ... */
  lemma ParseQuoted(name: string, inner: string)
    requires name == "QUOTED" && inner == "hello world"
    ensures ParseEnvLine(name + "=\"" + inner + "\"") == Returned(Some((name, inner)))
  {
    EnvNameWord(name);
    assert '\\' !in inner;
    ParseQuotedValue(name, inner);
  }

  /** `NAME="inner"`, without backslashes, reads back as `inner`. */
  lemma ParseQuotedValue(name: string, inner: string)
    requires IsEnvName(name) && '\\' !in inner
    ensures ParseEnvLine(name + "=\"" + inner + "\"") == Returned(Some((name, inner)))
  {
    var quoted := ['"'] + inner + ['"'];
    assert name + "=\"" + inner + "\"" == name + "=" + quoted;
    UnquotePlain('"', inner);
    ParseField(name, quoted, inner);
  }

  /** `NAME=field` splits into the name and the trimmed field. */
  lemma SplitField(name: string, field: string)
    requires IsEnvName(name)
    ensures SplitAssignment(name + "=" + field) == Some((name, Trim(field)))
  {
    EnvNameFacts(name);
    NoExportPrefix(name, field);
    SplitAtFirst(name, '=', field);
  }

  /** `NAME=field` reads as the name and the field unquoted ... */
  lemma ParseField(name: string, field: string, value: string)
    requires IsEnvName(name) && UnquoteEnvValue(field) == Returned(value)
    ensures ParseEnvLine(name + "=" + field) == Returned(Some((name, value)))
  {
    SplitField(name, field);
    UnquoteEnvValueField(field);
  }

  /** ... by either unquoting. */
  lemma ParseFieldCorrected(name: string, field: string, value: string)
    requires IsEnvName(name) && UnquoteValue(field) == Returned(value)
    ensures ParseEnvLineCorrected(name + "=" + field) == Returned(Some((name, value)))
  {
    SplitField(name, field);
    UnquoteValueField(field);
  }

  /** A line `export` writes for a name the parser accepts reads back,
      through the corrected parser, as that name and the value, less its
      surrounding whitespace when it was written without quotes. */
  lemma ExportLineReadsBack(name: string, value: string)
    requires IsEnvName(name)
    ensures ParseEnvLineCorrected(ExportLine(name, value))
         == Returned(Some((name, if NeedsQuoting(value) then value else Trim(value))))
  {
    QuoteThenUnquote(value);
    ParseFieldCorrected(name, QuoteEnvValue(value), if NeedsQuoting(value) then value else Trim(value));
  }

  /** The parser as written reads the line back too when the value holds
      none of the characters `quote_env_value` escapes: then nothing is
      escaped and nothing needs undoing. */
  lemma ExportLineReadsBackUnescaped(name: string, value: string)
    requires IsEnvName(name)
    requires forall i | 0 <= i < |value| :: EscapeChar(value[i]) == [value[i]]
    ensures ParseEnvLine(ExportLine(name, value))
         == Returned(Some((name, if NeedsQuoting(value) then value else Trim(value))))
  {
    EscapePlain(value);
    assert '\\' !in value by {
      forall i | 0 <= i < |value| ensures value[i] != '\\' {
        assert EscapeChar(value[i]) == [value[i]];
      }
    }
    assert '\\' !in name by {
      assert forall i | 0 <= i < |name| :: name[i] != '\\';
    }
    var line := ExportLine(name, value);
    assert forall c | c in line :: c in name || c == '=' || c == '"' || c in value;
    ParsersAgreeWithoutBackslash(line);
    ExportLineReadsBack(name, value);
  }

  /** The parser as written does not read back what `export` writes for
      space, backslash, `n`: the `n` comes back as a line feed. */
  lemma ExportLineNotReadBack(name: string, v: string, w: string)
    requires name == "A" && v == [' ', '\\', 'n'] && w == [' ', '\\', '\n']
    ensures ParseEnvLine(ExportLine(name, v)) == Returned(Some((name, w))) && w != v
  {
    QuoteNotUndone(v, w);
    NameA(name);
    ExportLineParsed(name, v, w);
  }

  lemma NameA(name: string)
    requires name == "A"
    ensures IsEnvName(name)
  {
    EnvNameWord(name);
  }

  /** An exported line reads back as the name and whatever the unquoting
      as written makes of the quoted value. */
  lemma ExportLineParsed(name: string, v: string, w: string)
    requires IsEnvName(name) && UnquoteEnvValue(QuoteEnvValue(v)) == Returned(w)
    ensures ParseEnvLine(ExportLine(name, v)) == Returned(Some((name, w)))
  {
    ParseField(name, QuoteEnvValue(v), w);
  }

  /** ... and three lines without `=`. */
  lemma ParseNoAssignment(comment: string, invalid: string)
    requires comment == "# comment" && invalid == "invalid line"
    ensures ParseEnvLine(comment) == Returned(None)
    ensures ParseEnvLine("") == Returned(None)
    ensures ParseEnvLine(invalid) == Returned(None)
  {
    assert forall i | 0 <= i < |comment| :: comment[i] != '=';
    assert forall i | 0 <= i < |invalid| :: invalid[i] != '=';
  }

  // ---------------------------------------------------------------------
  // `export`: one `NAME=value` line per secret

  function ExportLine(name: string, value: string): string {
    name + "=" + QuoteEnvValue(value)
  }

  datatype ExportResult =
    /** No names: nothing is written. */
    | NothingToExport
    | Exported(content: string)
      /** `failed to get secret '<name>'`. */
    | ExportFailed(name: string, error: Error)

  /** The file `export` writes for `names`, or the first read that fails. */
  function ExportSpec(t: Vault.Table, key: string, names: seq<string>): ExportResult {
    if names == [] then NothingToExport
    else
      var k := Vault.FirstUnreadable(t, key, names);
      if k < |names| then ExportFailed(names[k], Vault.Lookup(t, key, names[k]).error)
      else
        Exported(Join(ExportLines(Vault.ReadAll(t, key, names)), "\n") + "\n")
  }

  /** One `NAME=value` line per secret read, in order. */
  function ExportLines(secrets: seq<(string, string)>): (lines: seq<string>)
    ensures |lines| == |secrets|
    ensures forall j | 0 <= j < |secrets| :: lines[j] == ExportLine(secrets[j].0, secrets[j].1)
  {
    seq(|secrets|, j requires 0 <= j < |secrets| => ExportLine(secrets[j].0, secrets[j].1))
  }

  /** `export`: the names given, or with `all` every stored name in the
      order `list` gives them; then the lines, joined by newlines and ended
      by one. */
  method Export(vault: Vault.Vault, names: seq<string>, all: bool) returns (exported: seq<string>, r: ExportResult)
    ensures !all ==> exported == names
    ensures all ==> forall i, j | 0 <= i < j < |exported| :: Vault.Below(exported[i], exported[j])
    ensures all ==> (|exported| == |vault.conn.secrets|
      && (forall i | 0 <= i < |exported| :: exported[i] in vault.conn.secrets)
      && (forall n | n in vault.conn.secrets :: n in exported))
    ensures r == ExportSpec(vault.conn.secrets, vault.masterKey, exported)
  {
    exported := names;
    if all {
      exported := ListNames(vault);
    }
    r := WriteLines(vault, exported);
  }

  /** The names `export --all` uses: those of `list`, in its order. */
  method ListNames(vault: Vault.Vault) returns (names: seq<string>)
    ensures forall i, j | 0 <= i < j < |names| :: Vault.Below(names[i], names[j])
    ensures |names| == |vault.conn.secrets|
    ensures forall i | 0 <= i < |names| :: names[i] in vault.conn.secrets
    ensures forall n | n in vault.conn.secrets :: n in names
  {
    var listed := vault.List();
    names := seq(|listed|, i requires 0 <= i < |listed| => listed[i].name);
    ListedNames(vault.conn.secrets, listed, names);
  }

  /** `export` once the names are known: read them all, then join the
      lines. */
  method WriteLines(vault: Vault.Vault, names: seq<string>) returns (r: ExportResult)
    ensures r == ExportSpec(vault.conn.secrets, vault.masterKey, names)
  {
    if names == [] {
      return NothingToExport;
    }
    var lines, stop, failure := ReadEach(vault, names);
    if stop < |names| {
      return ExportFailed(names[stop], failure.value);
    }
    r := Exported(Join(lines, "\n") + "\n");
  }

  /** The loop of `export`: read each name and write its line, stopping
      at the first name that cannot be read. */
  method ReadEach(vault: Vault.Vault, names: seq<string>) returns (lines: seq<string>, stop: nat, failure: Option<Error>)
    ensures var t, key := vault.conn.secrets, vault.masterKey;
      stop == Vault.FirstUnreadable(t, key, names)
      && (stop < |names| ==> failure == Some(Vault.Lookup(t, key, names[stop]).error))
      && (stop == |names| ==> lines == ExportLines(Vault.ReadAll(t, key, names)))
  {
    ghost var t, key := vault.conn.secrets, vault.masterKey;
    lines := [];
    var i := 0;
    while i < |names|
      invariant 0 <= i <= |names|
      invariant forall j | 0 <= j < i :: Vault.Lookup(t, key, names[j]).Ok?
      invariant |lines| == i
      invariant forall j | 0 <= j < i :: lines[j] == ExportLine(names[j], Vault.Lookup(t, key, names[j]).value)
    {
      var value := vault.Get(names[i]);
      if value.Err? {
        Vault.FirstUnreadableAt(t, key, names, i);
        return lines, i, Some(value.error);
      }
      ReadOneMore(t, key, names, lines, i, value.value);
      lines := lines + [ExportLine(names[i], value.value)];
      i := i + 1;
    }
    AllReadable(t, key, names);
    ReadLines(t, key, names, lines);
    stop, failure := |names|, None;
  }

  /** The names of a listing of every row, sorted by name, are every
      stored name, once each and in order. */
  lemma ListedNames(t: Vault.Table, listed: seq<Vault.Secret>, names: seq<string>)
    requires Vault.SortedByName(listed) && |listed| == |t|
    requires forall i | 0 <= i < |listed| :: listed[i].name in t && listed[i] == Vault.MetadataOf(t, listed[i].name)
    requires forall n | n in t :: Vault.MetadataOf(t, n) in listed
    requires names == seq(|listed|, i requires 0 <= i < |listed| => listed[i].name)
    ensures forall i, j | 0 <= i < j < |names| :: Vault.Below(names[i], names[j])
    ensures |names| == |t| && (forall i | 0 <= i < |names| :: names[i] in t) && (forall n | n in t :: n in names)
  {
    forall n | n in t ensures n in names {
      var i :| 0 <= i < |listed| && listed[i] == Vault.MetadataOf(t, n);
      assert names[i] == n;
    }
  }

  /** One more name read keeps the loop's invariant of `export`. */
  lemma ReadOneMore(t: Vault.Table, key: string, names: seq<string>, lines: seq<string>, i: nat, v: string)
    requires i < |names| && |lines| == i && Vault.Lookup(t, key, names[i]) == Ok(v)
    requires forall j | 0 <= j < i :: Vault.Lookup(t, key, names[j]).Ok?
    requires forall j | 0 <= j < i :: lines[j] == ExportLine(names[j], Vault.Lookup(t, key, names[j]).value)
    ensures var more := lines + [ExportLine(names[i], v)];
      (forall j | 0 <= j < i + 1 :: Vault.Lookup(t, key, names[j]).Ok?)
      && forall j | 0 <= j < i + 1 :: more[j] == ExportLine(names[j], Vault.Lookup(t, key, names[j]).value)
  {
  }

  lemma AllReadable(t: Vault.Table, key: string, names: seq<string>)
    requires forall j | 0 <= j < |names| :: Vault.Lookup(t, key, names[j]).Ok?
    ensures Vault.FirstUnreadable(t, key, names) == |names|
  {
  }

  lemma ReadLines(t: Vault.Table, key: string, names: seq<string>, lines: seq<string>)
    requires forall j | 0 <= j < |names| :: Vault.Lookup(t, key, names[j]).Ok?
    requires |lines| == |names|
    requires forall j | 0 <= j < |names| :: lines[j] == ExportLine(names[j], Vault.Lookup(t, key, names[j]).value)
    ensures ExportLines(Vault.ReadAll(t, key, names)) == lines
  {
    var written := ExportLines(Vault.ReadAll(t, key, names));
    assert written == lines;
  }

  /** Reading the exported file back with `lines()` gives one line per
      secret, as long as no name holds a newline or ends the line with a
      carriage return. With no secrets nothing is written at all: the
      lone newline that `Join` of no lines would leave reads back as one
      empty line. */
  lemma {:induction false} LinesOfExport(lines: seq<string>)
    requires lines != []
    requires forall j | 0 <= j < |lines| :: IsBareLine(lines[j])
    ensures Lines(Join(lines, "\n") + "\n") == lines
    decreases |lines|
  {
    if |lines| == 1 {
      LinesOfLine(lines[0]);
    } else {
      LinesOfExport(lines[1..]);
      LinesOfExportStep(lines);
    }
  }

  lemma LinesOfExportStep(lines: seq<string>)
    requires |lines| > 1 && IsBareLine(lines[0])
    requires Lines(Join(lines[1..], "\n") + "\n") == lines[1..]
    ensures Lines(Join(lines, "\n") + "\n") == lines
  {
    JoinEnded(lines);
    LinesCons(lines[0], Join(lines[1..], "\n") + "\n");
    assert lines == [lines[0]] + lines[1..];
  }

  // ---------------------------------------------------------------------
  // `import`: create every new name of the file

  datatype ImportResult =
    | Imported(imported: seq<string>, skipped: seq<string>)
      /** `failed to import '<name>'`. */
    | ImportFailed(name: string, error: Error)
      /** A line whose value is a lone quote. */
    | ImportPanicked

  /** What one line of the file does to the import. */
  datatype LineOutcome =
      /** A blank line, a comment, or a line the parser reads as nothing. */
    | Ignored
    | LinePanicked
      /** The name is stored already: it is skipped. */
    | Present(name: string)
    | CreateFailed(name: string, error: Error)
    | Created(name: string, table: Vault.Table)

  /** The body of the loop of `import` for one line, against the table `t`. */
  function ImportLine(t: Vault.Table, key: string, raw: string, now: Vault.Timestamp): (o: LineOutcome)
    ensures o.Present? ==> o.name in t
    ensures o.Created? ==> o.name !in t && o.table.Keys == t.Keys + {o.name}
    ensures o.Created? ==> forall n | n in t :: o.table[n] == t[n]
    ensures o.Created? ==> Vault.Lookup(o.table, key, o.name).Ok?
  {
    var line := Trim(raw);
    if line == [] || line[0] == '#' then Ignored
    else
      match ParseEnvLine(line)
      case Panicked => LinePanicked
      case Returned(None) => Ignored
      case Returned(Some((name, value))) =>
        if name in t then Present(name)
        else
          var step := Vault.CreateStep(t, key, name, value, false, now);
          if step.result.Err? then CreateFailed(name, step.result.error)
          else
            Vault.CreateThenGet(t, key, name, value, false, now);
            Created(name, step.table)
  }

  /** The names imported and skipped before the rest of the file was
      read, in front of the ones the rest adds. */
  function Prepend(imported: seq<string>, skipped: seq<string>, r: ImportResult): (p: ImportResult)
    ensures p.Imported? <==> r.Imported?
    ensures !r.Imported? ==> p == r
    ensures p.Imported? ==> forall n :: n in p.imported <==> n in imported || n in r.imported
    ensures p.Imported? ==> forall n :: n in p.skipped <==> n in skipped || n in r.skipped
  {
    if r.Imported? then Imported(imported + r.imported, skipped + r.skipped) else r
  }

  /** Nothing read before leaves the result as it is. */
  lemma PrependNothing(r: ImportResult)
    ensures Prepend([], [], r) == r
  {
    if r.Imported? {
      assert [] + r.imported == r.imported && [] + r.skipped == r.skipped;
    }
  }

  /** Prepending twice is prepending once the two lists joined. */
  lemma PrependTwice(imported: seq<string>, skipped: seq<string>, di: seq<string>, ds: seq<string>, r: ImportResult)
    ensures Prepend(imported, skipped, Prepend(di, ds, r)) == Prepend(imported + di, skipped + ds, r)
  {
    if r.Imported? {
      assert imported + (di + r.imported) == imported + di + r.imported;
      assert skipped + (ds + r.skipped) == skipped + ds + r.skipped;
    }
  }

  /** The loop of `import` over the lines of the file, from the table `t`;
      the names are the ones these lines import and skip, and the table
      they leave comes with the result. `import` never overwrites: the
      stored rows keep their contents, the rows it adds are exactly the
      names it reports imported, none of which was stored before, and a
      name it reports skipped was stored already or came on an earlier
      line of the same file. */
  function ImportLines(t: Vault.Table, key: string, lines: seq<string>, now: Vault.Timestamp): (res: (ImportResult, Vault.Table))
    ensures t.Keys <= res.1.Keys && forall n | n in t :: res.1[n] == t[n]
    ensures res.0.Imported? ==> forall n | n in res.1.Keys - t.Keys :: n in res.0.imported
    ensures res.0.Imported? ==> forall n | n in res.0.imported :: n !in t && n in res.1
    ensures res.0.Imported? ==> forall n | n in res.0.skipped :: n in t || n in res.0.imported
    decreases |lines|
  {
    if lines == [] then (Imported([], []), t)
    else
      match ImportLine(t, key, lines[0], now)
      case Ignored => ImportLines(t, key, lines[1..], now)
      case LinePanicked => (ImportPanicked, t)
      case Present(name) =>
        var rest := ImportLines(t, key, lines[1..], now);
        (Prepend([], [name], rest.0), rest.1)
      case CreateFailed(name, error) => (ImportFailed(name, error), t)
      case Created(name, table) =>
        var rest := ImportLines(table, key, lines[1..], now);
        (Prepend([name], [], rest.0), rest.1)
  }

  /** `import`: every line of the file in order, against the vault. */
  method Import(vault: Vault.Vault, content: string, now: Vault.Timestamp) returns (r: ImportResult)
    modifies vault.conn
    ensures (r, vault.conn.secrets) == ImportLines(old(vault.conn.secrets), vault.masterKey, Lines(content), now)
  {
    var lines := Lines(content);
    ghost var final := ImportLines(vault.conn.secrets, vault.masterKey, lines, now);
    var imported: seq<string> := [];
    var skipped: seq<string> := [];
    var i := 0;
    PrependNothing(final.0);
    while i < |lines|
      invariant 0 <= i <= |lines|
      invariant Prepend(imported, skipped, ImportLines(vault.conn.secrets, vault.masterKey, lines[i..], now).0) == final.0
      invariant ImportLines(vault.conn.secrets, vault.masterKey, lines[i..], now).1 == final.1
    {
      ghost var t := vault.conn.secrets;
      var outcome := ImportOne(vault, lines[i], now);
      ghost var here := lines[i..];
      assert here[1..] == lines[i + 1..];
      i := i + 1;
      match outcome
      case Ignored =>
        ImportStepIgnored(t, vault.masterKey, here, now);
      case LinePanicked =>
        ImportStepStops(t, vault.masterKey, here, now, outcome);
        return ImportPanicked;
      case CreateFailed(name, error) =>
        ImportStepStops(t, vault.masterKey, here, now, outcome);
        return ImportFailed(name, error);
      case Present(name) =>
        ImportStepPresent(t, vault.masterKey, here, now, imported, skipped, name);
        skipped := skipped + [name];
      case Created(name, table) =>
        ImportStepCreated(t, vault.masterKey, here, now, imported, skipped, name, table);
        imported := imported + [name];
    }
    assert lines[i..] == [];
    assert imported + [] == imported && skipped + [] == skipped;
    r := Imported(imported, skipped);
  }

  /** How the result of the loop of `import` follows from the outcome of
      its first line: a blank line, a comment or an unreadable one changes
      nothing, ... */
  lemma ImportStepIgnored(t: Vault.Table, key: string, lines: seq<string>, now: Vault.Timestamp)
    requires lines != [] && ImportLine(t, key, lines[0], now) == Ignored
    ensures ImportLines(t, key, lines, now) == ImportLines(t, key, lines[1..], now)
  {
  }

  /** ... a lone quote or a failed create stops the loop, ... */
  lemma ImportStepStops(t: Vault.Table, key: string, lines: seq<string>, now: Vault.Timestamp, o: LineOutcome)
    requires lines != [] && o == ImportLine(t, key, lines[0], now)
    requires o.LinePanicked? || o.CreateFailed?
    ensures ImportLines(t, key, lines, now)
         == (if o.LinePanicked? then ImportPanicked else ImportFailed(o.name, o.error), t)
  {
  }

  /** ... a stored name is skipped, ... */
  lemma ImportStepPresent(t: Vault.Table, key: string, lines: seq<string>, now: Vault.Timestamp,
                          imported: seq<string>, skipped: seq<string>, name: string)
    requires lines != [] && ImportLine(t, key, lines[0], now) == Present(name)
    ensures var all, rest := ImportLines(t, key, lines, now), ImportLines(t, key, lines[1..], now);
      Prepend(imported, skipped, all.0) == Prepend(imported, skipped + [name], rest.0) && all.1 == rest.1
  {
    var rest := ImportLines(t, key, lines[1..], now);
    UnfoldPresent(t, key, lines, now, name);
    PrependTwice(imported, skipped, [], [name], rest.0);
    assert imported + [] == imported;
  }

  lemma UnfoldPresent(t: Vault.Table, key: string, lines: seq<string>, now: Vault.Timestamp, name: string)
    requires lines != [] && ImportLine(t, key, lines[0], now) == Present(name)
    ensures var rest := ImportLines(t, key, lines[1..], now);
      ImportLines(t, key, lines, now) == (Prepend([], [name], rest.0), rest.1)
  {
  }

  /** ... and a new one is imported. */
  lemma ImportStepCreated(t: Vault.Table, key: string, lines: seq<string>, now: Vault.Timestamp,
                          imported: seq<string>, skipped: seq<string>, name: string, table: Vault.Table)
    requires lines != [] && ImportLine(t, key, lines[0], now) == Created(name, table)
    ensures var all, rest := ImportLines(t, key, lines, now), ImportLines(table, key, lines[1..], now);
      Prepend(imported, skipped, all.0) == Prepend(imported + [name], skipped, rest.0) && all.1 == rest.1
  {
    var rest := ImportLines(table, key, lines[1..], now);
    UnfoldCreated(t, key, lines, now, name, table);
    PrependTwice(imported, skipped, [name], [], rest.0);
    assert skipped + [] == skipped;
  }

  lemma UnfoldCreated(t: Vault.Table, key: string, lines: seq<string>, now: Vault.Timestamp,
                      name: string, table: Vault.Table)
    requires lines != [] && ImportLine(t, key, lines[0], now) == Created(name, table)
    ensures var rest := ImportLines(table, key, lines[1..], now);
      ImportLines(t, key, lines, now) == (Prepend([name], [], rest.0), rest.1)
  {
  }

  /** One pass of the loop of `import`: trim the line, pass over blank
      lines and comments, parse it, skip a stored name, else create it. */
  method ImportOne(vault: Vault.Vault, raw: string, now: Vault.Timestamp) returns (o: LineOutcome)
    modifies vault.conn
    ensures o == ImportLine(old(vault.conn.secrets), vault.masterKey, raw, now)
    ensures vault.conn.secrets == if o.Created? then o.table else old(vault.conn.secrets)
  {
    ghost var t := vault.conn.secrets;
    var line := Trim(raw);
    if line == [] || line[0] == '#' {
      return Ignored;
    }
    var parsed := ParseEnvLine(line);
    if parsed.Panicked? {
      return LinePanicked;
    }
    if parsed.value.None? {
      return Ignored;
    }
    var (name, value) := parsed.value.value;
    if name !in t {
      ImportFreshLine(t, vault.masterKey, raw, now, name, value);
    }
    o := ImportPair(vault, name, value, now);
  }

  /** The end of one pass of the loop of `import`: skip a stored name,
      else create it. */
  method ImportPair(vault: Vault.Vault, name: string, value: string, now: Vault.Timestamp) returns (o: LineOutcome)
    modifies vault.conn
    ensures var t := old(vault.conn.secrets);
      var step := Vault.CreateStep(t, vault.masterKey, name, value, false, now);
      o == if name in t then Present(name)
           else if step.result.Err? then CreateFailed(name, step.result.error)
           else Created(name, step.table)
    ensures vault.conn.secrets == if o.Created? then o.table else old(vault.conn.secrets)
  {
    var present := vault.Exists(name);
    if present {
      return Present(name);
    }
    var created := vault.Create(name, value, now);
    if created.Err? {
      return CreateFailed(name, created.error);
    }
    return Created(name, vault.conn.secrets);
  }

  /** A parsed line whose name is not stored yet gives what creating the
      name gives. */
  lemma ImportFreshLine(t: Vault.Table, key: string, raw: string, now: Vault.Timestamp, name: string, value: string)
    requires Trim(raw) != [] && Trim(raw)[0] != '#'
    requires ParseEnvLine(Trim(raw)) == Returned(Some((name, value))) && name !in t
    ensures var step := Vault.CreateStep(t, key, name, value, false, now);
      ImportLine(t, key, raw, now)
        == if step.result.Err? then CreateFailed(name, step.result.error) else Created(name, step.table)
  {
  }

  /** A name the parser accepts but the vault refuses, one starting with a
      digit, stops the import with the vault's error and leaves the table
      as it was. */
  lemma ImportRefusedName(t: Vault.Table, key: string, name: string, value: string, now: Vault.Timestamp)
    requires IsEnvName(name) && IsAsciiDigit(name[0]) && name !in t
    requires IsTrimmed(value) && !IsQuoted(value)
    ensures ImportLines(t, key, [name + "=" + value], now)
         == (ImportFailed(name, InvalidSecretName(Vault.NameStartMessage)), t)
  {
    var line := name + "=" + value;
    var e := InvalidSecretName(Vault.NameStartMessage);
    assert Vault.CreateStep(t, key, name, value, false, now).result == Err(e) by {
      Vault.RejectedByStart(name);
    }
    assert ImportLine(t, key, line, now) == CreateFailed(name, e) by {
      AssignmentTrimmed(name, value);
      ParseAssignment(name, value);
      ImportParsedLine(t, key, line, now, name, value);
    }
    ImportFailingLine(t, key, line, now);
  }

  lemma ImportFailingLine(t: Vault.Table, key: string, line: string, now: Vault.Timestamp)
    requires ImportLine(t, key, line, now).CreateFailed?
    ensures var o := ImportLine(t, key, line, now);
      ImportLines(t, key, [line], now) == (ImportFailed(o.name, o.error), t)
  {
  }

  /** An assignment line with a trimmed value is trimmed and is no comment. */
  lemma AssignmentTrimmed(name: string, value: string)
    requires IsEnvName(name) && IsTrimmed(value)
    ensures IsTrimmed(name + "=" + value) && (name + "=" + value)[0] != '#'
  {
    var line := name + "=" + value;
    assert line[0] == name[0];
    assert line[|line| - 1] == if value == [] then '=' else value[|value| - 1];
  }

  /** A trimmed line that parses to a new name is created from. */
  lemma ImportParsedLine(t: Vault.Table, key: string, line: string, now: Vault.Timestamp, name: string, value: string)
    requires IsTrimmed(line) && line != [] && line[0] != '#'
    requires ParseEnvLine(line) == Returned(Some((name, value))) && name !in t
    ensures var step := Vault.CreateStep(t, key, name, value, false, now);
      step.result.Err? ==> ImportLine(t, key, line, now) == CreateFailed(name, step.result.error)
  {
    TrimUntouched(line);
  }
}
