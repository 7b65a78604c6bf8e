/** The Rust string operations the core relies on, written out over
    `seq<char>`: `starts_with`, `contains`, `replace`, `trim`, `lines`,
    `join` and `split_once`. */
module Text {
  import opened Errors

  /** Rust's `char::is_whitespace`: the Unicode White_Space property. */
  predicate IsWhitespace(c: char) {
    || ('\t' <= c <= '\r') || c == ' '
    || c == '\U{0085}' || c == '\U{00A0}' || c == '\U{1680}'
    || ('\U{2000}' <= c <= '\U{200A}')
    || c == '\U{2028}' || c == '\U{2029}' || c == '\U{202F}' || c == '\U{205F}'
    || c == '\U{3000}'
  }

  predicate IsAsciiUpper(c: char) { 'A' <= c <= 'Z' }
  predicate IsAsciiLower(c: char) { 'a' <= c <= 'z' }
  predicate IsAsciiDigit(c: char) { '0' <= c <= '9' }
  predicate IsAsciiAlpha(c: char) { IsAsciiUpper(c) || IsAsciiLower(c) }
  predicate IsAsciiAlphanumeric(c: char) { IsAsciiAlpha(c) || IsAsciiDigit(c) }

  predicate StartsWith(s: string, prefix: string) {
    |prefix| <= |s| && s[..|prefix|] == prefix
  }

  predicate EndsWith(s: string, suffix: string) {
    |suffix| <= |s| && s[|s| - |suffix|..] == suffix
  }

  /** `s.contains(pat)`: some position of `s` starts with `pat`. */
  predicate Contains(s: string, pat: string)
    decreases |s|
  {
    StartsWith(s, pat) || (s != [] && Contains(s[1..], pat))
  }

  /** `pat` occurs in `s` at position `i`. */
  predicate OccursAt(s: string, pat: string, i: int) {
    0 <= i && i + |pat| <= |s| && s[i..i + |pat|] == pat
  }

  /** An occurrence in a suffix is an occurrence in the whole text. */
  lemma OccursInSuffix(s: string, pat: string, k: int, i: int)
    requires 0 <= k <= |s| && OccursAt(s[k..], pat, i)
    ensures OccursAt(s, pat, k + i)
  {
    assert s[k..][i..i + |pat|] == s[k + i..k + i + |pat|];
  }

  /** `Contains` agrees with "some slice of `s` equals `pat`". */
  lemma {:induction false} ContainsAt(s: string, pat: string)
    ensures Contains(s, pat) <==> exists i :: OccursAt(s, pat, i)
    decreases |s|
  {
    if s != [] {
      ContainsAt(s[1..], pat);
      if Contains(s[1..], pat) {
        var i :| OccursAt(s[1..], pat, i);
        assert OccursAt(s, pat, i + 1);
      }
      if StartsWith(s, pat) {
        assert OccursAt(s, pat, 0);
      }
      if !StartsWith(s, pat) && exists i :: OccursAt(s, pat, i) {
        var i :| OccursAt(s, pat, i);
        assert i != 0;
        assert OccursAt(s[1..], pat, i - 1);
      }
    } else {
      if exists i :: OccursAt(s, pat, i) {
        var i :| OccursAt(s, pat, i);
        assert i == 0 && pat == [];
      }
      if pat == [] {
        assert OccursAt(s, pat, 0);
      }
    }
  }

  /** A pattern that holds a character the text lacks cannot occur in it. */
  lemma MissingCharNotContained(s: string, pat: string, c: char)
    requires c in pat && c !in s
    ensures !Contains(s, pat)
  {
    var k :| 0 <= k < |pat| && pat[k] == c;
    forall i | 0 <= i && i + |pat| <= |s|
      ensures !OccursAt(s, pat, i)
    {
      assert s[i..i + |pat|][k] == s[i + k] != c;
    }
    ContainsAt(s, pat);
  }

  /** Rust's `s.replace(pat, rep)` with an empty pattern: `rep` is inserted
      at every character boundary, both ends included. */
  function ReplaceEmpty(s: string, rep: string): (r: string)
    ensures |r| == |s| + (|s| + 1) * |rep|
  {
    if s == [] then rep else rep + [s[0]] + ReplaceEmpty(s[1..], rep)
  }

  /** Rust's `s.replace(pat, rep)`: every non-overlapping occurrence of `pat`,
      found from left to right, is replaced by `rep`. */
  function Replace(s: string, pat: string, rep: string): string
    decreases |s|
  {
    if pat == [] then ReplaceEmpty(s, rep)
    else if s == [] then []
    else if StartsWith(s, pat) then rep + Replace(s[|pat|..], pat, rep)
    else [s[0]] + Replace(s[1..], pat, rep)
  }

  /** Replacing a pattern that does not occur changes nothing. */
  lemma {:induction false} ReplaceAbsent(s: string, pat: string, rep: string)
    requires !Contains(s, pat)
    ensures Replace(s, pat, rep) == s
    decreases |s|
  {
    if s != [] {
      ReplaceAbsent(s[1..], pat, rep);
      assert [s[0]] + s[1..] == s;
    }
  }

  /** When no occurrence of the pattern starts inside `a`, the occurrence
      right after `a` is the first one replaced. */
  lemma {:induction false} ReplaceAfter(a: string, pat: string, b: string, rep: string)
    requires pat != [] && !Contains(a + pat[..|pat| - 1], pat)
    ensures Replace(a + pat + b, pat, rep) == a + rep + Replace(b, pat, rep)
    decreases |a|
  {
    if a == [] {
      ReplaceAtStart(pat, b, rep);
    } else {
      NoStartInside(a, pat, b);
      ReplaceAfter(a[1..], pat, b, rep);
      ReplaceAfterStep(a, pat, b, rep);
    }
  }

  lemma ReplaceAfterStep(a: string, pat: string, b: string, rep: string)
    requires pat != [] && a != [] && !StartsWith(a + pat + b, pat)
    requires Replace(a[1..] + pat + b, pat, rep) == a[1..] + rep + Replace(b, pat, rep)
    ensures Replace(a + pat + b, pat, rep) == a + rep + Replace(b, pat, rep)
  {
    var tail := Replace(b, pat, rep);
    ReplaceSkip(a + pat + b, pat, rep);
    Regroup(a, pat, b);
    DropFirst(a, pat + b);
    Regroup(a[1..], pat, b);
    Regroup(a[1..], rep, tail);
    ConsConcat(a, rep + tail);
    Regroup(a, rep, tail);
  }

  /** The first character and the rest of a concatenation with a non-empty
      front. */
  lemma DropFirst<T>(a: seq<T>, rest: seq<T>)
    requires a != []
    ensures (a + rest)[0] == a[0] && (a + rest)[1..] == a[1..] + rest
  {
  }

  lemma ConsConcat(a: string, rest: string)
    requires a != []
    ensures [a[0]] + (a[1..] + rest) == a + rest
  {
    assert a == [a[0]] + a[1..];
  }

  lemma ReplaceAtStart(pat: string, b: string, rep: string)
    requires pat != []
    ensures Replace([] + pat + b, pat, rep) == rep + Replace(b, pat, rep)
  {
    assert [] + pat + b == pat + b;
    assert (pat + b)[|pat|..] == b;
  }

  lemma ReplaceSkip(s: string, pat: string, rep: string)
    requires pat != [] && s != [] && !StartsWith(s, pat)
    ensures Replace(s, pat, rep) == [s[0]] + Replace(s[1..], pat, rep)
  {
  }

  lemma NoStartInside(a: string, pat: string, b: string)
    requires a != [] && pat != [] && !Contains(a + pat[..|pat| - 1], pat)
    ensures !StartsWith(a + pat + b, pat) && (a + pat + b)[0] == a[0]
    ensures (a + pat + b)[1..] == a[1..] + pat + b
    ensures !Contains(a[1..] + pat[..|pat| - 1], pat)
  {
    var x := a + pat[..|pat| - 1];
    assert x[1..] == a[1..] + pat[..|pat| - 1];
    assert (a + pat + b)[..|pat|] == x[..|pat|];
  }

  /** With a one-character pattern, `replace` maps each character on its own,
      so it distributes over concatenation. */
  lemma {:induction false} ReplaceCharConcat(a: string, b: string, c: char, rep: string)
    ensures Replace(a + b, [c], rep) == Replace(a, [c], rep) + Replace(b, [c], rep)
    decreases |a|
  {
    if a != [] {
      var s := a + b;
      assert s[0] == a[0] && s[1..] == a[1..] + b;
      ReplaceCharConcat(a[1..], b, c, rep);
      if a[0] == c {
        assert StartsWith(s, [c]) && StartsWith(a, [c]);
        assert Replace(s, [c], rep) == rep + Replace(s[1..], [c], rep);
        assert Replace(a, [c], rep) == rep + Replace(a[1..], [c], rep);
      } else {
        assert !StartsWith(s, [c]) && !StartsWith(a, [c]);
        assert Replace(s, [c], rep) == [a[0]] + Replace(s[1..], [c], rep);
        assert Replace(a, [c], rep) == [a[0]] + Replace(a[1..], [c], rep);
      }
    } else {
      assert a + b == b;
    }
  }

  /** `s.split_once(c)`: the text before and after the first `c`. */
  function SplitOnce(s: string, c: char): (r: Option<(string, string)>)
    ensures r.None? <==> c !in s
    ensures r.Some? ==> s == r.value.0 + [c] + r.value.1 && c !in r.value.0
  {
    if c !in s then None
    else
      var k := IndexOf(s, c);
      assert s == s[..k] + [c] + s[k + 1..];
      Some((s[..k], s[k + 1..]))
  }

  /** The position of the first `c` in `s`. */
  function IndexOf(s: string, c: char): (k: nat)
    requires c in s
    ensures k < |s| && s[k] == c && c !in s[..k]
  {
    if s[0] == c then 0
    else
      assert c in s[1..] by { assert s == [s[0]] + s[1..]; }
      var k := IndexOf(s[1..], c);
      assert s[..k + 1] == [s[0]] + s[1..][..k];
      k + 1
  }

  /** The pieces of `a + [c] + b` on either side of `c`. */
  lemma AroundChar(a: string, c: char, b: string)
    ensures var s := a + [c] + b;
      |a| < |s| && s[|a|] == c && s[..|a|] == a && s[|a| + 1..] == b && c in s
  {
    var s := a + [c] + b;
    assert s[|a|] == c;
  }

  /** The first `c` of `a + [c] + b` is the one after `a`. */
  lemma IndexOfFirst(a: string, c: char, b: string)
    requires c !in a
    ensures IndexOf(a + [c] + b, c) == |a|
  {
    var s := a + [c] + b;
    var k := IndexOf(s, c);
    assert s[|a|] == c;
    InPrefix(s, |a|, k);
    assert forall j | 0 <= j < |a| :: s[j] == a[j];
  }

  lemma InPrefix(s: string, j: int, k: int)
    ensures 0 <= j < k <= |s| ==> s[j] in s[..k]
  {
    if 0 <= j < k <= |s| {
      assert s[..k][j] == s[j];
    }
  }

  /** Splitting at the first `c` recovers the two sides around it. */
  lemma SplitAtFirst(a: string, c: char, b: string)
    requires c !in a
    ensures SplitOnce(a + [c] + b, c) == Some((a, b))
  {
    IndexOfFirst(a, c, b);
    var s := a + [c] + b;
    assert s[..|a|] == a && s[|a| + 1..] == b;
  }

  /** The character at offset `k` of an occurrence of `q`. */
  lemma CharOfOccurrence(s: string, q: string, i: int, k: int)
    requires 0 <= k < |q|
    ensures OccursAt(s, q, i) ==> 0 <= i + k < |s| && s[i + k] == q[k]
  {
    if OccursAt(s, q, i) {
      assert s[i..i + |q|][k] == s[i + k];
    }
  }

  /** The character at position `j` of a prefix. */
  lemma PrefixChar(s: string, p: string, j: int)
    requires 0 <= j < |p|
    ensures StartsWith(s, p) ==> j < |s| && s[j] == p[j]
  {
    if StartsWith(s, p) {
      assert s[..|p|][j] == s[j];
    }
  }

  /** A pattern cannot occur where two of its neighbouring characters,
      at `k` and `k + 1`, never follow each other. */
  lemma PairAbsent(s: string, p: string, k: int)
    requires 0 <= k && k + 1 < |p|
    requires forall i | 0 <= i < |s| - 1 :: s[i] == p[k] ==> s[i + 1] != p[k + 1]
    ensures !Contains(s, p)
  {
    ContainsAt(s, p);
    forall i ensures !OccursAt(s, p, i) {
      CharOfOccurrence(s, p, i, k);
      CharOfOccurrence(s, p, i, k + 1);
    }
  }

  /** Concatenation regrouped to the left. */
  lemma Regroup(x: string, y: string, z: string)
    ensures x + (y + z) == x + y + z
  {
  }

  /** A text contains whatever sits in its middle. */
  lemma ContainsMiddle(a: string, p: string, b: string)
    ensures Contains(a + p + b, p)
  {
    var s := a + p + b;
    assert s[|a|..|a| + |p|] == p;
    assert OccursAt(s, p, |a|);
    ContainsAt(s, p);
  }

  /** Replacing a character that does not occur changes nothing. */
  lemma ReplaceMissingChar(s: string, c: char, rep: string)
    requires c !in s
    ensures Replace(s, [c], rep) == s
  {
    MissingCharNotContained(s, [c], c);
    ReplaceAbsent(s, [c], rep);
  }

  predicate AllWhitespace(s: string) {
    forall k | 0 <= k < |s| :: IsWhitespace(s[k])
  }

  /** `s.trim_start()`. */
  function TrimStart(s: string): (r: string)
    ensures |r| <= |s| && r == s[|s| - |r|..]
    ensures AllWhitespace(s[..|s| - |r|])
    ensures r == [] || !IsWhitespace(r[0])
  {
    if s != [] && IsWhitespace(s[0]) then
      var r := TrimStart(s[1..]);
      TrimmedFirst(s, r);
      r
    else s
  }

  /** `s.trim_end()`. */
  function TrimEnd(s: string): (r: string)
    ensures |r| <= |s| && r == s[..|r|]
    ensures AllWhitespace(s[|r|..])
    ensures r == [] || !IsWhitespace(r[|r| - 1])
  {
    if s != [] && IsWhitespace(s[|s| - 1]) then
      var r := TrimEnd(s[..|s| - 1]);
      TrimmedLast(s, r);
      r
    else s
  }

  /** Leading whitespace before what trimming the rest leaves. */
  lemma TrimmedFirst(s: string, r: string)
    requires s != [] && IsWhitespace(s[0])
    requires |r| <= |s| - 1 && r == s[1..][|s| - 1 - |r|..] && AllWhitespace(s[1..][..|s| - 1 - |r|])
    ensures r == s[|s| - |r|..] && AllWhitespace(s[..|s| - |r|])
  {
    assert s[..|s| - |r|] == [s[0]] + s[1..][..|s| - 1 - |r|];
  }

  /** Trailing whitespace after what trimming the rest leaves. */
  lemma TrimmedLast(s: string, r: string)
    requires s != [] && IsWhitespace(s[|s| - 1])
    requires |r| <= |s| - 1 && r == s[..|s| - 1][..|r|] && AllWhitespace(s[..|s| - 1][|r|..])
    ensures r == s[..|r|] && AllWhitespace(s[|r|..])
  {
    assert s[|r|..] == s[..|s| - 1][|r|..] + [s[|s| - 1]];
  }

  /** `s.trim()`. */
  function Trim(s: string): string {
    TrimEnd(TrimStart(s))
  }

  /** Text that neither starts nor ends with whitespace. */
  predicate IsTrimmed(v: string) {
    v == [] || (!IsWhitespace(v[0]) && !IsWhitespace(v[|v| - 1]))
  }

  /** What `trim` leaves has no whitespace at either end, ... */
  lemma TrimIsTrimmed(s: string)
    ensures IsTrimmed(Trim(s))
  {
    var u := TrimStart(s);
    var r := TrimEnd(u);
    if r != [] {
      assert r[0] == u[0];
    }
  }

  /** Every character `trim` keeps comes from the text. */
  lemma TrimChars(s: string)
    ensures forall c | c in Trim(s) :: c in s
  {
    var u := TrimStart(s);
    assert forall c | c in u :: c in s by { assert u == s[|s| - |u|..]; }
    var r := TrimEnd(u);
    assert forall c | c in r :: c in u by { assert r == u[..|r|]; }
  }

  /** ... and text whose ends are not whitespace is its own trim. */
  lemma TrimUntouched(s: string)
    requires IsTrimmed(s)
    ensures Trim(s) == s
  {
  }

  /** One line of `lines()`: the `\r` of a `\r\n` ending is dropped too. */
  function StripCr(line: string): string {
    if line != [] && line[|line| - 1] == '\r' then line[..|line| - 1] else line
  }

  /** Rust's `s.lines()`: the pieces between `\n`s, each without a `\r`
      that stood right before its `\n`; a final `\n` does not start an empty
      last line, and a last line without `\n` keeps a trailing `\r`. */
  function Lines(s: string): (ls: seq<string>)
    ensures forall i :: 0 <= i < |ls| ==> '\n' !in ls[i]
    decreases |s|
  {
    if s == [] then []
    else if '\n' !in s then [s]
    else
      var k := IndexOf(s, '\n');
      [StripCr(s[..k])] + Lines(s[k + 1..])
  }

  /** `parts.join(sep)`. */
  function Join(parts: seq<string>, sep: string): string
    decreases |parts|
  {
    if parts == [] then []
    else if |parts| == 1 then parts[0]
    else parts[0] + sep + Join(parts[1..], sep)
  }

  /** A line as `lines` returns it: no line feed, no final carriage
      return. */
  predicate IsBareLine(a: string) {
    '\n' !in a && (a == [] || a[|a| - 1] != '\r')
  }

  /** A single line ended by `\n` reads back as that line. */
  lemma LinesOfLine(a: string)
    requires IsBareLine(a)
    ensures Lines(a + "\n") == [a]
  {
    LinesCons(a, []);
    assert a + "\n" + [] == a + "\n";
  }

  lemma JoinEnded(lines: seq<string>)
    requires |lines| > 1
    ensures Join(lines, "\n") + "\n" == lines[0] + "\n" + (Join(lines[1..], "\n") + "\n")
  {
  }

  /** A line without `\n` that does not end in `\r`, then `\n`, is the
      first of the lines. */
  lemma LinesCons(a: string, rest: string)
    requires IsBareLine(a)
    ensures Lines(a + "\n" + rest) == [a] + Lines(rest)
  {
    IndexOfFirst(a, '\n', rest);
    AroundChar(a, '\n', rest);
    assert StripCr(a) == a;
  }
}
