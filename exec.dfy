/** Running a command with secrets (src/commands/exec.rs): the `{{NAME}}`
    placeholders of the command are found, every name is looked up in the
    vault before anything runs, the values are substituted, and the child's
    output is redacted with the same secrets before it is shown. */
module Exec {
  import opened Errors
  import opened Text
  import Vault
  import Sanitize

  // ---------------------------------------------------------------------
  // Finding placeholders: the regex `\{\{(\w+)\}\}`

  /** `\w`, restricted to ASCII. */
  predicate IsWordChar(c: char) {
    IsAsciiAlphanumeric(c) || c == '_'
  }

  predicate IsWord(s: string) {
    s != [] && forall i | 0 <= i < |s| :: IsWordChar(s[i])
  }

  function Placeholder(name: string): string {
    "{{" + name + "}}"
  }

  /** The longest run of word characters at the start of `s`: what the
      greedy `\w+` takes. */
  function WordRun(s: string): (w: string)
    ensures |w| <= |s| && w == s[..|w|]
    ensures forall i | 0 <= i < |w| :: IsWordChar(w[i])
    ensures |w| == |s| || !IsWordChar(s[|w|])
  {
    if s != [] && IsWordChar(s[0]) then [s[0]] + WordRun(s[1..]) else []
  }

  /** The match of the pattern that starts at the beginning of `s`, if any:
      `{{`, a run of word characters, `}}`. Since `}` is not a word
      character, backtracking into a shorter run can never succeed. */
  function MatchAt(s: string): (m: Option<string>)
    ensures m.Some? ==> IsWord(m.value) && StartsWith(s, Placeholder(m.value))
  {
    if !StartsWith(s, "{{") then None
    else
      var w := WordRun(s[2..]);
      if w != [] && StartsWith(s[2 + |w|..], "}}") then
        assert s[..|w| + 4] == Placeholder(w) by {
          assert s[..|w| + 4] == s[..2] + s[2..][..|w|] + s[2 + |w|..][..2];
        }
        Some(w)
      else None
  }

  /** `captures_iter`: the leftmost match, then the search goes on after
      it. */
  function Scan(s: string): (names: seq<string>)
    decreases |s|
  {
    if s == [] then []
    else
      match MatchAt(s)
      case Some(w) => [w] + Scan(s[|w| + 4..])
      case None => Scan(s[1..])
  }

  /** Every captured name is a word, and `{{name}}` occurs in the command. */
  lemma {:induction false} ScanSound(s: string, n: string)
    requires n in Scan(s)
    ensures IsWord(n) && exists i :: OccursAt(s, Placeholder(n), i)
    decreases |s|
  {
    var m := MatchAt(s);
    if m.Some? && n == m.value {
      MatchOccurs(s, n);
    } else {
      var k := if m.Some? then |m.value| + 4 else 1;
      ScanRest(s, n, k);
      ScanSound(s[k..], n);
      var i :| OccursAt(s[k..], Placeholder(n), i);
      OccursInSuffix(s, Placeholder(n), k, i);
    }
  }

  lemma MatchOccurs(s: string, n: string)
    requires MatchAt(s) == Some(n)
    ensures IsWord(n) && OccursAt(s, Placeholder(n), 0)
  {
  }

  /** A name found by `Scan` past the match at the start, or past the
      first character when there is none, is found in the rest. */
  lemma ScanRest(s: string, n: string, k: nat)
    requires s != [] && n in Scan(s)
    requires MatchAt(s).Some? ==> n != MatchAt(s).value && k == |MatchAt(s).value| + 4
    requires MatchAt(s).None? ==> k == 1
    ensures k <= |s| && n in Scan(s[k..])
  {
  }

  /** A placeholder spelled out at the very start of `s` is the match
      there. */
  lemma MatchOfPlaceholder(s: string, n: string)
    requires IsWord(n) && StartsWith(s, Placeholder(n))
    ensures MatchAt(s) == Some(n)
  {
    var p := Placeholder(n);
    assert s[..|p|] == p;
    assert s[2..][..|n|] == n by {
      assert s[2..][..|n|] == s[..|p|][2..2 + |n|];
      assert p[2..2 + |n|] == n;
    }
    assert |n| == |s[2..]| || s[2..][|n|] == '}' by { assert p[2 + |n|] == '}'; }
    WordRunOfWord(s[2..], n);
    assert s[2 + |n|..][..2] == p[2 + |n|..];
  }

  lemma {:induction false} WordRunOfWord(s: string, n: string)
    requires IsWord(n) && |n| <= |s| && s[..|n|] == n
    requires |n| == |s| || !IsWordChar(s[|n|])
    ensures WordRun(s) == n
    decreases |n|
  {
    if |n| > 1 {
      assert s[1..][..|n| - 1] == n[1..];
      WordRunOfWord(s[1..], n[1..]);
      assert n == [n[0]] + n[1..];
    } else {
      assert n == [s[0]];
      assert WordRun(s[1..]) == [];
    }
  }

  /** No placeholder starts inside a match: what the match covers is `{{`,
      word characters and `}}`, and a `{{` inside it would need a `{` where
      a word character or a `}` stands. */
  lemma NoOverlap(s: string, w: string, i: int, n: string)
    requires MatchAt(s) == Some(w) && 0 < i < |w| + 4
    ensures !OccursAt(s, Placeholder(n), i)
  {
    var p, q := Placeholder(w), Placeholder(n);
    assert s[..|p|] == p;
    // Of the two characters a `{{` at `i` would need, the one at `j` is not
    // a `{`.
    var j := if i == 1 then 2 else i;
    assert s[j] == p[j];
    assert 2 <= j < |w| + 2 ==> p[j] == w[j - 2];
    assert p[j] != '{';
    assert q[0] == '{' && q[1] == '{';
    CharOfOccurrence(s, q, i, j - i);
  }

  /** Every occurrence of a placeholder whose name is a word is captured:
      the scan misses nothing. */
  lemma {:induction false} ScanComplete(s: string, i: int, n: string)
    requires IsWord(n) && OccursAt(s, Placeholder(n), i)
    ensures n in Scan(s)
    decreases |s|
  {
    var m := MatchAt(s);
    if i == 0 {
      assert StartsWith(s, Placeholder(n));
      MatchOfPlaceholder(s, n);
    } else if m.Some? {
      var k := |m.value| + 4;
      if i < k {
        NoOverlap(s, m.value, i, n);
      }
      assert s[k..][i - k..i - k + |Placeholder(n)|] == s[i..i + |Placeholder(n)|];
      ScanComplete(s[k..], i - k, n);
    } else {
      assert s[1..][i - 1..i - 1 + |Placeholder(n)|] == s[i..i + |Placeholder(n)|];
      ScanComplete(s[1..], i - 1, n);
    }
  }

  /** Text without `{` holds no placeholder. */
  lemma {:induction false} ScanWithoutBrace(s: string)
    requires '{' !in s
    ensures Scan(s) == []
    decreases |s|
  {
    if s != [] {
      assert s[0] != '{';
      assert MatchAt(s).None?;
      ScanWithoutBrace(s[1..]);
    }
  }

  /** A prefix without `{` is skipped over. */
  lemma {:induction false} ScanSkip(a: string, rest: string)
    requires '{' !in a
    ensures Scan(a + rest) == Scan(rest)
    decreases |a|
  {
    if a != [] {
      assert (a + rest)[0] == a[0] != '{';
      assert MatchAt(a + rest).None?;
      assert (a + rest)[1..] == a[1..] + rest;
      ScanSkip(a[1..], rest);
    } else {
      assert a + rest == rest;
    }
  }

  /** A placeholder at the start is captured, and the scan goes on after
      it. */
  lemma ScanPlaceholder(n: string, rest: string)
    requires IsWord(n)
    ensures Scan(Placeholder(n) + rest) == [n] + Scan(rest)
  {
    var s := Placeholder(n) + rest;
    assert s[..|Placeholder(n)|] == Placeholder(n);
    MatchOfPlaceholder(s, n);
    assert s[|n| + 4..] == rest;
  }

  // ---------------------------------------------------------------------
  // Keeping the first occurrence of each name

  function FirstIndex(s: seq<string>, x: string): (k: nat)
    requires x in s
    ensures k < |s| && s[k] == x && x !in s[..k]
  {
    if s[0] == x then 0
    else
      assert x in s[1..] by { assert s == [s[0]] + s[1..]; }
      var k := FirstIndex(s[1..], x);
      assert s[..k + 1] == [s[0]] + s[1..][..k];
      k + 1
  }

  /** The `filter(|name| seen.insert(name))` pass: a name is kept the first
      time it comes, unless it was already seen. */
  function Dedup(names: seq<string>, seen: set<string>): (r: seq<string>)
    ensures forall x :: x in r <==> x in names && x !in seen
    ensures forall i, j | 0 <= i < j < |r| :: r[i] != r[j]
    decreases |names|
  {
    if names == [] then []
    else if names[0] in seen then Dedup(names[1..], seen)
    else [names[0]] + Dedup(names[1..], seen + {names[0]})
  }

  /** `r` lists its names in the order they first appear in `names`. */
  predicate InFirstOrder(names: seq<string>, r: seq<string>)
    requires forall x | x in r :: x in names
  {
    forall i, j | 0 <= i < j < |r| :: FirstIndex(names, r[i]) < FirstIndex(names, r[j])
  }

  /** The kept names come in the order of their first appearance. */
  lemma {:induction false} DedupOrder(names: seq<string>, seen: set<string>)
    ensures InFirstOrder(names, Dedup(names, seen))
    decreases |names|
  {
    if names != [] {
      var r := Dedup(names, seen);
      var seen' := if names[0] in seen then seen else seen + {names[0]};
      var tail := Dedup(names[1..], seen');
      DedupOrder(names[1..], seen');
      assert InFirstOrder(names[1..], tail);
      forall i, j | 0 <= i < j < |r|
        ensures FirstIndex(names, r[i]) < FirstIndex(names, r[j])
      {
        if names[0] !in seen {
          assert r == [names[0]] + tail;
          ShiftedIndex(names, tail[j - 1]);
          if i > 0 {
            ShiftedIndex(names, tail[i - 1]);
            assert FirstIndex(names[1..], tail[i - 1]) < FirstIndex(names[1..], tail[j - 1]);
          }
        } else {
          assert r == tail;
          ShiftedIndex(names, tail[i]);
          ShiftedIndex(names, tail[j]);
          assert FirstIndex(names[1..], tail[i]) < FirstIndex(names[1..], tail[j]);
        }
      }
    }
  }

  lemma ShiftedIndex(names: seq<string>, x: string)
    requires names != [] && x in names[1..] && x != names[0]
    ensures FirstIndex(names, x) == FirstIndex(names[1..], x) + 1
  {
    assert x in names;
  }

  /** `parse_placeholders`: the captured names, first occurrences only. */
  function ParsePlaceholders(command: string): seq<string> {
    Dedup(Scan(command), {})
  }

  /** What the parse promises: no name twice, exactly the names of the
      placeholders that occur, each a word, in order of first appearance. */
  lemma ParseSpec(command: string)
    ensures var names := ParsePlaceholders(command);
      && (forall i, j | 0 <= i < j < |names| :: names[i] != names[j])
      && (forall n | n in names :: IsWord(n) && Contains(command, Placeholder(n)))
      && (forall n, i | IsWord(n) && OccursAt(command, Placeholder(n), i) :: n in names)
      && InFirstOrder(Scan(command), names)
  {
    var names := ParsePlaceholders(command);
    forall n | n in names
      ensures IsWord(n) && Contains(command, Placeholder(n))
    {
      ScanSound(command, n);
      ContainsAt(command, Placeholder(n));
    }
    forall n, i | IsWord(n) && OccursAt(command, Placeholder(n), i)
      ensures n in names
    {
      ScanComplete(command, i, n);
    }
    DedupOrder(Scan(command), {});
  }

  /** A command with no `{` has no placeholder. */
  lemma NoBraceNoPlaceholder(command: string)
    requires '{' !in command
    ensures ParsePlaceholders(command) == []
  {
    ScanWithoutBrace(command);
  }

  /** Brace-free text, a placeholder, then the rest: the placeholder is the
      next capture. */
  lemma ScanTextThenPlaceholder(a: string, n: string, rest: string)
    requires '{' !in a && IsWord(n)
    ensures Scan(a + Placeholder(n) + rest) == [n] + Scan(rest)
  {
    ScanSkip(a, Placeholder(n) + rest);
    ScanPlaceholder(n, rest);
    assert a + Placeholder(n) + rest == a + (Placeholder(n) + rest);
  }

  /** Two different placeholders among brace-free text are parsed in
      order. */
  lemma TwoPlaceholders(a: string, n1: string, b: string, n2: string, c: string)
    requires '{' !in a && '{' !in b && '{' !in c
    requires IsWord(n1) && IsWord(n2) && n1 != n2
    ensures ParsePlaceholders(a + Placeholder(n1) + b + Placeholder(n2) + c) == [n1, n2]
  {
    ScanTwo(a, n1, b, n2, c);
    DedupTwo(n1, n2);
  }

  lemma ScanTwo(a: string, n1: string, b: string, n2: string, c: string)
    requires '{' !in a && '{' !in b && '{' !in c
    requires IsWord(n1) && IsWord(n2)
    ensures Scan(a + Placeholder(n1) + b + Placeholder(n2) + c) == [n1, n2]
  {
    var p1, p2 := Placeholder(n1), Placeholder(n2);
    var tail := b + p2 + c;
    ScanWithoutBrace(c);
    ScanTextThenPlaceholder(b, n2, c);
    ScanTextThenPlaceholder(a, n1, tail);
    Regroup(a, p1, b, p2, c);
  }

  lemma Regroup(a: string, p1: string, b: string, p2: string, c: string)
    ensures a + p1 + b + p2 + c == a + p1 + (b + p2 + c)
  {
  }

  lemma DedupTwo(n1: string, n2: string)
    requires n1 != n2
    ensures Dedup([n1, n2], {}) == [n1, n2]
  {
    assert Dedup([n2], {n1}) == [n2] by {
      assert [n2][1..] == [];
      assert Dedup([], {n1} + {n2}) == [];
    }
    assert [n1, n2][1..] == [n2];
    assert {} + {n1} == {n1};
    assert Dedup([n1, n2], {}) == [n1] + Dedup([n2], {} + {n1});
  }

  /** The same placeholder twice and then another: the repeat is dropped. */
  lemma RepeatedPlaceholder(a: string, n1: string, b: string, n2: string)
    requires '{' !in a && '{' !in b
    requires IsWord(n1) && IsWord(n2) && n1 != n2
    ensures ParsePlaceholders(a + Placeholder(n1) + b + Placeholder(n1) + b + Placeholder(n2)) == [n1, n2]
  {
    ScanRepeated(a, n1, b, n2);
    DedupTwo(n1, n2);
    assert Dedup([n1, n2], {n1}) == Dedup([n2], {n1}) by { assert [n1, n2][1..] == [n2]; }
    assert [n1, n1, n2][1..] == [n1, n2];
    assert {} + {n1} == {n1};
    assert Dedup([n1, n1, n2], {}) == [n1] + Dedup([n1, n2], {} + {n1});
  }

  lemma ScanRepeated(a: string, n1: string, b: string, n2: string)
    requires '{' !in a && '{' !in b
    requires IsWord(n1) && IsWord(n2)
    ensures Scan(a + Placeholder(n1) + b + Placeholder(n1) + b + Placeholder(n2)) == [n1, n1, n2]
  {
    var p1, p2 := Placeholder(n1), Placeholder(n2);
    var tail := b + p1 + b + p2;
    assert Scan(tail) == [n1, n2] by {
      ScanTwo(b, n1, b, n2, []);
      assert tail + [] == tail;
    }
    assert Scan(a + p1 + tail) == [n1] + Scan(tail) by {
      ScanTextThenPlaceholder(a, n1, tail);
    }
    RegroupLong(a, p1, b, p2);
  }

  lemma RegroupLong(a: string, p1: string, b: string, p2: string)
    ensures a + p1 + b + p1 + b + p2 == a + p1 + (b + p1 + b + p2)
  {
  }

  /** The first unit test: `curl -H 'Auth: {{API_KEY}}' --data '{{DATA}}'`
      gives `API_KEY`, `DATA`. */
  lemma ParseExample(a: string, n1: string, b: string, n2: string, c: string)
    requires a == "curl -H 'Auth: " && n1 == "API_KEY" && b == "' --data '"
    requires n2 == "DATA" && c == "'"
    ensures ParsePlaceholders(a + Placeholder(n1) + b + Placeholder(n2) + c) == [n1, n2]
  {
    assert IsWord(n1) && IsWord(n2) && n1[0] != n2[0];
    TwoPlaceholders(a, n1, b, n2, c);
  }

  /** The de-duplication test: `echo {{SECRET}} {{SECRET}} {{OTHER}}` gives
      `SECRET`, `OTHER`. */
  lemma DedupExample(a: string, n1: string, b: string, n2: string)
    requires a == "echo " && n1 == "SECRET" && b == " " && n2 == "OTHER"
    ensures ParsePlaceholders(a + Placeholder(n1) + b + Placeholder(n1) + b + Placeholder(n2))
         == [n1, n2]
  {
    assert IsWord(n1) && IsWord(n2) && n1[0] != n2[0];
    RepeatedPlaceholder(a, n1, b, n2);
  }

  /** The empty test: `echo hello` has no placeholder. */
  lemma NoPlaceholderExample(command: string)
    requires command == "echo hello"
    ensures ParsePlaceholders(command) == []
  {
    NoBraceNoPlaceholder(command);
  }

  // ---------------------------------------------------------------------
  // Substitution

  type Secrets = seq<(string, string)>

  /** `inject_secrets`: each `{{name}}` replaced by its value, secret by
      secret. */
  function InjectAll(command: string, secrets: Secrets): string
    decreases |secrets|
  {
    if secrets == [] then command
    else InjectAll(Replace(command, Placeholder(secrets[0].0), secrets[0].1), secrets[1..])
  }

  method InjectSecrets(command: string, secrets: Secrets) returns (result: string)
    ensures result == InjectAll(command, secrets)
  {
    result := command;
    var i := 0;
    while i < |secrets|
      invariant 0 <= i <= |secrets|
      invariant InjectAll(result, secrets[i..]) == InjectAll(command, secrets)
    {
      assert secrets[i..][1..] == secrets[i + 1..];
      var (name, value) := secrets[i];
      result := Replace(result, Placeholder(name), value);
      i := i + 1;
    }
  }

  /** With one secret, injection is a literal replace-all of its
      placeholder. */
  lemma InjectOne(command: string, name: string, value: string)
    ensures InjectAll(command, [(name, value)]) == Replace(command, Placeholder(name), value)
  {
    assert [(name, value)][1..] == [];
  }

  /** A command holding none of the placeholders is left as it is. */
  lemma {:induction false} InjectAbsent(command: string, secrets: Secrets)
    requires forall k | 0 <= k < |secrets| :: !Contains(command, Placeholder(secrets[k].0))
    ensures InjectAll(command, secrets) == command
    decreases |secrets|
  {
    if secrets != [] {
      ReplaceAbsent(command, Placeholder(secrets[0].0), secrets[0].1);
      assert forall k | 0 <= k < |secrets| - 1 :: secrets[1..][k] == secrets[k + 1];
      InjectAbsent(command, secrets[1..]);
    }
  }

  // ---------------------------------------------------------------------
  // Resolving every name before running

  /** The child process, seen from the parent: its captured output and exit
      status, or a failure to start `sh`. */
  datatype Child =
    | Exited(stdout: string, stderr: string, code: Option<int>)
    | SpawnFailed(message: string)

  datatype ExecError =
    | VaultUnavailable(error: Error)
      /** `secret '<name>' not found in vault`. */
    | SecretMissing(name: string)
      /** `failed to get secret '<name>': <error>`. */
    | SecretUnreadable(name: string, error: Error)
      /** `failed to execute command`. */
    | ExecFailed(message: string)

  /** What a finished run shows: the command that was run, the secrets used,
      both output streams after redaction, and the exit code. */
  datatype Execution = Execution(ran: string, secrets: Secrets, stdout: string, stderr: string, exitCode: int)

  datatype ExecResult = Ran(execution: Execution) | Failed(error: ExecError)

  /** `status.code().unwrap_or(1)`: a child killed by a signal has no code. */
  function ExitCode(code: Option<int>): (c: int)
    ensures code.Some? ==> c == code.value
    ensures code.None? ==> c == 1
  {
    code.GetOr(1)
  }

  /** `execute_command`: run the command, redact both streams with the
      secrets, report the exit code. */
  function Execute(command: string, secrets: Secrets, child: string -> Child): ExecResult {
    match child(command)
    case SpawnFailed(message) => Failed(ExecFailed(message))
    case Exited(out, err, code) =>
      Ran(Execution(command, secrets,
        Sanitize.RedactAll(out, secrets), Sanitize.RedactAll(err, secrets), ExitCode(code)))
  }

  /** The error `run` reports for a name the vault could not give. */
  function LookupError(name: string, e: Error): ExecError {
    if e.SecretNotFound? then SecretMissing(name) else SecretUnreadable(name, e)
  }

  /** An order in which a map keyed by `names` can hand out its entries:
      every name exactly as often as it is a key. `names` comes from
      `parse_placeholders` and holds no name twice, so this is a
      permutation of it. */
  predicate IsIterationOrder(order: seq<string>, names: seq<string>) {
    multiset(order) == multiset(names)
  }

  /** `run` once the vault is open. The names are looked up in placeholder
      order, stopping at the first that cannot be read; the secrets are
      then injected and redacted in `order`, the order the `HashMap` hands
      them out, which the source leaves unspecified. */
  function RunSpec(t: Vault.Table, key: string, command: string, child: string -> Child, order: seq<string>): ExecResult
    requires IsIterationOrder(order, ParsePlaceholders(command))
  {
    var names := ParsePlaceholders(command);
    if names == [] then Execute(command, [], child)
    else
      var k := Vault.FirstUnreadable(t, key, names);
      if k < |names| then Failed(LookupError(names[k], Vault.Lookup(t, key, names[k]).error))
      else
        OrderReadable(t, key, names, order);
        var secrets := Vault.ReadAll(t, key, order);
        Execute(InjectAll(command, secrets), secrets, child)
  }

  /** Every name of an order of `names` is one of them, so when every
      name reads, so does every name of the order. */
  lemma OrderReadable(t: Vault.Table, key: string, names: seq<string>, order: seq<string>)
    requires IsIterationOrder(order, names)
    requires forall j | 0 <= j < |names| :: Vault.Lookup(t, key, names[j]).Ok?
    ensures forall j | 0 <= j < |order| :: order[j] in names && Vault.Lookup(t, key, order[j]).Ok?
  {
    forall j | 0 <= j < |order|
      ensures order[j] in names && Vault.Lookup(t, key, order[j]).Ok?
    {
      assert order[j] in multiset(names);
      var i :| 0 <= i < |names| && names[i] == order[j];
    }
  }

  /** `run`: open the vault, parse, look up every name in order into a
      map, then inject and execute with the map's entries in `order`. */
  method Run(openResult: Result<Vault.Vault>, command: string, child: string -> Child, order: seq<string>)
    returns (r: ExecResult)
    requires IsIterationOrder(order, ParsePlaceholders(command))
    ensures openResult.Err? ==> r == Failed(VaultUnavailable(openResult.error))
    ensures openResult.Ok? ==>
      r == RunSpec(openResult.value.conn.secrets, openResult.value.masterKey, command, child, order)
  {
    if openResult.Err? {
      return Failed(VaultUnavailable(openResult.error));
    }
    var vault := openResult.value;
    var names := ParsePlaceholders(command);
    if names == [] {
      return Execute(command, [], child);
    }
    ghost var t, key := vault.conn.secrets, vault.masterKey;
    var values: map<string, string> := map[];
    var i := 0;
    while i < |names|
      invariant 0 <= i <= |names|
      invariant forall j | 0 <= j < i :: Vault.Lookup(t, key, names[j]).Ok?
      invariant values == map n | n in names[..i] :: Vault.Lookup(t, key, n).value
    {
      var value := vault.Get(names[i]);
      if value.Err? {
        Vault.FirstUnreadableAt(t, key, names, i);
        return Failed(LookupError(names[i], value.error));
      }
      assert names[..i + 1] == names[..i] + [names[i]];
      values := values[names[i] := value.value];
      i := i + 1;
    }
    assert names[..i] == names;
    OrderReadable(t, key, names, order);
    var secrets := InMapOrder(values, order);
    OrderedValues(t, key, names, order, values, secrets);
    var injected := InjectSecrets(command, secrets);
    r := Execute(injected, secrets, child);
  }

  /** The map's entries listed in `order`. */
  function InMapOrder(values: map<string, string>, order: seq<string>): (s: Secrets)
    requires forall j | 0 <= j < |order| :: order[j] in values
    ensures |s| == |order|
    ensures forall j | 0 <= j < |s| :: s[j] == (order[j], values[order[j]])
  {
    seq(|order|, j requires 0 <= j < |order| => (order[j], values[order[j]]))
  }

  /** The map of looked-up values, listed in `order`, is what the vault
      reads for `order`. */
  lemma OrderedValues(t: Vault.Table, key: string, names: seq<string>, order: seq<string>,
                      values: map<string, string>, secrets: Secrets)
    requires IsIterationOrder(order, names)
    requires forall j | 0 <= j < |names| :: Vault.Lookup(t, key, names[j]).Ok?
    requires values == map n | n in names :: Vault.Lookup(t, key, n).value
    requires forall j | 0 <= j < |order| :: order[j] in values
    requires secrets == InMapOrder(values, order)
    ensures forall j | 0 <= j < |order| :: Vault.Lookup(t, key, order[j]).Ok?
    ensures secrets == Vault.ReadAll(t, key, order)
  {
    OrderReadable(t, key, names, order);
  }

  /** A command without placeholders runs as written, with no secrets and
      nothing looked up. */
  lemma NoPlaceholdersRunsAsIs(t: Vault.Table, key: string, command: string, child: string -> Child)
    requires ParsePlaceholders(command) == []
    ensures RunSpec(t, key, command, child, []) == Execute(command, [], child)
  {
  }

  /** If any placeholder names a secret the vault lacks, nothing runs,
      whatever the order. */
  lemma MissingSecretStopsRun(t: Vault.Table, key: string, command: string, child: string -> Child,
                              order: seq<string>, n: string)
    requires IsIterationOrder(order, ParsePlaceholders(command))
    requires n in ParsePlaceholders(command) && n !in t
    ensures RunSpec(t, key, command, child, order).Failed?
  {
    var names := ParsePlaceholders(command);
    var j :| 0 <= j < |names| && names[j] == n;
    assert Vault.Lookup(t, key, names[j]).Err?;
    assert Vault.FirstUnreadable(t, key, names) <= j;
  }

  /** When the command runs, it runs with exactly the placeholder names,
      each once and with its value, in the map's order; the injected
      command is what runs, and both streams are redacted with those same
      secrets in that same order. */
  lemma RanWithExactlyThePlaceholders(t: Vault.Table, key: string, command: string, child: string -> Child,
                                      order: seq<string>)
    requires IsIterationOrder(order, ParsePlaceholders(command))
    requires RunSpec(t, key, command, child, order).Ran?
    ensures var e := RunSpec(t, key, command, child, order).execution;
      var names := ParsePlaceholders(command);
      && |e.secrets| == |names|
      && (forall j | 0 <= j < |e.secrets| ::
            e.secrets[j].0 == order[j] && order[j] in names && order[j] in t
            && Vault.Lookup(t, key, order[j]) == Ok(e.secrets[j].1))
      && (forall n | n in names :: exists j | 0 <= j < |e.secrets| :: e.secrets[j].0 == n)
      && e.ran == InjectAll(command, e.secrets)
      && child(e.ran).Exited?
      && e.stdout == Sanitize.RedactAll(child(e.ran).stdout, e.secrets)
      && e.stderr == Sanitize.RedactAll(child(e.ran).stderr, e.secrets)
      && e.exitCode == ExitCode(child(e.ran).code)
  {
    var names := ParsePlaceholders(command);
    Permutation(order, names);
    if names != [] {
      assert Vault.FirstUnreadable(t, key, names) == |names|;
    }
  }

  /** An order of `names` has the same length, holds only those names,
      and holds each of them. */
  lemma Permutation(order: seq<string>, names: seq<string>)
    requires IsIterationOrder(order, names)
    ensures |order| == |names|
    ensures forall j | 0 <= j < |order| :: order[j] in names
    ensures forall n | n in names :: exists j | 0 <= j < |order| :: order[j] == n
  {
    assert |multiset(order)| == |multiset(names)|;
    forall j | 0 <= j < |order|
      ensures order[j] in names
    {
      assert order[j] in multiset(names);
    }
    forall n | n in names
      ensures exists j | 0 <= j < |order| :: order[j] == n
    {
      assert n in multiset(order);
      var j :| 0 <= j < |order| && order[j] == n;
    }
  }
}
