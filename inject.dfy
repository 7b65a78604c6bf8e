/** The `inject` command of src/commands/inject.rs: one secret written into
    a file, either in place of a placeholder or as a `NAME=value` line of a
    `.env` file. The file is passed in as its contents (`None` when it does
    not exist) and the new contents are returned. */
module Inject {
  import opened Errors
  import opened Text
  import Env
  import Vault

  /** Why `inject` stops. */
  datatype InjectError =
      /** `failed to get secret`. */
    | GetFailed(error: Error)
      /** `placeholder '<p>' not found in file`. */
    | PlaceholderNotFound(placeholder: string)
      /** `failed to read file`: placeholder mode on a file that is not there. */
    | FileUnreadable
      /** `either --placeholder or --env-format is required`. */
    | NoMode

  datatype InjectResult = Injected(content: string) | Failed(error: InjectError)

  // ---------------------------------------------------------------------
  // `inject_placeholder`

  /** `inject_placeholder`: refuse a file without the placeholder, else
      replace every occurrence of it. */
  function InjectPlaceholder(content: string, placeholder: string, value: string): (r: InjectResult)
    ensures r.Failed? <==> !Contains(content, placeholder)
    ensures r.Failed? ==> r.error == PlaceholderNotFound(placeholder)
  {
    if !Contains(content, placeholder) then Failed(PlaceholderNotFound(placeholder))
    else Injected(Replace(content, placeholder, value))
  }

  /** A placeholder that occurs once is replaced by the value and nothing
      else changes. */
  lemma InjectPlaceholderOnce(a: string, placeholder: string, b: string, value: string)
    requires placeholder != []
    requires !Contains(a + placeholder[..|placeholder| - 1], placeholder) && !Contains(b, placeholder)
    ensures InjectPlaceholder(a + placeholder + b, placeholder, value) == Injected(a + value + b)
  {
    ReplaceAfter(a, placeholder, b, value);
    ReplaceAbsent(b, placeholder, value);
    assert OccursAt(a + placeholder + b, placeholder, |a|);
    ContainsAt(a + placeholder + b, placeholder);
  }

  /** The unit test of `inject_placeholder`: `password={{DB_PASS}}` with
      `secret123`. */
  lemma InjectPlaceholderExample(a: string, placeholder: string, value: string)
    requires a == "password=" && placeholder == "{{DB_PASS}}" && value == "secret123"
    ensures InjectPlaceholder(a + placeholder + "\n", placeholder, value) == Injected(a + value + "\n")
  {
    assert !Contains(a + placeholder[..|placeholder| - 1], placeholder) by {
      NoDoubleBrace(a + placeholder[..|placeholder| - 1], placeholder);
    }
    MissingCharNotContained("\n", placeholder, '{');
    InjectPlaceholderOnce(a, placeholder, "\n", value);
  }

  /** `password={{DB_PASS}` has no `}}`, so `{{DB_PASS}}` does not occur
      in it. */
  lemma NoDoubleBrace(s: string, placeholder: string)
    requires s == "password={{DB_PASS}" && placeholder == "{{DB_PASS}}"
    ensures !Contains(s, placeholder)
  {
    PairAbsent(s, placeholder, 9);
  }

  // ---------------------------------------------------------------------
  // `inject_env_format`

  /** A line that `inject_env_format` replaces: it starts with `NAME=` or
      with `export NAME=`. */
  predicate Assigns(line: string, name: string) {
    StartsWith(line, name + "=") || StartsWith(line, Env.ExportPrefix + name + "=")
  }

  /** The lines `inject_env_format` builds from the lines of the file:
      every line that assigns the name becomes the new assignment, every
      other line is kept in its place, and the assignment is appended when
      no line had it. */
  function EnvLines(lines: seq<string>, name: string, value: string): (r: seq<string>)
    ensures |r| == |lines| || |r| == |lines| + 1
    ensures forall i | 0 <= i < |lines| ::
      r[i] == if Assigns(lines[i], name) then Env.ExportLine(name, value) else lines[i]
    ensures |r| == |lines| + 1 <==> forall i | 0 <= i < |lines| :: !Assigns(lines[i], name)
    ensures |r| == |lines| + 1 ==> r[|lines|] == Env.ExportLine(name, value)
    ensures exists i | 0 <= i < |r| :: r[i] == Env.ExportLine(name, value)
  {
    var kept := Rewritten(lines, name, value);
    if exists i | 0 <= i < |lines| :: Assigns(lines[i], name) then
      var i :| 0 <= i < |lines| && Assigns(lines[i], name);
      assert kept[i] == Env.ExportLine(name, value);
      kept
    else
      var r := kept + [Env.ExportLine(name, value)];
      assert r[|lines|] == Env.ExportLine(name, value);
      r
  }

  function Rewritten(lines: seq<string>, name: string, value: string): (r: seq<string>)
    ensures |r| == |lines|
  {
    seq(|lines|, i requires 0 <= i < |lines| =>
      if Assigns(lines[i], name) then Env.ExportLine(name, value) else lines[i])
  }

  /** The file `inject_env_format` writes: the lines joined by newlines,
      with a newline added unless the join already ends with one. */
  function EnvFormat(content: string, name: string, value: string): (r: string)
    ensures EndsWith(r, "\n")
  {
    var joined := Join(EnvLines(Lines(content), name, value), "\n");
    if EndsWith(joined, "\n") then joined
    else
      assert (joined + "\n")[|joined|..] == "\n";
      joined + "\n"
  }

  /** `inject_env_format`: a file that does not exist reads as empty; the
      loop rewrites the lines one by one and remembers whether the name was
      found. */
  method InjectEnvFormat(existing: Option<string>, name: string, value: string) returns (content: string)
    ensures content == EnvFormat(existing.GetOr(""), name, value)
  {
    var text := if existing.Some? then existing.value else "";
    var lines := Lines(text);
    var newLines, found := RewriteLines(lines, name, value);
    if !found {
      newLines := newLines + [Env.ExportLine(name, value)];
    }
    assert newLines == EnvLines(lines, name, value);
    content := Join(newLines, "\n");
    if !EndsWith(content, "\n") {
      content := content + "\n";
    }
  }

  /** The loop of `inject_env_format`: every line that assigns the name
      becomes the new assignment, and `found` records whether one did. */
  method RewriteLines(lines: seq<string>, name: string, value: string) returns (newLines: seq<string>, found: bool)
    ensures newLines == Rewritten(lines, name, value)
    ensures found <==> exists j | 0 <= j < |lines| :: Assigns(lines[j], name)
  {
    var assignment := Env.ExportLine(name, value);
    found := false;
    newLines := [];
    for i := 0 to |lines|
      invariant newLines == Rewritten(lines[..i], name, value)
      invariant found <==> exists j | 0 <= j < i :: Assigns(lines[j], name)
    {
      RewrittenStep(lines, i, name, value);
      FoundStep(lines, i, name);
      if Assigns(lines[i], name) {
        newLines := newLines + [assignment];
        found := true;
      } else {
        newLines := newLines + [lines[i]];
      }
    }
    assert lines[..|lines|] == lines;
  }

  /** Some line up to `i` assigns the name when one before `i` does or
      line `i` does. */
  lemma FoundStep(lines: seq<string>, i: nat, name: string)
    requires i < |lines|
    ensures (exists j | 0 <= j < i + 1 :: Assigns(lines[j], name))
        <==> (exists j | 0 <= j < i :: Assigns(lines[j], name)) || Assigns(lines[i], name)
  {
  }

  /** Rewriting one more line appends its rewriting. */
  lemma RewrittenStep(lines: seq<string>, i: nat, name: string, value: string)
    requires i < |lines|
    ensures Rewritten(lines[..i + 1], name, value)
         == Rewritten(lines[..i], name, value)
            + [if Assigns(lines[i], name) then Env.ExportLine(name, value) else lines[i]]
  {
    assert lines[..i + 1][..i] == lines[..i];
  }

  /** A new file, or an empty one, gets the assignment on a line of its
      own. */
  lemma EnvFormatEmpty(name: string, value: string)
    ensures EnvFormat("", name, value) == Env.ExportLine(name, value) + "\n"
  {
    var line := Env.ExportLine(name, value);
    assert EnvLines([], name, value) == [line];
    ExportLineUnended(name, value);
    Unended([], line);
    assert [] + line == line;
  }

  /** An assignment line never ends with a newline: it ends with `=`, a
      closing quote, or a value that holds no newline. */
  lemma ExportLineUnended(name: string, value: string)
    ensures var line := Env.ExportLine(name, value);
      line != [] && line[|line| - 1] != '\n'
  {
    var q := Env.QuoteEnvValue(value);
    var line := Env.ExportLine(name, value);
    assert line[|line| - 1] == if q == [] then '=' else q[|q| - 1];
  }

  lemma Unended(x: string, y: string)
    requires y != [] && y[|y| - 1] != '\n'
    ensures !EndsWith(x + y, "\n")
  {
    assert (x + y)[|x + y| - 1] == y[|y| - 1];
  }

  /** The unit test on a new file: `API_KEY=sk-12345`. */
  lemma EnvFormatNewFile(name: string, value: string)
    requires name == "API_KEY" && value == "sk-12345"
    ensures EnvFormat("", name, value) == name + "=" + value + "\n"
  {
    EnvFormatEmpty(name, value);
    ApiKeyAsIs(value);
  }

  /** `sk-12345` needs no quoting. */
  lemma ApiKeyAsIs(value: string)
    requires value == "sk-12345"
    ensures Env.QuoteEnvValue(value) == value
  {
    PlainValue(value);
  }

  /** A value of letters, digits and `-` is written as it is. */
  lemma PlainValue(value: string)
    requires forall i | 0 <= i < |value| :: IsAsciiAlphanumeric(value[i]) || value[i] == '-'
    ensures Env.QuoteEnvValue(value) == value
  {
    assert forall c | c in value :: IsAsciiAlphanumeric(c) || c == '-';
    assert !Env.NeedsQuoting(value);
  }

  /** The lines of two newline-ended lines. */
  lemma TwoLines(l1: string, l2: string)
    requires '\n' !in l1 && '\n' !in l2
    requires (l1 == [] || l1[|l1| - 1] != '\r') && (l2 == [] || l2[|l2| - 1] != '\r')
    ensures Lines(l1 + "\n" + l2 + "\n") == [l1, l2]
  {
    LinesOfLine(l2);
    LinesCons(l1, l2 + "\n");
    Text.Regroup(l1 + "\n", l2, "\n");
  }

  /** Two lines joined and ended by a newline. */
  lemma JoinTwo(l1: string, l2: string)
    ensures Join([l1, l2], "\n") == l1 + "\n" + l2
  {
    assert [l1, l2][1..] == [l2];
  }

  /** A file whose first line assigns the name gets that line replaced and
      keeps the second. */
  lemma EnvFormatReplaces(l1: string, l2: string, name: string, value: string)
    requires '\n' !in l1 && '\n' !in l2
    requires (l1 == [] || l1[|l1| - 1] != '\r') && l2 != [] && l2[|l2| - 1] != '\r' && l2[|l2| - 1] != '\n'
    requires Assigns(l1, name) && !Assigns(l2, name)
    ensures EnvFormat(l1 + "\n" + l2 + "\n", name, value) == Env.ExportLine(name, value) + "\n" + l2 + "\n"
  {
    TwoLines(l1, l2);
    var lines := [l1, l2];
    assert Assigns(lines[0], name) && !Assigns(lines[1], name);
    var r := EnvLines(lines, name, value);
    assert r == [Env.ExportLine(name, value), l2];
    JoinTwo(Env.ExportLine(name, value), l2);
  }

  /** A file without the name gets the assignment after its last line. */
  lemma EnvFormatAppends(l1: string, name: string, value: string)
    requires '\n' !in l1 && l1 != [] && l1[|l1| - 1] != '\r'
    requires !Assigns(l1, name)
    ensures EnvFormat(l1 + "\n", name, value) == l1 + "\n" + Env.ExportLine(name, value) + "\n"
  {
    var line := Env.ExportLine(name, value);
    LinesOfLine(l1);
    AppendedLine(l1, name, value);
    JoinTwo(l1, line);
    ExportLineUnended(name, value);
    Unended(l1 + "\n", line);
  }

  /** The lines of a file whose one line does not assign the name, once
      rewritten: that line, then the assignment. */
  lemma AppendedLine(l1: string, name: string, value: string)
    requires !Assigns(l1, name)
    ensures EnvLines([l1], name, value) == [l1, Env.ExportLine(name, value)]
  {
    var r := EnvLines([l1], name, value);
    assert |r| == 2 && r[0] == l1;
  }

  /** The unit test on an existing variable: `API_KEY=old-value` becomes
      `API_KEY=new-value`, `OTHER=keep` stays, and `old-value` is gone. */
  lemma EnvFormatExistingVar(name: string, previous: string, other: string, value: string)
    requires name == "API_KEY" && previous == "old-value" && other == "OTHER=keep" && value == "new-value"
    ensures EnvFormat(name + "=" + previous + "\n" + other + "\n", name, value)
         == name + "=" + value + "\n" + other + "\n"
  {
    var l1 := name + "=" + previous;
    AssignmentAssigns(name, previous);
    assert !Assigns(other, name) by { NotAssigned(other, name); }
    assert '\n' !in l1 && '\n' !in other && l1[|l1| - 1] != '\r' && other[|other| - 1] != '\r';
    EnvFormatReplaces(l1, other, name, value);
    NewValueAsIs(name, value);
  }

  /** `new-value` needs no quoting. */
  lemma NewValueAsIs(name: string, value: string)
    requires value == "new-value"
    ensures Env.ExportLine(name, value) == name + "=" + value
  {
    PlainValue(value);
  }

  /** ... and `old-value` is gone. */
  lemma OldValueGone(name: string, previous: string, other: string, value: string)
    requires name == "API_KEY" && previous == "old-value" && other == "OTHER=keep" && value == "new-value"
    ensures !Contains(name + "=" + value + "\n" + other + "\n", previous)
  {
    var s := name + "=" + value + "\n" + other + "\n";
    assert 'o' !in s;
    MissingCharNotContained(s, previous, 'o');
  }

  /** `NAME=...` assigns `NAME`. */
  lemma AssignmentAssigns(name: string, value: string)
    ensures Assigns(name + "=" + value, name)
  {
    assert (name + "=" + value)[..|name + "="|] == name + "=";
  }

  /** `OTHER=keep` and `EXISTING=value` do not assign `API_KEY` or
      `NEW_KEY`: their first characters differ. */
  lemma NotAssigned(line: string, name: string)
    requires line != [] && name != [] && line[0] != name[0] && line[0] != 'e'
    ensures !Assigns(line, name)
  {
    PrefixChar(line, name + "=", 0);
    PrefixChar(line, Env.ExportPrefix + name + "=", 0);
  }

  /** The unit test on appending: `EXISTING=value` stays and
      `NEW_KEY=new-value` follows it. */
  lemma EnvFormatAppendExample(existing: string, name: string, value: string)
    requires existing == "EXISTING=value" && name == "NEW_KEY" && value == "new-value"
    ensures EnvFormat(existing + "\n", name, value) == existing + "\n" + name + "=" + value + "\n"
  {
    NotAssigned(existing, name);
    NewValueAsIs(name, value);
    AppendsAsIs(existing, name, value);
  }

  /** `EnvFormatAppends` for a value written as it is. */
  lemma AppendsAsIs(l1: string, name: string, value: string)
    requires '\n' !in l1 && l1 != [] && l1[|l1| - 1] != '\r'
    requires !Assigns(l1, name)
    requires Env.ExportLine(name, value) == name + "=" + value
    ensures EnvFormat(l1 + "\n", name, value) == l1 + "\n" + name + "=" + value + "\n"
  {
    EnvFormatAppends(l1, name, value);
    var x := l1 + "\n";
    assert x + (name + "=" + value) == x + name + "=" + value by {
      Regroup(x, name + "=", value);
      Regroup(x, name, "=");
    }
  }

  // ---------------------------------------------------------------------
  // `run`

  /** `inject`: read the secret first; then `--env-format` if given, else
      the placeholder, else refuse. */
  function InjectSpec(t: Vault.Table, key: string, name: string, file: Option<string>,
                      placeholder: Option<string>, envFormat: bool): InjectResult
  {
    match Vault.Lookup(t, key, name)
    case Err(e) => Failed(GetFailed(e))
    case Ok(value) =>
      if envFormat then Injected(EnvFormat(file.GetOr(""), name, value))
      else if placeholder.Some? then
        if file.None? then Failed(FileUnreadable) else InjectPlaceholder(file.value, placeholder.value, value)
      else Failed(NoMode)
  }

  method Run(vault: Vault.Vault, name: string, file: Option<string>, placeholder: Option<string>, envFormat: bool)
    returns (r: InjectResult)
    ensures r == InjectSpec(vault.conn.secrets, vault.masterKey, name, file, placeholder, envFormat)
  {
    var value := vault.Get(name);
    if value.Err? {
      return Failed(GetFailed(value.error));
    }
    if envFormat {
      var content := InjectEnvFormat(file, name, value.value);
      return Injected(content);
    }
    if placeholder.None? {
      return Failed(NoMode);
    }
    if file.None? {
      return Failed(FileUnreadable);
    }
    r := InjectPlaceholder(file.value, placeholder.value, value.value);
  }

  /** A secret the vault cannot give stops `inject` before any mode is
      looked at; `--env-format` wins over a placeholder; with neither the
      command is refused. */
  lemma ModeSelection(t: Vault.Table, key: string, name: string, file: Option<string>,
                      placeholder: Option<string>, envFormat: bool)
    ensures Vault.Lookup(t, key, name).Err? ==>
      InjectSpec(t, key, name, file, placeholder, envFormat) == Failed(GetFailed(Vault.Lookup(t, key, name).error))
    ensures Vault.Lookup(t, key, name).Ok? && envFormat ==>
      InjectSpec(t, key, name, file, placeholder, envFormat) == InjectSpec(t, key, name, file, None, true)
    ensures Vault.Lookup(t, key, name).Ok? && !envFormat && placeholder.None? ==>
      InjectSpec(t, key, name, file, placeholder, envFormat) == Failed(NoMode)
  {
  }

  /** The line `inject --env-format` writes reads back, through the
      corrected parser, as the name and the value ... */
  lemma InjectedLineReadsBack(name: string, value: string)
    requires Env.IsEnvName(name)
    ensures Env.ParseEnvLineCorrected(Env.ExportLine(name, value))
         == Returned(Some((name, if Env.NeedsQuoting(value) then value else Trim(value))))
  {
    Env.ExportLineReadsBack(name, value);
  }

  /** ... and through the parser of `import` as written, when the value
      holds none of the characters that get escaped. */
  lemma InjectedLineReadsBackUnescaped(name: string, value: string)
    requires Env.IsEnvName(name)
    requires forall i | 0 <= i < |value| :: Env.EscapeChar(value[i]) == [value[i]]
    ensures Env.ParseEnvLine(Env.ExportLine(name, value))
         == Returned(Some((name, if Env.NeedsQuoting(value) then value else Trim(value))))
  {
    Env.ExportLineReadsBackUnescaped(name, value);
  }

  /** The last unit test of `quote_env_value`, copied into this file:
      `has"quote` has its quote escaped. */
  lemma QuoteQuote(a: string, b: string)
    requires a == "has" && b == "quote"
    ensures Env.QuoteEnvValue(a + "\"" + b) == "\"" + a + "\\\"" + b + "\""
  {
    Env.QuoteOneEscape(a, '"', b);
  }
}
