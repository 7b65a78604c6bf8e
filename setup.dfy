/** `secret-agent setup` (src/commands/setup.rs): it adds the usage
    instructions to `~/.claude/CLAUDE.md` unless the marker heading shows
    they are already there. The file is a `ClaudeMd` object whose contents
    `Run` updates; what the file system allows (a home directory, creating
    `~/.claude`, reading and writing the file) is passed in as a `Host`. */
module Setup {
  import opened Errors
  import opened Text

  /** The heading that marks the instructions as installed. */
  const Marker: string := "## Secrets Management (secret-agent)"

  /** `CLAUDE_INSTRUCTIONS`: the marker heading, then the text below it. */
  const Instructions: string := Marker + InstructionsBody

  /** The text of `CLAUDE_INSTRUCTIONS` after its first heading, character
      for character. */
  const InstructionsBody: string := @"

### Why use secret-agent
- Secrets never appear in agent context windows
- Traces are safe to log
- Prompt injection can't leak secrets you don't have
- Output is automatically sanitized (secrets replaced with `[REDACTED:NAME]`)

### Run commands with secrets (preferred)
```bash
# As environment variables (recommended)
secret-agent exec --env API_KEY node app.js
secret-agent exec -e KEY1 -e KEY2 ./script.sh

# With bucket prefix - env var is just the name (API_KEY, not prod/API_KEY)
secret-agent exec --env prod/API_KEY node app.js

# Rename: vault secret -> different env var name
secret-agent exec --env MY_SECRET:OPENAI_API_KEY python app.py

# Template secrets into command strings
secret-agent exec curl -H 'Authorization: Bearer {{API_KEY}}' https://api.example.com
```

### Create secrets
```bash
secret-agent create API_KEY                     # 32-char alphanumeric (default)
secret-agent create API_KEY --length 64         # Custom length
secret-agent create API_KEY --charset hex       # hex | base64 | ascii | alphanumeric
secret-agent create API_KEY --force             # Overwrite existing
```

### Import secrets
```bash
# From clipboard (clears after reading)
secret-agent import OPENAI_KEY --clipboard

# From stdin (single-line)
echo ""sk-..."" | secret-agent import API_KEY

# Replace existing secret
echo ""new_value"" | secret-agent import EXISTING_KEY --replace
```

### Import PEM files, certificates, and key pairs
```bash
# Pipe multiline content directly - full content is preserved
cat private_key.pem | secret-agent import TLS_KEY
cat certificate.pem | secret-agent import TLS_CERT

# Use --env to pass multiline secrets (NOT {{}} templates)
secret-agent exec --env TLS_KEY my-deploy-script
secret-agent exec --env TLS_CERT:SSL_CERT nginx -c /etc/nginx.conf
```
Note: `--env` is the correct way to use multiline secrets. The `{{PLACEHOLDER}}` template syntax is for single-line values like API keys only.

### List and delete
```bash
secret-agent list                    # All secrets
secret-agent list --bucket prod      # Only secrets in a bucket
secret-agent delete OLD_SECRET       # Remove permanently
```

### Buckets for organizing secrets
```bash
# Create secrets in buckets (bucket/name syntax)
secret-agent create prod/SUPABASE_KEY
secret-agent create dev/SUPABASE_KEY
secret-agent create staging/SUPABASE_KEY

# List by bucket
secret-agent list --bucket prod

# Bucket prefix is stripped for env vars
secret-agent exec --env prod/API_KEY node app.js  # env var = API_KEY
```

### Write secrets to files
```bash
# Append NAME=value to .env file
secret-agent inject DB_PASS --file .env --env-format

# Append export NAME=""value"" for shell scripts
secret-agent inject DB_PASS --file env.sh --env-format --export

# Replace a placeholder string in any file
secret-agent inject API_KEY --file config.json --placeholder __API_KEY__
```

### Bulk .env import/export
```bash
# Import all vars from a .env file into the vault
secret-agent env import --file .env.local

# Export specific secrets to .env
secret-agent env export --file .env API_KEY DB_PASS

# Export all secrets to .env
secret-agent env export --file .env --all
```

### Copy secret to clipboard (safe for agents)
```bash
# Agent can put a secret in the user's clipboard without ever seeing the value
secret-agent get API_KEY --clipboard

# Works on macOS (pbcopy) and Linux (X11/Wayland)
```

### Debug (not for agent use)
```bash
# Display a secret value (requires explicit safety flag)
secret-agent get API_KEY --unsafe-display
```

### Global flags
- `-q, --quiet` â€” Suppress informational output (for scripting)

### Avoiding Keychain Prompts

If macOS keychain prompts block automation, set:
```bash
export SECRET_AGENT_USE_FILE=1
```
This uses `~/.secret-agent/master.key` instead of the system keychain.
"

  /** What the file system lets `run` do. */
  datatype Host = Host(
    /** `dirs::home_dir()` is known. */
    homeKnown: bool,
    /** `create_dir_all(~/.claude)` succeeds. */
    dirCreatable: bool,
    /** An existing file reads as UTF-8 text. */
    readable: bool,
    /** Opening the file for appending and writing to it succeed. */
    writable: bool)

  /** The context `run` attaches to each failure. */
  datatype SetupError = NoHomeDirectory | CreateDirFailed | ReadFailed | WriteFailed

  datatype RunResult = Finished | Failed(error: SetupError)

  /** The contents of a file that holds the marker heading. */
  predicate HasMarker(contents: Option<string>) {
    contents.Some? && Contains(contents.value, Marker)
  }

  /** The file after the instructions are appended with a separating
      newline; a missing file counts as empty. */
  function Appended(contents: Option<string>): (r: string)
    ensures |r| == |contents.GetOr("")| + 1 + |Instructions|
  {
    contents.GetOr("") + "\n" + Instructions
  }

  /** The step at which `run` stops, in its order: print mode, the home
      directory, `~/.claude`, reading an existing file, the marker, the
      write. */
  function RunSpec(printOnly: bool, host: Host, contents: Option<string>): RunResult {
    if printOnly then Finished
    else if !host.homeKnown then Failed(NoHomeDirectory)
    else if !host.dirCreatable then Failed(CreateDirFailed)
    else if contents.Some? && !host.readable then Failed(ReadFailed)
    else if HasMarker(contents) then Finished
    else if !host.writable then Failed(WriteFailed)
    else Finished
  }

  /** The file after `run`: only a successful append changes it. */
  function AfterRun(printOnly: bool, host: Host, contents: Option<string>): Option<string> {
    if !printOnly && host.homeKnown && host.dirCreatable && (contents.None? || host.readable)
       && !HasMarker(contents) && host.writable
    then Some(Appended(contents))
    else contents
  }

  /** `is_configured`: the file can be found and read and holds the
      marker; any failure answers false. */
  function IsConfigured(host: Host, contents: Option<string>): (b: bool)
    ensures b ==> HasMarker(contents)
    ensures HasMarker(contents) && host.homeKnown && host.readable ==> b
  {
    host.homeKnown && contents.Some? && host.readable && Contains(contents.value, Marker)
  }

  /** `~/.claude/CLAUDE.md`; `None` while the file does not exist. */
  class ClaudeMd {
    var contents: Option<string>

    constructor(initial: Option<string>)
      ensures contents == initial
    {
      contents := initial;
    }

    /** `run(printOnly, quiet)`. It returns what it prints on standard output;
        `quiet` only silences messages on standard error. */
    method Run(printOnly: bool, quiet: bool, host: Host) returns (r: RunResult, stdout: string)
      modifies this
      ensures r == RunSpec(printOnly, host, old(contents))
      ensures contents == AfterRun(printOnly, host, old(contents))
      ensures stdout == if printOnly then Instructions else ""
    {
      if printOnly {
        return Finished, Instructions;
      }
      stdout := "";
      if !host.homeKnown {
        return Failed(NoHomeDirectory), stdout;
      }
      if !host.dirCreatable {
        return Failed(CreateDirFailed), stdout;
      }
      if contents.Some? {
        if !host.readable {
          return Failed(ReadFailed), stdout;
        }
        if Contains(contents.value, Marker) {
          return Finished, stdout;
        }
      }
      if !host.writable {
        return Failed(WriteFailed), stdout;
      }
      contents := Some(Appended(contents));
      r := Finished;
    }
  }

  /** `CLAUDE_INSTRUCTIONS` opens with the marker heading. */
  lemma InstructionsStartWithMarker()
    ensures StartsWith(Instructions, Marker)
  {
    assert Instructions[..|Marker|] == Marker;
  }

  /** After the instructions are appended, the file holds the marker. */
  lemma AppendedHasMarker(contents: Option<string>)
    ensures Contains(Appended(contents), Marker)
  {
    Regroup(contents.GetOr("") + "\n", Marker, InstructionsBody);
    ContainsMiddle(contents.GetOr("") + "\n", Marker, InstructionsBody);
  }

  /** Existing contents stay, unchanged, at the front of the file. */
  lemma AppendedKeepsContents(contents: Option<string>)
    ensures StartsWith(Appended(contents), contents.GetOr(""))
  {
    var c := contents.GetOr("");
    assert Appended(contents)[..|c|] == c;
  }

  /** A file that already holds the marker is left as it is. */
  lemma MarkedFileUntouched(printOnly: bool, host: Host, contents: Option<string>)
    requires HasMarker(contents)
    ensures AfterRun(printOnly, host, contents) == contents
    ensures RunSpec(printOnly, host, contents).Failed? ==>
      RunSpec(printOnly, host, contents).error in {NoHomeDirectory, CreateDirFailed, ReadFailed}
  {
  }

  /** A run that writes leaves the old contents as a prefix and the marker
      in the file. */
  lemma RunAppends(host: Host, contents: Option<string>)
    requires AfterRun(false, host, contents) != contents
    ensures AfterRun(false, host, contents) == Some(Appended(contents))
    ensures StartsWith(AfterRun(false, host, contents).value, contents.GetOr(""))
    ensures HasMarker(AfterRun(false, host, contents))
  {
    AppendedKeepsContents(contents);
    AppendedHasMarker(contents);
  }

  /** Running twice gives the file of running once. */
  lemma RunIdempotent(host: Host, contents: Option<string>)
    ensures AfterRun(false, host, AfterRun(false, host, contents)) == AfterRun(false, host, contents)
  {
    var once := AfterRun(false, host, contents);
    if once != contents {
      AppendedHasMarker(contents);
      assert HasMarker(once);
    }
  }

  /** A run that finishes without printing leaves setup done, as far as
      `is_configured` can read the file. */
  lemma ConfiguredAfterRun(host: Host, contents: Option<string>)
    requires RunSpec(false, host, contents) == Finished && host.readable
    ensures IsConfigured(host, AfterRun(false, host, contents))
  {
    if !HasMarker(contents) {
      AppendedHasMarker(contents);
    }
  }

  /** Print mode writes nothing and always succeeds. */
  lemma PrintWritesNothing(host: Host, contents: Option<string>)
    ensures AfterRun(true, host, contents) == contents
    ensures RunSpec(true, host, contents) == Finished
  {
  }
}
