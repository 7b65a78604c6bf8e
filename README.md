# secret-agent, modelled in Dafny

secret-agent is a command-line vault for API keys and passwords. Secrets live in a
SQLite table, encrypted with a master key taken from the system keychain. The
commands are designed so that an AI coding agent can use a secret without ever
seeing its value.

- `exec` replaces `{{NAME}}` placeholders in a shell command with secret values.
  It then redacts those values, and their base64 and URL-encoded forms, from the
  command's output.
- `inject` writes a secret into a file, either at a placeholder or as a `NAME=value`
  line.
- `env export` and `env import` move secrets to and from `.env` files.
- `setup` appends usage instructions to `~/.claude/CLAUDE.md` once.
- `generate` produces random secrets from a chosen character set.

This project models those parts as Dafny modules, one per source file:

| module | source | form |
|---|---|---|
| `Errors` | `src/error.rs` | error variants, `Result`, `Option`, and `Outcome` (a value or a panic) |
| `Text` | Rust `str` operations used by the core | `replace`, `trim`, `lines`, `split_once`, `join` as functions |
| `Crypto` | `src/crypto.rs` | symbolic `age` encryption: only the right passphrase opens a ciphertext |
| `Encoding` | the encoders behind `src/sanitize.rs` | UTF-8, standard and URL-safe base64, percent-encoding, with round trips |
| `Vault` | `src/vault.rs` | the store as `class Vault` over a `SecretsDb` whose `secrets` map the methods update; name validation, listing order, schema version |
| `Sanitize` | `src/sanitize.rs` | the redaction loop as a method proved against a function |
| `Exec` | `src/commands/exec.rs` | placeholder scanning for `\{\{(\w+)\}\}`, de-duplication, injection, `run` |
| `Env` | `src/commands/env.rs` | quoting, unquoting, `.env` line parsing, export, and import loops |
| `Inject` | `src/commands/inject.rs` | placeholder and `.env` injection, and `run`'s mode selection |
| `SecretGen` | `src/secret_gen.rs` | charsets, `from_str`, and `generate` over the random indices |
| `Keychain` | `src/keychain.rs` | how the master key is chosen from the keychain, the environment, or a prompt |
| `Setup` | `src/commands/setup.rs` | `class ClaudeMd` holding the instructions file; `run` and `is_configured` |

The outside world is passed in as values. This covers the SQLite rows (a map from
name to row), the clock (`now`), the keychain's and the prompt's answers, the random
generator's indices, the child process's output, and the file system's success or
failure. Each loop in the source is a Dafny `method` with a `while` loop. The method
is proved equal to a recursive function, and the properties are proved as lemmas
about that function.

## Model

| member | source | states |
|---|---|---|
| Crypto.Encrypt | src/crypto.rs:6-23 | encryption always succeeds and seals the plaintext under the given passphrase |
| Crypto.Decrypt | src/crypto.rs:26-43 | decryption succeeds exactly when the passphrase is the one the data was sealed with; otherwise it is a `Decryption` error |
| Crypto.RoundTrip | src/crypto.rs:50-59 | decrypting with the same passphrase gives back the plaintext (this includes the empty plaintext of lines 74-81) |
| Crypto.WrongPassphraseFails | src/crypto.rs:62-71 | any other passphrase fails to decrypt |
| Text.ReplaceAbsent | src/sanitize.rs:14 | `replace` leaves a text without the pattern unchanged |
| Text.ReplaceAfter | src/sanitize.rs:14 | `replace` rewrites the first occurrence, then continues after it |
| Text.SplitOnce | src/commands/env.rs:102 | `split_once` fails exactly when the character is absent; otherwise it splits at the first occurrence |
| Text.TrimStart | src/commands/env.rs:103-104 | removes exactly the leading run of Unicode whitespace |
| Text.TrimEnd | src/commands/env.rs:103-104 | removes exactly the trailing run of Unicode whitespace |
| Text.TrimIsTrimmed | src/commands/env.rs:115 | trimmed text starts and ends with non-whitespace, so trimming again changes nothing |
| Text.Lines | src/commands/env.rs:51 | `str::lines` splits into pieces that contain no line feed |
| Encoding.Utf8 | src/sanitize.rs:17 | UTF-8 encoding uses 1 to 4 bytes per character |
| Encoding.Utf8Char | src/sanitize.rs:17 | a character takes one byte iff it is ASCII; bytes of longer encodings are all at least 0x80 |
| Encoding.Utf8Concat | src/sanitize.rs:17 | UTF-8 encoding distributes over concatenation |
| Encoding.Base64Encode | src/sanitize.rs:17 | padded base64 output has length 4·⌈n/3⌉ |
| Encoding.DigitValue | src/sanitize.rs:17-23 | each 6-bit value's digit decodes back to that value, in both alphabets |
| Encoding.RoundTripOne | src/sanitize.rs:17 | a one-byte tail (`xx==`) decodes back to its byte |
| Encoding.RoundTripTwo | src/sanitize.rs:17 | a two-byte tail (`xxx=`) decodes back to its bytes |
| Encoding.DecodeGroup | src/sanitize.rs:17 | a full four-digit group decodes to three bytes ahead of the rest |
| Encoding.EncodeGroup | src/sanitize.rs:17 | three bytes encode as four digits ahead of the rest |
| Encoding.DecodeEncodedGroup | src/sanitize.rs:17 | decoding an encoded group gives the first three bytes back ahead of the rest |
| Encoding.RoundTripGroup | src/sanitize.rs:17 | a full group round-trips when the remaining bytes do |
| Encoding.Base64RoundTrip | src/sanitize.rs:17-23 | base64 decoding inverts encoding, for every byte string and both alphabets |
| Encoding.Base64NonEmpty | src/sanitize.rs:17-25 | the encoding is empty exactly for the empty input, so the `is_empty` guards only skip empty values |
| Encoding.UrlSafeText | src/sanitize.rs:23 | the URL-safe text has the same length and translates each character |
| Encoding.UrlSafeIsTranslation | src/sanitize.rs:23 | URL-safe base64 is standard base64 with `+` written as `-` and `/` written as `_` |
| Encoding.UrlSafeDiffers | src/sanitize.rs:24 | the two encodings differ exactly when the standard one contains `+` or `/` |
| Encoding.PercentByte | src/sanitize.rs:29 | a byte stays as itself iff it is an unreserved ASCII character; otherwise it becomes `%XX` |
| Encoding.PercentEncodeBytes | src/sanitize.rs:29 | percent-encoding takes between 1 and 3 characters per byte |
| Encoding.PercentRoundTrip | src/sanitize.rs:29 | percent-decoding inverts percent-encoding |
| Encoding.PercentConcat | src/sanitize.rs:29 | percent-encoding distributes over concatenation |
| Encoding.PercentChar | src/sanitize.rs:29 | an unreserved character encodes as itself, and any other character grows to at least 3 characters |
| Encoding.PercentLength | src/sanitize.rs:29-30 | the encoding is never shorter than the input, and is at least 2 longer when some character is reserved |
| Encoding.PercentIdentity | src/sanitize.rs:30 | the encoding equals the input iff every character is unreserved, which is when the urlencoded pass is skipped |
| Encoding.UnreservedUnchanged | src/sanitize.rs:30 | text of unreserved characters encodes as itself |
| Sanitize.RedactSecret | src/sanitize.rs:9-11 | an empty value leaves the text unchanged |
| Sanitize.SearchedForms | src/sanitize.rs:9-32 | a non-empty value is searched for raw and in base64; an empty value is not searched for at all |
| Sanitize.Sanitize | src/sanitize.rs:5-36 | the loop over the secrets computes the redaction of every secret in turn |
| Sanitize.SanitizeBytes | src/sanitize.rs:39-42 | decoded output is redacted like text |
| Sanitize.EncodedForms | src/sanitize.rs:17-32 | both base64 forms of a non-empty value are non-empty; the URL-safe pass runs iff the standard form has `+` or `/`; the urlencoded pass runs iff some character is reserved |
| Sanitize.UntouchedBySecret | src/sanitize.rs:14-32 | output containing none of a secret's forms passes through unchanged |
| Sanitize.Untouched | src/sanitize.rs:8-35 | output containing no form of any secret passes through unchanged |
| Sanitize.NonEmptySecrets | src/sanitize.rs:9-11 | keeps exactly the secrets with non-empty values |
| Sanitize.EmptyValuesSkipped | src/sanitize.rs:9-11 | dropping the empty-valued secrets does not change the result |
| Sanitize.TwoSecrets | src/sanitize.rs:8 | two secrets are redacted one after the other, in map order |
| Sanitize.RawFormOnly | src/sanitize.rs:14-32 | for an unreserved value whose base64 forms share a character absent after the raw pass, only the raw replacement has any effect |
| Sanitize.SecretBetween | src/sanitize.rs:14 | a value that occurs once between unrelated text becomes `[REDACTED:NAME]` |
| Sanitize.ApiKeyBetween | src/sanitize.rs:14 | `sk-12345` between text without `5` or `z` becomes `[REDACTED:API_KEY]` |
| Sanitize.PasswordAbsent | src/sanitize.rs:14-32 | text without `u` or `V` is untouched by the secret `hunter2` |
| Sanitize.DirectMatchExample | src/sanitize.rs:56-70 | `Connecting with token sk-12345...` becomes `Connecting with token [REDACTED:API_KEY]...` |
| Sanitize.DirectMatchPassword | src/sanitize.rs:56-70 | the second secret of that test leaves the redacted line as it is |
| Sanitize.ReplaceOnly | src/sanitize.rs:14-30 | a pattern standing once between texts where it does not otherwise occur is replaced there and nowhere else |
| Sanitize.Base64Between | src/sanitize.rs:17-20 | a value's standard base64 form standing once between unrelated text becomes `[REDACTED:NAME:base64]` |
| Sanitize.Base64UrlBetween | src/sanitize.rs:22-26 | a URL-safe form that differs from the standard one, standing once between unrelated text, becomes `[REDACTED:NAME:base64url]` |
| Sanitize.UrlEncodedBetween | src/sanitize.rs:28-31 | a percent-encoding that differs from the value, standing once between unrelated text, becomes `[REDACTED:NAME:urlencoded]` |
| Sanitize.OneSecret | src/sanitize.rs:8-35 | with one secret, the result is that secret's passes |
| Sanitize.ReplaceTwice | src/sanitize.rs:14 | both occurrences of a value are replaced, and the text around them is kept |
| Sanitize.ApiKeyTwice | src/sanitize.rs:14-32 | both occurrences of `sk-12345` become `[REDACTED:API_KEY]` |
| Sanitize.MultipleOccurrencesExample | src/sanitize.rs:63-70 | `key=sk-12345, again: sk-12345` becomes `key=[REDACTED:API_KEY], again: [REDACTED:API_KEY]`, whichever secret the map hands out first |
| Sanitize.MultipleSecretsExample | src/sanitize.rs:73-78 | `user:hunter2 key:sk-12345` becomes `user:[REDACTED:PASSWORD] key:[REDACTED:API_KEY]` in either order, so both tags are present |
| Sanitize.HelloBase64 | src/sanitize.rs:87 | `hello` has the same standard and URL-safe encoding, `aGVsbG8=` |
| Sanitize.SanitizeBase64Example | src/sanitize.rs:81-91 | `encoded: aGVsbG8=` with the secret `hello` becomes `encoded: [REDACTED:SECRET:base64]` |
| Sanitize.HelloWorldUrlEncoded | src/sanitize.rs:100 | `hello world` percent-encodes as `hello%20world` |
| Sanitize.SanitizeUrlEncodedExample | src/sanitize.rs:94-104 | `param=hello%20world` with the secret `hello world` becomes `param=[REDACTED:SECRET:urlencoded]` |
| Vault.ValidateName | src/vault.rs:229-254 | accepts exactly `[A-Za-z_][A-Za-z0-9_-]*`; every rejection is `InvalidSecretName`, and the empty name gets its own message |
| Vault.IdentifierTailChars | src/vault.rs:235-237 | the recursive grammar's tail is exactly the names made of name characters |
| Vault.IdentifierChars | src/vault.rs:235-251 | a non-empty name is valid iff it starts with a letter or `_` and uses only name characters |
| Vault.SlashNamesRejected | src/vault.rs:235-242 | any name containing `/` is refused with the character message |
| Vault.AcceptedByCharacters | src/vault.rs:229-254 | a proper start followed by proper characters is accepted |
| Vault.RejectedByCharacter | src/vault.rs:235-242 | a bad character anywhere is reported first, before any bad start |
| Vault.RejectedByStart | src/vault.rs:245-250 | a name of legal characters that starts with a digit or `-` gets the start message |
| Vault.ValidNameUpper | src/vault.rs:326 | `VALID_NAME` is accepted |
| Vault.ValidNameHyphen | src/vault.rs:327 | `valid-name` is accepted |
| Vault.ValidNameUnderscore | src/vault.rs:328 | `_private` is accepted |
| Vault.EmptyNameRejected | src/vault.rs:329 | the empty name is refused with `name cannot be empty` |
| Vault.DigitStartRejected | src/vault.rs:330 | `123invalid` is refused for its first character |
| Vault.SpaceRejected | src/vault.rs:331 | `has spaces` is refused for its characters |
| Vault.SchemaVersionAfter | src/vault.rs:183-211 | afterwards the version is at least the current one and never lower than the stored one; a newer stored version is kept |
| Vault.SchemaVersionIdempotent | src/vault.rs:183-211 | initialising the schema version a second time changes nothing |
| Vault.FirstUnreadable | src/commands/exec.rs:22-32 | every name before the returned index reads, and the one at the index does not |
| Vault.FirstUnreadableAt | src/commands/exec.rs:22-32 | the first failing name is the one the loop stops at |
| Vault.ReadAll | src/commands/exec.rs:22-32 | pairs each name with the value `get` returns for it |
| Vault.CreateValidatesFirst | src/vault.rs:75 | an invalid name fails with `InvalidSecretName` and the table is not touched |
| Vault.CreateExisting | src/vault.rs:78-83 | on an existing name, `create` fails with `SecretAlreadyExists` and changes nothing, while `create_or_update` is `update` |
| Vault.CreateThenGet | src/vault.rs:74-94 | a fresh valid name is added with both timestamps `now`, other rows are kept, and `get` returns the value |
| Vault.MissingName | src/vault.rs:97-169 | `get`, `update` and `delete` of a missing name are `SecretNotFound`, and the table is unchanged |
| Vault.UpdateKeepsTheRest | src/vault.rs:166-180 | `update` keeps the set of names and the creation time, sets `updated_at` to `now`, stores the new value, and keeps other rows |
| Vault.DeleteRemovesExactly | src/vault.rs:142-152 | `delete` removes exactly that name and keeps every other row |
| Vault.WritesKeepRowsReadable | src/vault.rs:85-171 | if every row is sealed under the master key, then after any write every row still is, and every row can be read |
| Vault.BelowIrreflexive | src/vault.rs:118 | the `ORDER BY name` order is irreflexive |
| Vault.BelowTransitive | src/vault.rs:118 | the `ORDER BY name` order is transitive |
| Vault.BelowTotal | src/vault.rs:118 | the `ORDER BY name` order is total on distinct names |
| Vault.BelowAsymmetric | src/vault.rs:118 | the `ORDER BY name` order is asymmetric |
| Vault.InsertByName | src/vault.rs:118 | inserting a new name into a sorted listing keeps it sorted and adds exactly that row |
| Vault.SortedListingUnique | src/vault.rs:115-139 | two sorted listings of the same rows are equal, so the listing is determined by the table |
| Vault.SecretsDb.InitSchemaVersion | src/vault.rs:183-211 | sets the stored version as `SchemaVersionAfter` says and leaves the secrets alone |
| Vault.Vault.Open | src/vault.rs:25-62 | the schema version is initialised before the master key is fetched; a key error fails `open`; otherwise a new vault over the connection |
| Vault.Vault.Create | src/vault.rs:65-67 | `create_internal` without `force` |
| Vault.Vault.CreateOrUpdate | src/vault.rs:70-72 | `create_internal` with `force` |
| Vault.Vault.CreateInternal | src/vault.rs:74-94 | the result and new table are those of validation, the existence check, and the insert or update |
| Vault.Vault.Get | src/vault.rs:97-112 | a missing name is `SecretNotFound`; success implies the row exists and decrypts |
| Vault.Vault.List | src/vault.rs:115-139 | lists every row's metadata exactly once, sorted by name |
| Vault.Vault.Delete | src/vault.rs:142-152 | the result and new table are those of `DeleteStep` |
| Vault.Vault.Exists | src/vault.rs:155-163 | true iff a row with that name exists |
| Vault.Vault.Update | src/vault.rs:166-180 | the result and new table are those of `UpdateStep` |
| Vault.SecretsDb.constructor | src/vault.rs:33-53 | a connection over the given rows and stored version |
| Vault.Vault.Connect | src/vault.rs:61 | a vault holding the connection and the master key |
| Exec.WordRun | src/commands/exec.rs:42 | the longest prefix of `\w` characters |
| Exec.MatchAt | src/commands/exec.rs:42 | a match at a position is a word whose `{{word}}` starts there |
| Exec.ScanSound | src/commands/exec.rs:42-47 | every captured name is a word whose placeholder occurs in the command |
| Exec.MatchOfPlaceholder | src/commands/exec.rs:42 | a placeholder at the start is matched with its own name |
| Exec.WordRunOfWord | src/commands/exec.rs:42 | the regex's greedy `\w+` stops exactly at the end of the name |
| Exec.NoOverlap | src/commands/exec.rs:44-46 | no other match starts inside a match, as with `captures_iter` |
| Exec.ScanComplete | src/commands/exec.rs:42-47 | every `{{word}}` in the command is captured |
| Exec.ScanWithoutBrace | src/commands/exec.rs:42-47 | text without `{` has no captures |
| Exec.ScanSkip | src/commands/exec.rs:44-46 | a brace-free prefix contributes no captures |
| Exec.ScanPlaceholder | src/commands/exec.rs:44-46 | a leading placeholder is captured and the scan continues after it |
| Exec.FirstIndex | src/commands/exec.rs:49-54 | the first position of a name in the captures |
| Exec.Dedup | src/commands/exec.rs:49-54 | keeps each unseen name exactly once, with no repeats |
| Exec.DedupOrder | src/commands/exec.rs:49-54 | the kept names are in order of first appearance |
| Exec.ParseSpec | src/commands/exec.rs:41-57 | the result has no duplicates, contains exactly the placeholder names that occur, and is in first-appearance order |
| Exec.NoBraceNoPlaceholder | src/commands/exec.rs:41-57 | a command without `{` has no placeholders |
| Exec.ScanTextThenPlaceholder | src/commands/exec.rs:44-46 | brace-free text then a placeholder yields that name first |
| Exec.ScanTwo | src/commands/exec.rs:44-46 | two placeholders in brace-free text are captured in order |
| Exec.TwoPlaceholders | src/commands/exec.rs:41-57 | two different placeholders are returned in order |
| Exec.DedupTwo | src/commands/exec.rs:49-54 | two different names are both kept, in order |
| Exec.ScanRepeated | src/commands/exec.rs:44-46 | a repeated placeholder is captured each time |
| Exec.RepeatedPlaceholder | src/commands/exec.rs:41-57 | a repeated placeholder appears once in the result |
| Exec.ParseExample | src/commands/exec.rs:97-102 | the `curl` command yields `API_KEY`, `DATA` |
| Exec.DedupExample | src/commands/exec.rs:104-109 | `echo {{SECRET}} {{SECRET}} {{OTHER}}` yields `SECRET`, `OTHER` |
| Exec.NoPlaceholderExample | src/commands/exec.rs:111-116 | a command without braces yields no names |
| Exec.InjectSecrets | src/commands/exec.rs:59-68 | the loop replaces each secret's placeholder in turn |
| Exec.InjectOne | src/commands/exec.rs:59-68 | with one secret, the result is a replace-all of its placeholder |
| Exec.InjectAbsent | src/commands/exec.rs:59-68 | a command with none of the placeholders is left as it is |
| Exec.ExitCode | src/commands/exec.rs:90 | the child's exit code, or 1 when it has none |
| Exec.OrderReadable | src/commands/exec.rs:21-31 | every name of the map's iteration order is a placeholder name, and it reads when every placeholder name does |
| Exec.Permutation | src/commands/exec.rs:21-31 | an iteration order of the map's keys has as many entries as there are names, holds only those names, and holds each of them |
| Exec.InMapOrder | src/commands/exec.rs:60-67 | lists each name of the order with its value from the map |
| Exec.Run | src/commands/exec.rs:9-39 | a vault error stops the run; otherwise, for any iteration order of the map, the result of `RunSpec` |
| Exec.OrderedValues | src/commands/exec.rs:21-38 | the map of looked-up values, listed in the iteration order, is what the vault reads for that order |
| Exec.NoPlaceholdersRunsAsIs | src/commands/exec.rs:15-18 | a command without placeholders runs unchanged, with nothing to redact |
| Exec.MissingSecretStopsRun | src/commands/exec.rs:21-32 | if a placeholder names a missing secret, nothing is run, whatever the iteration order |
| Exec.RanWithExactlyThePlaceholders | src/commands/exec.rs:20-38 | for any iteration order, a run fetched exactly the placeholder names, each once with its vault value, and ran the injected command; both output streams are redacted with those secrets in the same order, and the exit code is the child's |
| Env.EscapeChar | src/commands/env.rs:143-147 | exactly `\`, `"`, `$` and line feed are escaped, and no escape contains a line feed |
| Env.Escape | src/commands/env.rs:143-147 | escaping at most doubles the length and removes every line feed |
| Env.QuoteEnvValue | src/commands/env.rs:134-152 | a value with no special character is left as it is; otherwise it is escaped and wrapped in `"`; the result never contains a line feed |
| Env.EscapeChainIsEscape | src/commands/env.rs:143-147 | the four chained `replace` calls equal escaping one character at a time |
| Env.ChainConcat | src/commands/env.rs:143-147 | the chained replacements distribute over concatenation |
| Env.EscapeConcat | src/commands/env.rs:143-147 | escaping distributes over concatenation |
| Env.EscapePlain | src/commands/env.rs:143-147 | text of characters that need no escape escapes as itself |
| Env.QuoteSimple | src/commands/env.rs:191 | `simple` is not quoted |
| Env.QuoteSpace | src/commands/env.rs:192 | `has space` becomes `"has space"` |
| Env.QuoteDollar | src/commands/env.rs:193 | `has$var` becomes `"has\$var"` |
| Env.QuoteOneEscape | src/commands/env.rs:134-152 | a value with one `"` or `$` among plain characters is quoted with just that character escaped |
| Env.UnquoteEnvValue | src/commands/env.rs:114-132 | as written: it panics exactly on a lone quote character, and an unquoted value comes back trimmed |
| Env.UnquoteTrimmed | src/commands/env.rs:118-131 | the same, for input that is already trimmed |
| Env.UnquoteOfTrimmed | src/commands/env.rs:115 | the leading `trim` does nothing to trimmed input |
| Env.UnquoteQuotedValue | src/commands/env.rs:118-128 | a quoted value loses its quotes and goes through the five replacements |
| Env.UnquoteUnquotedValue | src/commands/env.rs:131 | an unquoted value comes back as it is |
| Env.UnquotePlain | src/commands/env.rs:118-128 | a quoted value without `\` comes back without its quotes |
| Env.UnescapeWithoutBackslash | src/commands/env.rs:123-128 | the replacements do nothing to text without `\` |
| Env.UnescapeOne | src/commands/env.rs:123-128 | one `\n`, `\"`, `\'` or `\$` is turned into its character |
| Env.UnquoteEscaped | src/commands/env.rs:118-128 | a quoted value with one such escape comes back unescaped |
| Env.UnquoteSimple | src/commands/env.rs:182 | `simple` comes back as it is |
| Env.UnquoteDouble | src/commands/env.rs:183 | `"quoted"` gives `quoted` |
| Env.UnquoteSingle | src/commands/env.rs:184 | `'single'` gives `single` |
| Env.UnquoteNewline | src/commands/env.rs:185 | `"with\nnewline"` gives a real line feed |
| Env.UnquoteQuote | src/commands/env.rs:186 | `"with\"quote"` gives `with"quote` |
| Env.QuoteNotUndone | src/commands/env.rs:114-152 | as written, unquoting the quoted form of space, backslash, `n` gives space, backslash, line feed: the value is not recovered |
| Env.ChainOnDoubledBackslash | src/commands/env.rs:123-128 | the replacement chain reads `\\n` as a backslash then a line feed |
| Env.Unescape | src/commands/env.rs:123-128 | corrected: a single left-to-right pass over the escapes; the result is never longer than its input |
| Env.UnescapeEscape | src/commands/env.rs:134-152 | corrected unescaping inverts the escaping that quoting applies |
| Env.UnescapePlain | src/commands/env.rs:123-128 | text without `\` is unchanged by the corrected unescape |
| Env.UnquoteValue | src/commands/env.rs:114-132 | corrected: panics on the same inputs as the original and returns unquoted values trimmed, as before |
| Env.UnquoteTrimmedValue | src/commands/env.rs:118-131 | the corrected version, for input that is already trimmed |
| Env.UnquoteValueOfTrimmed | src/commands/env.rs:115 | the leading `trim` does nothing to trimmed input |
| Env.UnquoteValueField | src/commands/env.rs:104 | trimming the field before unquoting changes nothing |
| Env.QuoteThenUnquote | src/commands/env.rs:114-152 | corrected: unquoting a quoted value gives the value back, or its trimmed form when it was written without quotes |
| Env.UnquoteAgreesWithoutBackslash | src/commands/env.rs:114-132 | on values without `\`, the corrected version agrees with the code as written |
| Env.StripExport | src/commands/env.rs:100 | an `export ` prefix is removed, and any other line is kept |
| Env.SplitAssignment | src/commands/env.rs:100-104 | a line without `=` gives nothing; otherwise a trimmed name and a trimmed field from a line with `=` |
| Env.Accept | src/commands/env.rs:104-111 | a panic of the unquoting passes through; a value is returned exactly when the name is valid, paired with that name |
| Env.ParseEnvLine | src/commands/env.rs:98-112 | as written, with `unquote_env_value`'s chain of replacements: a line without `=` gives nothing, and any name returned is a valid name taken from a line with `=` |
| Env.ParseEnvLineCorrected | src/commands/env.rs:98-112 | the same parser with the corrected unquoting, with the same guarantees |
| Env.ParsersAgreeWithoutBackslash | src/commands/env.rs:98-132 | on a line without `\`, the parser as written and the corrected one give the same result |
| Env.SplitField | src/commands/env.rs:100-104 | `NAME=field` splits into the name and the trimmed field |
| Env.ParseAssignment | src/commands/env.rs:98-112 | `NAME=value` with a plain value parses to that pair |
| Env.ParseExportPrefix | src/commands/env.rs:100 | an `export ` prefix does not change what the rest parses to |
| Env.ParseExportedAssignment | src/commands/env.rs:98-112 | `export NAME=value` parses like `NAME=value` |
| Env.ParseQuotedValue | src/commands/env.rs:98-112 | `NAME="inner"` without backslashes gives `inner` |
| Env.ParseField | src/commands/env.rs:98-112 | the value is the field after the first `=`, unquoted as written |
| Env.ParseFieldCorrected | src/commands/env.rs:98-112 | with the corrected parser, the value is the field unquoted by the corrected unquoting |
| Env.EnvNameWord | src/commands/env.rs:107 | upper-case letters and `_` form a valid name |
| Env.ParsePlain | src/commands/env.rs:160-163 | `API_KEY=sk-12345` gives that pair |
| Env.ParseExported | src/commands/env.rs:165-168 | `export DB_PASS=hunter2` gives that pair |
| Env.ParseQuoted | src/commands/env.rs:170-173 | `QUOTED="hello world"` gives `hello world` |
| Env.ParseNoAssignment | src/commands/env.rs:175-177 | a comment, the empty line and `invalid line` give nothing |
| Env.ExportLineReadsBack | src/commands/env.rs:25-32 | corrected: an exported line parses back to its name and value, trimmed when it was not quoted |
| Env.ExportLineReadsBackUnescaped | src/commands/env.rs:25-32 | as written: the same holds for every value none of whose characters needs an escape |
| Env.ExportLineParsed | src/commands/env.rs:25-32 | as written, an exported line reads back as its name and whatever `unquote_env_value` makes of the quoted value |
| Env.ExportLineNotReadBack | src/commands/env.rs:98-152 | as written: the exported line `A=" \\n"` of space, backslash, `n` is read back as space, backslash, line feed |
| Env.Export | src/commands/env.rs:6-40 | exports the given names, or every name sorted when `all`; the result is that of `ExportSpec` |
| Env.ListNames | src/commands/env.rs:9-10 | with `all`, the names are every stored name, once each, in the sorted order `list` returns |
| Env.WriteLines | src/commands/env.rs:15-32 | no names means nothing to export; otherwise the first unreadable name stops the export with its error, and when all read the file is the lines joined and ended by a newline |
| Env.ReadEach | src/commands/env.rs:25-30 | the loop stops at the first name that cannot be read, with its error; when every name reads, the lines are one assignment per name, in order |
| Env.LinesOfExport | src/commands/env.rs:32 | the exported file splits back into exactly the lines written |
| Text.JoinEnded | src/commands/env.rs:32 | joining with line feeds and ending the file peels off line by line |
| Text.LinesCons | src/commands/env.rs:51 | `lines` returns a line up to its line feed, then the rest |
| Text.LinesOfLine | src/commands/env.rs:51 | one line ended by a line feed reads back as exactly that line |
| Env.ImportLine | src/commands/env.rs:52-71 | a name reported present is in the table; a created name was new, and only it is added, readable, with the other rows kept |
| Env.Prepend | src/commands/env.rs:48-49 | adds names to the imported and skipped lists, and passes a failure through |
| Env.PrependNothing | src/commands/env.rs:48-49 | prepending nothing changes nothing |
| Env.PrependTwice | src/commands/env.rs:48-49 | two prepends are one prepend of the joined lists |
| Env.ImportLines | src/commands/env.rs:51-72 | import only adds rows and never changes existing ones; every added name is reported imported; skipped names were already present or imported |
| Env.Import | src/commands/env.rs:42-96 | the loop over the file's lines gives `ImportLines`'s result and table |
| Env.ImportOne | src/commands/env.rs:52-71 | one line's outcome; the table changes only when a secret is created |
| Env.ImportPair | src/commands/env.rs:62-70 | a stored name is skipped and nothing changes; otherwise the outcome and the new table are those of `create` |
| Env.ImportStepIgnored | src/commands/env.rs:55-57 | an empty line, a comment or an unparsable line is passed over |
| Env.ImportStepStops | src/commands/env.rs:67-69 | a failed create or a panic stops the import with the table as it stood before that line |
| Env.ImportStepPresent | src/commands/env.rs:62-65 | an existing name is skipped and the import continues |
| Env.ImportStepCreated | src/commands/env.rs:67-70 | a new name is created, recorded, and the import continues on the new table |
| Env.ImportRefusedName | src/commands/env.rs:67-69 | `9KEY=value` parses, but importing it fails on the vault's name rule |
| Env.ImportFailingLine | src/commands/env.rs:67-69 | a single failing line fails the whole import and adds nothing |
| Env.ImportParsedLine | src/commands/env.rs:60-69 | a parsed new name whose create fails is reported with the vault's error |
| Inject.InjectPlaceholder | src/commands/inject.rs:34-52 | fails exactly when the file does not contain the placeholder, and names it; otherwise every occurrence is replaced |
| Inject.InjectPlaceholderOnce | src/commands/inject.rs:46 | a single occurrence is replaced by the value and the rest is kept |
| Inject.InjectPlaceholderExample | src/commands/inject.rs:124-132 | `password={{DB_PASS}}` becomes `password=secret123` |
| Inject.EnvLines | src/commands/inject.rs:67-80 | every line assigning the name is replaced by the new assignment, other lines are kept, and the assignment is appended iff no line assigned it |
| Inject.Rewritten | src/commands/inject.rs:67-75 | the rewrite keeps the number of lines |
| Inject.EnvFormat | src/commands/inject.rs:82-87 | the written file always ends with a line feed |
| Inject.InjectEnvFormat | src/commands/inject.rs:54-93 | the loop computes `EnvFormat` of the existing file, or of the empty text when there is none |
| Inject.RewriteLines | src/commands/inject.rs:67-75 | every line that assigns the name becomes the new assignment and every other line stays; `found` holds exactly when some line assigned the name |
| Inject.EnvFormatEmpty | src/commands/inject.rs:55-60 | an empty or missing file gets just the assignment line |
| Inject.EnvFormatNewFile | src/commands/inject.rs:135-143 | a new file holds exactly `API_KEY=sk-12345` and a line feed |
| Inject.EnvFormatReplaces | src/commands/inject.rs:67-75 | an assigning first line is replaced and the second line kept |
| Inject.EnvFormatAppends | src/commands/inject.rs:77-80 | a file without the name gets the assignment added after its last line |
| Inject.EnvFormatExistingVar | src/commands/inject.rs:146-157 | `API_KEY=old-value` is replaced by `API_KEY=new-value` and `OTHER=keep` stays |
| Inject.OldValueGone | src/commands/inject.rs:156 | the old value no longer occurs in the file |
| Inject.EnvFormatAppendExample | src/commands/inject.rs:160-169 | `EXISTING=value` is kept and `NEW_KEY=new-value` is added |
| Inject.AppendsAsIs | src/commands/inject.rs:77-80 | a value that needs no quoting is appended as `NAME=value` |
| Inject.PlainValue | src/commands/inject.rs:96-115 | letters, digits and `-` need no quoting |
| Inject.Run | src/commands/inject.rs:6-32 | the result is `InjectSpec` of the vault's table |
| Inject.ModeSelection | src/commands/inject.rs:13-26 | a failed `get` is reported first; `--env-format` wins over `--placeholder`; neither is an error |
| Inject.InjectedLineReadsBack | src/commands/inject.rs:70 | corrected: an injected line parses back to its name and value, trimmed when unquoted |
| Inject.InjectedLineReadsBackUnescaped | src/commands/inject.rs:70 | as written: `env import` reads an injected line back the same way when no character of the value needs an escape |
| Inject.QuoteQuote | src/commands/inject.rs:176 | `has"quote` becomes `"has\"quote"` |
| SecretGen.LowerChar | src/secret_gen.rs:16 | lower-cases ASCII capitals and leaves every other character alone |
| SecretGen.Lower | src/secret_gen.rs:16 | lower-cases character by character, keeping the length |
| SecretGen.FromStr | src/secret_gen.rs:15-23 | accepts exactly the four names in any letter case; otherwise the error is `unknown charset: ` and the input |
| SecretGen.FromStrName | src/secret_gen.rs:15-23 | every charset is parsed back from its own name |
| SecretGen.FromStrIgnoresCase | src/secret_gen.rs:16 | spellings that differ only in case parse alike |
| SecretGen.FromStrExamples | src/secret_gen.rs:16-21 | `invalid` is refused, as the test at line 80 checks; `HEX` in upper case gives `Hex`, an example of the lower-casing |
| SecretGen.Alphabet | src/secret_gen.rs:32-37 | every charset's alphabet is non-empty, so `gen_range` has a range |
| SecretGen.Generate | src/secret_gen.rs:31-46 | the secret has the requested length and only characters from the alphabet |
| SecretGen.GenerateReachesAll | src/secret_gen.rs:39-45 | every string over the alphabet can be generated |
| SecretGen.AlphanumericAlphabet | src/secret_gen.rs:26 | every character of `ALPHANUMERIC` is an ASCII letter or digit |
| SecretGen.AlphanumericOutput | src/secret_gen.rs:53-57 | alphanumeric secrets contain only ASCII letters and digits |
| SecretGen.HexOutput | src/secret_gen.rs:60-64 | hex secrets contain only hexadecimal digits |
| SecretGen.PunctuationQuiet | src/secret_gen.rs:27 | the extra printable characters are visible and contain no quote or backslash |
| SecretGen.AsciiOutput | src/secret_gen.rs:27 | printable secrets are visible ASCII without quotes or backslashes |
| SecretGen.Base64Output | src/secret_gen.rs:29 | base64 secrets contain only letters, digits, `+` and `/` |
| Keychain.PromptForPassphrase | src/keychain.rs:49-59 | accepts exactly a non-empty typed passphrase; an empty one is a `Keychain` error and a terminal failure is an `Io` error |
| Keychain.GetOrCreateMasterKey | src/keychain.rs:10-27 | a stored key is used; on a missing entry a new 32-character alphanumeric key is stored, and a store failure is an error; an unavailable keychain falls back to `SECRET_AGENT_PASSPHRASE`, then to the prompt |
| Keychain.NewKeyShape | src/keychain.rs:15 | a generated master key is 32 ASCII letters and digits |
| Keychain.FallbackOnlyOnError | src/keychain.rs:19-25 | the environment and the prompt matter only when the keychain is unavailable |
| Keychain.EmptyKeyNotFromPrompt | src/keychain.rs:54-56 | an empty key can only come from the keychain or the environment variable |
| Keychain.DeleteMasterKey | src/keychain.rs:63-72 | deleting succeeds unless the keychain reports an error, and an entry that is already gone is not an error |
| Setup.Appended | src/commands/setup.rs:176-178 | the appended file is the old contents, a line feed, then the instructions |
| Setup.IsConfigured | src/commands/setup.rs:140-148 | true only if the file holds the marker, and always then when the home directory is known and the file readable |
| Setup.ClaudeMd.constructor | src/commands/setup.rs:134-137 | the instructions file with its initial contents |
| Setup.ClaudeMd.Run | src/commands/setup.rs:150-196 | `--print` writes the instructions to stdout and nothing to the file; otherwise the result and new file are those of `RunSpec` and `AfterRun` |
| Setup.InstructionsStartWithMarker | src/commands/setup.rs:5-7 | the instructions begin with the marker |
| Setup.AppendedHasMarker | src/commands/setup.rs:243-252 | after appending, the file contains the marker |
| Setup.AppendedKeepsContents | src/commands/setup.rs:255-268 | after appending, the file starts with its old contents |
| Setup.MarkedFileUntouched | src/commands/setup.rs:165-174 | a file that already has the marker is never changed, and can only fail before the write |
| Setup.RunAppends | src/commands/setup.rs:176-189 | any change is the append: old contents kept in front, marker present |
| Setup.RunIdempotent | src/commands/setup.rs:271-284 | running setup twice leaves the file as running it once |
| Setup.ConfiguredAfterRun | src/commands/setup.rs:140-196 | a successful run leaves the host configured |
| Setup.PrintWritesNothing | src/commands/setup.rs:151-154 | print mode succeeds and changes nothing |

## Left out

- Character classes are ASCII. Rust's `is_alphanumeric`, `is_alphabetic` and `to_lowercase`, and the regex `\w`, accept all of Unicode; the model accepts ASCII letters, digits and `_` only. `Vault.ValidateName`, `Env.ParseEnvLine`, `Exec.WordRun` and `SecretGen.Lower` are therefore narrower than the source on non-ASCII input.
- Secrets are a sequence of `(name, value)` pairs where the source iterates a `HashMap`. `Exec.Run` takes that iteration order as a parameter, any permutation of the placeholder names, and uses the one order both for injecting and for redacting, as the source does with one unmodified map. The model does not say which order the map picks. The order is observable: a secret whose value holds another placeholder is injected differently in the two orders, and the redaction passes can overlap. The lemmas of `Exec` hold for every order; the `Sanitize` examples are proved for both orders of their two secrets.
- `String::from_utf8_lossy` in `sanitize_bytes` is taken as already applied: `Sanitize.SanitizeBytes` receives the decoded text.
- `age` encryption is symbolic. The model does not cover scrypt key derivation, random nonces, the ciphertext format, or encryption-side errors, which the library does not raise for in-memory writes.
- The UTF-8 check in `get` is folded into `Crypto.Decrypt`. The model only builds ciphertexts from strings, so that check never fails in the model.
- SQLite is a map from name to row. I/O and SQL errors are not modelled (`Database`, `Io`, and the `?` after `exists`, `execute` and `prepare`). Neither are WAL mode, table creation, or the vault path.
- Timestamps are a parameter `now`. One value is used for every row created by a single `import`.
- Vault.Vault.List: RFC 3339 timestamps are stored as values, so `unwrap_or_default` on an unparsable timestamp is not modelled.
- The keychain, the `SECRET_AGENT_PASSPHRASE` variable, the password prompt and the random generator are inputs. The generator is the sequence of indices that `gen_range` returns (`SecretGen.ValidDraws`).
- File reads and writes, stdout and stderr, and exit messages are not modelled. The exception is `Setup.ClaudeMd.Run`'s stdout, which is modelled. The `quiet` flag only affects messages, so it changes nothing in the model.
- Spawning `sh -c` is a function from the command to the child's output or spawn error. The model does not cover the shell itself, signals, or streaming of the output.
- Setup.ClaudeMd.Run: a failed write leaves the file unchanged. The model does not cover a partial append, or an empty file created by the first `open` before the second `open` fails.
- Setup.InstructionsStartWithMarker: the instruction text is held verbatim. Only its marker is proved about; the test that it mentions `SECRET_AGENT_USE_FILE`, `secret-agent exec`, `create` and `import` (src/commands/setup.rs:287-293) is not restated.
- Exec.InjectOne: covers one secret. The two-secret example of `test_inject_secrets` (src/commands/exec.rs:118-128) is not restated as its own lemma.
- Env.QuoteThenUnquote: unquoted values lose surrounding whitespace when read back. `QuoteEnvValue` does not quote a value with a leading tab or a trailing space, so such a value comes back trimmed.
- Command-line parsing and dispatch (`src/cli.rs`, `src/main.rs`) are not modelled. Nor are the thin command files (`create.rs`, `get.rs`, `list.rs`, `delete.rs`, `import.rs`), which only call the vault operations modelled here. Nor are the integration tests.
- Keychain.FallbackOnlyOnError and `Keychain.EmptyKeyNotFromPrompt` follow from the function's definition alone.

## Findings

| source | as written | input that shows it | evidently intended | confidence | as-written member | corrected member |
|---|---|---|---|---|---|---|
| src/commands/env.rs:114-152 | `unquote_env_value` undoes escapes with five chained `replace` calls, and the first of them turns `\n` into a line feed before `\\` is undone. A value holding a backslash followed by `n` is quoted as `\\n` but read back as a backslash and a line feed. | the three characters space, backslash, `n`: `env export` writes `A=" \\n"`, and `env import` reads back space, backslash, line feed | each escape is undone in a single left-to-right pass, so that import gives back what export wrote | not executed | Env.ExportLineNotReadBack | Env.ExportLineReadsBack |

`Env.ParseEnvLine`, and through it `Env.Import`, are modelled as written, with `Env.UnquoteEnvValue`; `Env.QuoteNotUndone` shows the value-level discrepancy and `Env.ExportLineNotReadBack` the same on a whole exported line. The corrected parser is `Env.ParseEnvLineCorrected`, over `Env.UnquoteValue`, and the read-back property `Env.ExportLineReadsBack` is proved about it. `Env.UnquoteAgreesWithoutBackslash` and `Env.ParsersAgreeWithoutBackslash` show that the correction changes nothing on input without a backslash, and `Env.ExportLineReadsBackUnescaped` gives the read-back for the parser as written when the value needs no escape.
