/** Output redaction (src/sanitize.rs): every secret value in a command's
    output is replaced by a `[REDACTED:<name>]` tag, in its raw form and in
    the three encoded forms a program is likely to print it in. */
module Sanitize {
  import opened Text
  import opened Encoding

  /** The secrets to redact, in the order the map hands them out. */
  type Secrets = seq<(string, string)>

  /** `[REDACTED:<name><suffix>]`. */
  function Tag(name: string, suffix: string): string {
    "[REDACTED:" + name + suffix + "]"
  }

  function Base64Form(value: string): string {
    Base64Encode(Utf8(value), false)
  }

  function Base64UrlForm(value: string): string {
    Base64Encode(Utf8(value), true)
  }

  function UrlEncodedForm(value: string): string {
    PercentEncode(value)
  }

  /** The passes the loop body makes for one secret, in order: the raw value,
      its base64 form, its URL-safe base64 form when that differs from the
      standard one, and its percent-encoding when that differs from the raw
      value. An empty value is skipped altogether. */
  function RedactSecret(text: string, name: string, value: string): (r: string)
    ensures value == [] ==> r == text
  {
    if value == [] then text
    else
      var raw := Replace(text, value, Tag(name, ""));
      var std := Base64Form(value);
      var t1 := if std != [] then Replace(raw, std, Tag(name, ":base64")) else raw;
      var url := Base64UrlForm(value);
      var t2 := if url != [] && url != std then Replace(t1, url, Tag(name, ":base64url")) else t1;
      var pct := UrlEncodedForm(value);
      if pct != value then Replace(t2, pct, Tag(name, ":urlencoded")) else t2
  }

  /** The texts the passes for one secret search for. */
  function SearchedForms(value: string): (forms: seq<string>)
    ensures value == [] ==> forms == []
    ensures value != [] ==> value in forms && Base64Form(value) in forms
  {
    if value == [] then []
    else
      var std, url, pct := Base64Form(value), Base64UrlForm(value), UrlEncodedForm(value);
      [value, std]
      + (if url != std then [url] else [])
      + (if pct != value then [pct] else [])
  }

  /** The whole redaction: each secret's passes run on the text the previous
      secrets left. */
  function RedactAll(text: string, secrets: Secrets): string
    decreases |secrets|
  {
    if secrets == [] then text
    else RedactAll(RedactSecret(text, secrets[0].0, secrets[0].1), secrets[1..])
  }

  /** `sanitize`: the loop over the secrets, reassigning `result` pass by
      pass. */
  method Sanitize(output: string, secrets: Secrets) returns (result: string)
    ensures result == RedactAll(output, secrets)
  {
    result := output;
    var i := 0;
    while i < |secrets|
      invariant 0 <= i <= |secrets|
      invariant RedactAll(result, secrets[i..]) == RedactAll(output, secrets)
    {
      assert secrets[i..][1..] == secrets[i + 1..];
      var (name, value) := secrets[i];
      if value == [] {
        i := i + 1;
        continue;
      }
      result := Replace(result, value, Tag(name, ""));
      var std := Base64Form(value);
      if std != [] {
        result := Replace(result, std, Tag(name, ":base64"));
      }
      var url := Base64UrlForm(value);
      if url != [] && url != std {
        result := Replace(result, url, Tag(name, ":base64url"));
      }
      var pct := UrlEncodedForm(value);
      if pct != value {
        result := Replace(result, pct, Tag(name, ":urlencoded"));
      }
      i := i + 1;
    }
  }

  /** `sanitize_bytes`: the output is read as text first; the lossy UTF-8
      decoding is not modelled, so this is `Sanitize` on the decoded text. */
  method SanitizeBytes(decodedOutput: string, secrets: Secrets) returns (result: string)
    ensures result == RedactAll(decodedOutput, secrets)
  {
    result := Sanitize(decodedOutput, secrets);
  }

  /** The base64 guard never skips: a nonempty value has a nonempty base64
      form, and the URL-safe form is searched exactly when the standard one
      holds a `+` or a `/`. */
  lemma EncodedForms(value: string)
    requires value != []
    ensures Base64Form(value) != [] && Base64UrlForm(value) != []
    ensures Base64UrlForm(value) != Base64Form(value)
        <==> '+' in Base64Form(value) || '/' in Base64Form(value)
    ensures UrlEncodedForm(value) != value
        <==> exists i :: 0 <= i < |value| && !IsUnreserved(value[i])
  {
    Base64NonEmpty(Utf8(value), false);
    Base64NonEmpty(Utf8(value), true);
    UrlSafeDiffers(Utf8(value));
    PercentIdentity(value);
  }

  /** A secret none of whose searched forms occurs in the text leaves it
      unchanged. */
  lemma UntouchedBySecret(text: string, name: string, value: string)
    requires forall f | f in SearchedForms(value) :: !Contains(text, f)
    ensures RedactSecret(text, name, value) == text
  {
    if value != [] {
      var std, url, pct := Base64Form(value), Base64UrlForm(value), UrlEncodedForm(value);
      ReplaceAbsent(text, value, Tag(name, ""));
      ReplaceAbsent(text, std, Tag(name, ":base64"));
      if url != std {
        assert url in SearchedForms(value);
        ReplaceAbsent(text, url, Tag(name, ":base64url"));
      }
      if pct != value {
        assert pct in SearchedForms(value);
        ReplaceAbsent(text, pct, Tag(name, ":urlencoded"));
      }
    }
  }

  /** Output holding none of the searched forms of any secret comes back
      unchanged; so does any output when there are no secrets. */
  lemma {:induction false} Untouched(text: string, secrets: Secrets)
    requires forall k, f | 0 <= k < |secrets| && f in SearchedForms(secrets[k].1) :: !Contains(text, f)
    ensures RedactAll(text, secrets) == text
    decreases |secrets|
  {
    if secrets != [] {
      UntouchedBySecret(text, secrets[0].0, secrets[0].1);
      assert forall k | 0 <= k < |secrets| - 1 :: secrets[1..][k] == secrets[k + 1];
      Untouched(text, secrets[1..]);
    }
  }

  /** Secrets with empty values can be dropped without changing the result,
      wherever they stand in the order. */
  function NonEmptySecrets(secrets: Secrets): (r: Secrets)
    ensures forall k | 0 <= k < |r| :: r[k].1 != []
    ensures forall p | p in r :: p in secrets
    ensures forall p | p in secrets && p.1 != [] :: p in r
  {
    if secrets == [] then []
    else if secrets[0].1 == [] then NonEmptySecrets(secrets[1..])
    else [secrets[0]] + NonEmptySecrets(secrets[1..])
  }

  lemma {:induction false} EmptyValuesSkipped(text: string, secrets: Secrets)
    ensures RedactAll(text, secrets) == RedactAll(text, NonEmptySecrets(secrets))
    decreases |secrets|
  {
    if secrets != [] {
      EmptyValuesSkipped(RedactSecret(text, secrets[0].0, secrets[0].1), secrets[1..]);
      if secrets[0].1 == [] {
        EmptyValuesSkipped(text, secrets[1..]);
      } else {
        assert ([secrets[0]] + NonEmptySecrets(secrets[1..]))[1..] == NonEmptySecrets(secrets[1..]);
      }
    }
  }

  // ---------------------------------------------------------------------
  // The unit tests' secrets and outputs

  function TestSecrets(): Secrets {
    [("API_KEY", "sk-12345"), ("PASSWORD", "hunter2")]
  }

  /** Redacting with two secrets is the first secret's passes, then the
      second's. */
  lemma TwoSecrets(text: string, first: (string, string), second: (string, string))
    ensures RedactAll(text, [first, second])
         == RedactSecret(RedactSecret(text, first.0, first.1), second.0, second.1)
  {
    var t1 := RedactSecret(text, first.0, first.1);
    var t2 := RedactSecret(t1, second.0, second.1);
    assert [first, second][1..] == [second];
    assert [second][1..] == [];
    assert RedactAll(t1, [second]) == RedactAll(t2, []);
  }

  /** A value made of unreserved characters, with a character `c` in both its
      base64 forms that the text lacks once the raw pass is done, is only
      redacted in its raw form. */
  lemma RawFormOnly(text: string, name: string, value: string, c: char)
    requires value != []
    requires forall i | 0 <= i < |value| :: IsUnreserved(value[i])
    requires c in Base64Form(value) && c in Base64UrlForm(value)
    requires c !in Replace(text, value, Tag(name, ""))
    ensures RedactSecret(text, name, value) == Replace(text, value, Tag(name, ""))
  {
    var raw := Replace(text, value, Tag(name, ""));
    PercentIdentity(value);
    MissingCharNotContained(raw, Base64Form(value), c);
    ReplaceAbsent(raw, Base64Form(value), Tag(name, ":base64"));
    MissingCharNotContained(raw, Base64UrlForm(value), c);
    ReplaceAbsent(raw, Base64UrlForm(value), Tag(name, ":base64url"));
  }

  /** `c2stMTIzNDU=`, the base64 form of `sk-12345` in either alphabet,
      holds a `z`. */
  lemma ApiKeyBase64(key: string)
    requires key == "sk-12345"
    ensures 'z' in Base64Form(key) && 'z' in Base64UrlForm(key)
  {
    ApiKeyBytes(key);
    ApiKeyDigit(Utf8(key), false);
    ApiKeyDigit(Utf8(key), true);
  }

  lemma ApiKeyBytes(key: string)
    requires key == "sk-12345"
    ensures Utf8(key) == [115, 107, 45, 49, 50, 51, 52, 53]
  {
    Utf8Ascii(key);
  }

  /** The eighth character holds the last six bits of `3`, 51. */
  lemma ApiKeyDigit(b: seq<Byte>, urlSafe: bool)
    requires b == [115, 107, 45, 49, 50, 51, 52, 53]
    ensures Base64Encode(b, urlSafe)[7] == 'z'
  {
    EncodeGroup(b, urlSafe);
    EncodeGroup(b[3..], urlSafe);
  }

  /** `aHVudGVyMg==`, the base64 form of `hunter2`, holds a `V`. */
  lemma PasswordBase64(pass: string)
    requires pass == "hunter2"
    ensures 'V' in Base64Form(pass) && 'V' in Base64UrlForm(pass)
  {
    PasswordBytes(pass);
    PasswordDigit(Utf8(pass), false);
    PasswordDigit(Utf8(pass), true);
  }

  lemma PasswordBytes(pass: string)
    requires pass == "hunter2"
    ensures Utf8(pass) == [104, 117, 110, 116, 101, 114, 50]
  {
    Utf8Ascii(pass);
  }

  /** The third character encodes the low bits of `u` and the high bits
      of `n`, 21. */
  lemma PasswordDigit(b: seq<Byte>, urlSafe: bool)
    requires b == [104, 117, 110, 116, 101, 114, 50]
    ensures Base64Encode(b, urlSafe)[2] == 'V'
  {
    EncodeGroup(b, urlSafe);
  }

  /** Replacing the one occurrence of `value` in `a + value + b`, where the
      last character of `value` shows up neither in `a` nor in `b` nor
      earlier in `value`. */
  lemma ReplaceSingle(a: string, value: string, b: string, rep: string)
    requires value != [] && value[|value| - 1] !in a + value[..|value| - 1]
    requires value[|value| - 1] !in b
    ensures Replace(a + value + b, value, rep) == a + rep + b
  {
    var last := value[|value| - 1];
    MissingCharNotContained(a + value[..|value| - 1], value, last);
    ReplaceAfter(a, value, b, rep);
    MissingCharNotContained(b, value, last);
    ReplaceAbsent(b, value, rep);
  }

  /** A text without some character of the value is not touched by the raw
      pass. */
  lemma RawAbsent(text: string, value: string, rep: string, c: char)
    requires c in value && c !in text
    ensures Replace(text, value, rep) == text
  {
    MissingCharNotContained(text, value, c);
    ReplaceAbsent(text, value, rep);
  }

  /** A value made of unreserved characters that stands between two texts
      holding neither its last character nor a character `c` of both its
      base64 forms is replaced by its tag, and nothing else changes. */
  lemma SecretBetween(a: string, b: string, name: string, value: string, c: char)
    requires value != [] && forall i | 0 <= i < |value| :: IsUnreserved(value[i])
    requires value[|value| - 1] !in a + value[..|value| - 1] && value[|value| - 1] !in b
    requires c in Base64Form(value) && c in Base64UrlForm(value)
    requires c !in a && c !in b && c !in Tag(name, "")
    ensures RedactSecret(a + value + b, name, value) == a + Tag(name, "") + b
  {
    ReplaceSingle(a, value, b, Tag(name, ""));
    RawFormOnly(a + value + b, name, value, c);
  }

  /** `pat` occurs in `a + pat + b` only where it stands: no occurrence
      starts in `a` or inside `pat`, and none lies in `b`. */
  predicate OccursOnlyBetween(a: string, pat: string, b: string) {
    pat != [] && !Contains(a + pat[..|pat| - 1], pat) && !Contains(b, pat)
  }

  /** Replacing a pattern that occurs only once. */
  lemma ReplaceOnly(a: string, pat: string, b: string, rep: string)
    requires OccursOnlyBetween(a, pat, b)
    ensures Replace(a + pat + b, pat, rep) == a + rep + b
  {
    ReplaceAfter(a, pat, b, rep);
    ReplaceAbsent(b, pat, rep);
  }

  /** The base64 form of a value, standing once between texts that hold
      neither the raw value nor the later forms, is replaced by the
      `:base64` tag, and nothing else changes. */
  lemma Base64Between(a: string, b: string, name: string, value: string)
    requires value != []
    requires !Contains(a + Base64Form(value) + b, value)
    requires OccursOnlyBetween(a, Base64Form(value), b)
    requires Base64UrlForm(value) != Base64Form(value)
         ==> !Contains(a + Tag(name, ":base64") + b, Base64UrlForm(value))
    requires UrlEncodedForm(value) != value
         ==> !Contains(a + Tag(name, ":base64") + b, UrlEncodedForm(value))
    ensures RedactSecret(a + Base64Form(value) + b, name, value) == a + Tag(name, ":base64") + b
  {
    var std, url, pct := Base64Form(value), Base64UrlForm(value), UrlEncodedForm(value);
    var tagged := a + Tag(name, ":base64") + b;
    EncodedForms(value);
    ReplaceAbsent(a + std + b, value, Tag(name, ""));
    ReplaceOnly(a, std, b, Tag(name, ":base64"));
    if url != std {
      ReplaceAbsent(tagged, url, Tag(name, ":base64url"));
    }
    if pct != value {
      ReplaceAbsent(tagged, pct, Tag(name, ":urlencoded"));
    }
  }

  /** The same for the URL-safe base64 form, when it differs from the
      standard one. */
  lemma Base64UrlBetween(a: string, b: string, name: string, value: string)
    requires value != [] && Base64UrlForm(value) != Base64Form(value)
    requires !Contains(a + Base64UrlForm(value) + b, value)
    requires !Contains(a + Base64UrlForm(value) + b, Base64Form(value))
    requires OccursOnlyBetween(a, Base64UrlForm(value), b)
    requires UrlEncodedForm(value) != value
         ==> !Contains(a + Tag(name, ":base64url") + b, UrlEncodedForm(value))
    ensures RedactSecret(a + Base64UrlForm(value) + b, name, value) == a + Tag(name, ":base64url") + b
  {
    var std, url, pct := Base64Form(value), Base64UrlForm(value), UrlEncodedForm(value);
    var text := a + url + b;
    EncodedForms(value);
    ReplaceAbsent(text, value, Tag(name, ""));
    ReplaceAbsent(text, std, Tag(name, ":base64"));
    ReplaceOnly(a, url, b, Tag(name, ":base64url"));
    if pct != value {
      ReplaceAbsent(a + Tag(name, ":base64url") + b, pct, Tag(name, ":urlencoded"));
    }
  }

  /** The same for the percent-encoding, when it differs from the value. */
  lemma UrlEncodedBetween(a: string, b: string, name: string, value: string)
    requires value != [] && UrlEncodedForm(value) != value
    requires !Contains(a + UrlEncodedForm(value) + b, value)
    requires !Contains(a + UrlEncodedForm(value) + b, Base64Form(value))
    requires !Contains(a + UrlEncodedForm(value) + b, Base64UrlForm(value))
    requires OccursOnlyBetween(a, UrlEncodedForm(value), b)
    ensures RedactSecret(a + UrlEncodedForm(value) + b, name, value) == a + Tag(name, ":urlencoded") + b
  {
    var std, url, pct := Base64Form(value), Base64UrlForm(value), UrlEncodedForm(value);
    var text := a + pct + b;
    EncodedForms(value);
    ReplaceAbsent(text, value, Tag(name, ""));
    ReplaceAbsent(text, std, Tag(name, ":base64"));
    ReplaceAbsent(text, url, Tag(name, ":base64url"));
    ReplaceOnly(a, pct, b, Tag(name, ":urlencoded"));
  }

  /** Redacting with a single secret is that secret's passes. */
  lemma OneSecret(text: string, name: string, value: string)
    ensures RedactAll(text, [(name, value)]) == RedactSecret(text, name, value)
  {
    assert [(name, value)][1..] == [];
  }

  /** What the examples use of the test's API key `sk-12345` ... */
  lemma ApiKeyFacts(key: string)
    requires key == "sk-12345"
    ensures key != [] && forall i | 0 <= i < |key| :: IsUnreserved(key[i])
    ensures key[|key| - 1] == '5' && '5' !in key[..|key| - 1]
    ensures 'z' in Base64Form(key) && 'z' in Base64UrlForm(key)
  {
    ApiKeyBase64(key);
  }

  /** ... and of its password `hunter2`. */
  lemma PasswordFacts(pass: string)
    requires pass == "hunter2"
    ensures pass != [] && forall i | 0 <= i < |pass| :: IsUnreserved(pass[i])
    ensures 'u' in pass
    ensures 'V' in Base64Form(pass) && 'V' in Base64UrlForm(pass)
  {
    PasswordBase64(pass);
  }

  /** The password leaves alone any text that lacks a `u` and a `V`. */
  lemma PasswordAbsent(text: string, pass: string)
    requires pass == "hunter2" && 'u' !in text && 'V' !in text
    ensures RedactSecret(text, "PASSWORD", pass) == text
  {
    PasswordFacts(pass);
    RawAbsent(text, pass, Tag("PASSWORD", ""), 'u');
    RawFormOnly(text, "PASSWORD", pass, 'V');
  }

  /** The API key between two texts without `5` or `z` is replaced by its
      tag. */
  lemma ApiKeyBetween(a: string, b: string, key: string)
    requires key == "sk-12345"
    requires '5' !in a && '5' !in b && 'z' !in a && 'z' !in b
    ensures RedactSecret(a + key + b, "API_KEY", key) == a + Tag("API_KEY", "") + b
  {
    ApiKeyFacts(key);
    SecretBetween(a, b, "API_KEY", key, 'z');
  }

  /** The direct-match test: the key inside the output is replaced by its
      tag ... */
  lemma DirectMatchExample(before: string, key: string, after: string)
    requires before == "Connecting with token " && key == "sk-12345" && after == "..."
    ensures RedactSecret(before + key + after, "API_KEY", key)
         == before + "[REDACTED:API_KEY]" + after
  {
    OutputLacksKeyChars(before, after);
    ApiKeyBetween(before, after, key);
    ApiKeyTag(Tag("API_KEY", ""));
  }

  lemma ApiKeyTag(tag: string)
    requires tag == Tag("API_KEY", "")
    ensures tag == "[REDACTED:API_KEY]"
  {
  }

  /** The text around the key in that test holds neither a `5` nor a `z`. */
  lemma OutputLacksKeyChars(before: string, after: string)
    requires before == "Connecting with token " && after == "..."
    ensures '5' !in before && '5' !in after && 'z' !in before && 'z' !in after
  {
  }

  /** ... and the password, which the redacted output lacks, changes
      nothing. */
  lemma DirectMatchPassword(before: string, pass: string, after: string)
    requires before == "Connecting with token " && pass == "hunter2" && after == "..."
    ensures RedactSecret(before + "[REDACTED:API_KEY]" + after, "PASSWORD", pass)
         == before + "[REDACTED:API_KEY]" + after
  {
    PasswordAbsent(before + "[REDACTED:API_KEY]" + after, pass);
  }

  /** The base64 test: `aGVsbG8=` is the base64 form of `hello` in both
      alphabets. */
  lemma HelloBase64(hello: string)
    requires hello == "hello"
    ensures Base64Form(hello) == "aGVsbG8=" && Base64UrlForm(hello) == "aGVsbG8="
  {
    HelloBytes(hello);
    HelloEncoded(Utf8(hello), false);
    HelloEncoded(Utf8(hello), true);
  }

  /** Replacing the two occurrences of `value` in
      `a + value + m + value + b`, where the last character of `value`
      shows up nowhere else. */
  lemma ReplaceTwice(a: string, value: string, m: string, b: string, rep: string)
    requires value != [] && value[|value| - 1] !in a + value[..|value| - 1]
    requires value[|value| - 1] !in m && value[|value| - 1] !in b
    ensures Replace(a + value + m + value + b, value, rep) == a + rep + m + rep + b
  {
    var last := value[|value| - 1];
    assert last !in m + value[..|value| - 1];
    ReplaceSingle(m, value, b, rep);
    MissingCharNotContained(a + value[..|value| - 1], value, last);
    ReplaceAfter(a, value, m + value + b, rep);
    assert a + value + m + value + b == a + value + (m + value + b);
    assert a + rep + (m + rep + b) == a + rep + m + rep + b;
  }

  /** Both occurrences of the API key are replaced by its tag. */
  lemma ApiKeyTwice(a: string, m: string, b: string, key: string)
    requires key == "sk-12345"
    requires '5' !in a && '5' !in m && '5' !in b && 'z' !in a && 'z' !in m && 'z' !in b
    ensures RedactSecret(a + key + m + key + b, "API_KEY", key)
         == a + Tag("API_KEY", "") + m + Tag("API_KEY", "") + b
  {
    var tag := Tag("API_KEY", "");
    ApiKeyFacts(key);
    TagLacksZ(tag);
    ReplaceTwice(a, key, m, b, tag);
    assert 'z' !in a + tag + m + tag + b;
    RawFormOnly(a + key + m + key + b, "API_KEY", key, 'z');
  }

  lemma TagLacksZ(tag: string)
    requires tag == Tag("API_KEY", "")
    ensures 'z' !in tag
  {
    ApiKeyTag(tag);
  }

  /** The test with two occurrences: both are redacted, whichever secret
      the map hands out first. */
  lemma MultipleOccurrencesExample(output: string, key: string, pass: string)
    requires output == "key=sk-12345, again: sk-12345" && key == "sk-12345" && pass == "hunter2"
    ensures RedactAll(output, [("API_KEY", key), ("PASSWORD", pass)])
         == "key=" + "[REDACTED:API_KEY]" + ", again: " + "[REDACTED:API_KEY]"
    ensures RedactAll(output, [("PASSWORD", pass), ("API_KEY", key)])
         == "key=" + "[REDACTED:API_KEY]" + ", again: " + "[REDACTED:API_KEY]"
  {
    var a, m := "key=", ", again: ";
    OccurrencesOutput(output, a, m, key);
    OccurrencesChars(a, m);
    ApiKeyTag(Tag("API_KEY", ""));
    OccurrencesKeyFirst(a, m, key, pass);
    TwoSecrets(output, ("API_KEY", key), ("PASSWORD", pass));
    OccurrencesPasswordFirst(a, m, key, pass);
    TwoSecrets(output, ("PASSWORD", pass), ("API_KEY", key));
  }

  lemma OccurrencesOutput(output: string, a: string, m: string, key: string)
    requires output == "key=sk-12345, again: sk-12345" && key == "sk-12345"
    requires a == "key=" && m == ", again: "
    ensures output == a + key + m + key
  {
  }

  lemma OccurrencesChars(a: string, m: string)
    requires a == "key=" && m == ", again: "
    ensures '5' !in a && '5' !in m && 'z' !in a && 'z' !in m
    ensures 'u' !in a && 'u' !in m && 'V' !in a && 'V' !in m
  {
  }

  /** The key's passes, then the password's, which find nothing. */
  lemma OccurrencesKeyFirst(a: string, m: string, key: string, pass: string)
    requires key == "sk-12345" && pass == "hunter2"
    requires '5' !in a && '5' !in m && 'z' !in a && 'z' !in m
    requires 'u' !in a && 'u' !in m && 'V' !in a && 'V' !in m
    ensures RedactSecret(RedactSecret(a + key + m + key, "API_KEY", key), "PASSWORD", pass)
         == a + Tag("API_KEY", "") + m + Tag("API_KEY", "")
  {
    var tag := Tag("API_KEY", "");
    TagAChars(tag);
    ApiKeyTwice(a, m, [], key);
    assert a + key + m + key + [] == a + key + m + key;
    assert a + tag + m + tag + [] == a + tag + m + tag;
    PasswordAbsent(a + tag + m + tag, pass);
  }

  /** The password's passes, which find nothing, then the key's. */
  lemma OccurrencesPasswordFirst(a: string, m: string, key: string, pass: string)
    requires key == "sk-12345" && pass == "hunter2"
    requires '5' !in a && '5' !in m && 'z' !in a && 'z' !in m
    requires 'u' !in a && 'u' !in m && 'V' !in a && 'V' !in m
    ensures RedactSecret(RedactSecret(a + key + m + key, "PASSWORD", pass), "API_KEY", key)
         == a + Tag("API_KEY", "") + m + Tag("API_KEY", "")
  {
    KeyChars(key);
    PasswordAbsent(a + key + m + key, pass);
    ApiKeyTwice(a, m, [], key);
    assert a + key + m + key + [] == a + key + m + key;
    assert a + Tag("API_KEY", "") + m + Tag("API_KEY", "") + []
        == a + Tag("API_KEY", "") + m + Tag("API_KEY", "");
  }

  /** The letters the examples look for in the two test secrets and their
      tags. */
  lemma KeyChars(key: string)
    requires key == "sk-12345"
    ensures 'u' !in key && 'V' !in key && 'h' !in key
  {
  }

  lemma PassChars(pass: string)
    requires pass == "hunter2"
    ensures '5' !in pass && 'z' !in pass && '2' !in pass[..|pass| - 1]
  {
  }

  lemma TagAChars(tag: string)
    requires tag == Tag("API_KEY", "")
    ensures '2' !in tag && 'V' !in tag && 'u' !in tag && 'z' !in tag && '5' !in tag
  {
    ApiKeyTag(tag);
  }

  lemma TagPChars(tag: string)
    requires tag == Tag("PASSWORD", "")
    ensures '5' !in tag && 'z' !in tag && 'V' !in tag
  {
    PasswordTag(tag);
  }

  lemma PasswordTag(tag: string)
    requires tag == Tag("PASSWORD", "")
    ensures tag == "[REDACTED:PASSWORD]"
  {
  }

  /** The test with both secrets in one line: each is redacted, whichever
      the map hands out first. */
  lemma MultipleSecretsExample(output: string, key: string, pass: string)
    requires output == "user:hunter2 key:sk-12345" && key == "sk-12345" && pass == "hunter2"
    ensures RedactAll(output, [("API_KEY", key), ("PASSWORD", pass)])
         == "user:" + "[REDACTED:PASSWORD]" + " key:" + "[REDACTED:API_KEY]"
    ensures RedactAll(output, [("PASSWORD", pass), ("API_KEY", key)])
         == "user:" + "[REDACTED:PASSWORD]" + " key:" + "[REDACTED:API_KEY]"
  {
    var u, k := "user:", " key:";
    SecretsOutput(output, u, k, key, pass);
    SecretsChars(u, k);
    ApiKeyTag(Tag("API_KEY", ""));
    PasswordTag(Tag("PASSWORD", ""));
    KeyThenPassword(u, k, key, pass);
    TwoSecrets(output, ("API_KEY", key), ("PASSWORD", pass));
    PasswordThenKey(u, k, key, pass);
    TwoSecrets(output, ("PASSWORD", pass), ("API_KEY", key));
  }

  lemma SecretsOutput(output: string, u: string, k: string, key: string, pass: string)
    requires output == "user:hunter2 key:sk-12345" && key == "sk-12345" && pass == "hunter2"
    requires u == "user:" && k == " key:"
    ensures output == u + pass + k + key
  {
  }

  lemma SecretsChars(u: string, k: string)
    requires u == "user:" && k == " key:"
    ensures '5' !in u && '5' !in k && 'z' !in u && 'z' !in k && '2' !in u && '2' !in k
    ensures 'V' !in u && 'V' !in k && 'h' !in k
  {
  }

  /** The key's passes after a text without `5` or `z`. */
  lemma KeyAfter(x: string, key: string)
    requires key == "sk-12345" && '5' !in x && 'z' !in x
    ensures RedactSecret(x + key, "API_KEY", key) == x + Tag("API_KEY", "")
  {
    ApiKeyBetween(x, [], key);
    assert x + key + [] == x + key;
    assert x + Tag("API_KEY", "") + [] == x + Tag("API_KEY", "");
  }

  /** The password's passes on the one occurrence of the password between
      texts without `2` or `V`. */
  lemma PasswordBetween(u: string, rest: string, pass: string)
    requires pass == "hunter2" && '2' !in u && '2' !in rest && 'V' !in u && 'V' !in rest
    ensures RedactSecret(u + pass + rest, "PASSWORD", pass) == u + Tag("PASSWORD", "") + rest
  {
    var tag := Tag("PASSWORD", "");
    TagPChars(tag);
    PassChars(pass);
    PasswordFacts(pass);
    SecretBetween(u, rest, "PASSWORD", pass, 'V');
  }

  /** The password's passes when the text after it holds no `h`, though it
      may hold a `2`. */
  lemma PasswordBefore(u: string, rest: string, pass: string)
    requires pass == "hunter2" && '2' !in u && 'h' !in rest && 'V' !in u && 'V' !in rest
    ensures RedactSecret(u + pass + rest, "PASSWORD", pass) == u + Tag("PASSWORD", "") + rest
  {
    var tag := Tag("PASSWORD", "");
    TagPChars(tag);
    PassChars(pass);
    PasswordFacts(pass);
    assert pass[0] == 'h';
    MissingCharNotContained(u + pass[..|pass| - 1], pass, '2');
    MissingCharNotContained(rest, pass, 'h');
    ReplaceOnly(u, pass, rest, tag);
    RawFormOnly(u + pass + rest, "PASSWORD", pass, 'V');
  }

  /** The key first, then the password. */
  lemma KeyThenPassword(u: string, k: string, key: string, pass: string)
    requires key == "sk-12345" && pass == "hunter2"
    requires '5' !in u && '5' !in k && 'z' !in u && 'z' !in k && '2' !in u && '2' !in k
    requires 'V' !in u && 'V' !in k
    ensures RedactSecret(RedactSecret(u + pass + k + key, "API_KEY", key), "PASSWORD", pass)
         == u + Tag("PASSWORD", "") + k + Tag("API_KEY", "")
  {
    var tagA := Tag("API_KEY", "");
    TagAChars(tagA);
    KeyAfterPassword(u, k, key, pass);
    PasswordBetween(u, k + tagA, pass);
    Regroup(u + Tag("PASSWORD", ""), k, tagA);
  }

  /** The key's passes leave the password and the text around it. */
  lemma KeyAfterPassword(u: string, k: string, key: string, pass: string)
    requires key == "sk-12345" && pass == "hunter2"
    requires '5' !in u && '5' !in k && 'z' !in u && 'z' !in k
    ensures RedactSecret(u + pass + k + key, "API_KEY", key) == u + pass + (k + Tag("API_KEY", ""))
  {
    PassChars(pass);
    KeyAfter(u + pass + k, key);
    Regroup(u + pass, k, Tag("API_KEY", ""));
  }

  /** The password first, then the key. */
  lemma PasswordThenKey(u: string, k: string, key: string, pass: string)
    requires key == "sk-12345" && pass == "hunter2"
    requires '5' !in u && '5' !in k && 'z' !in u && 'z' !in k && '2' !in u
    requires 'V' !in u && 'V' !in k && 'h' !in k
    ensures RedactSecret(RedactSecret(u + pass + k + key, "PASSWORD", pass), "API_KEY", key)
         == u + Tag("PASSWORD", "") + k + Tag("API_KEY", "")
  {
    var tagP := Tag("PASSWORD", "");
    TagPChars(tagP);
    KeyChars(key);
    assert u + pass + k + key == u + pass + (k + key);
    PasswordBefore(u, k + key, pass);
    assert u + tagP + (k + key) == u + tagP + k + key;
    KeyAfter(u + tagP + k, key);
  }

  /** The base64 test: `encoded: aGVsbG8=` becomes
      `encoded: [REDACTED:SECRET:base64]`. */
  lemma SanitizeBase64Example(output: string, name: string, hello: string)
    requires output == "encoded: aGVsbG8=" && name == "SECRET" && hello == "hello"
    ensures RedactAll(output, [(name, hello)]) == "encoded: [REDACTED:SECRET:base64]"
  {
    var before := "encoded: ";
    HelloBase64(hello);
    HelloOutput(output, before, Base64Form(hello));
    HelloRedacted(before, name, hello);
    OneSecret(output, name, hello);
    Base64Tag(before, Tag(name, ":base64"), name);
  }

  lemma HelloOutput(output: string, before: string, encoded: string)
    requires output == "encoded: aGVsbG8=" && before == "encoded: " && encoded == "aGVsbG8="
    ensures output == before + encoded
  {
  }

  lemma Base64Tag(before: string, tag: string, name: string)
    requires before == "encoded: " && name == "SECRET" && tag == Tag(name, ":base64")
    ensures before + tag == "encoded: [REDACTED:SECRET:base64]"
  {
  }

  /** The base64 form of `hello`, after `encoded: `, is its only
      occurrence, and the raw value is absent. */
  lemma HelloRedacted(before: string, name: string, hello: string)
    requires before == "encoded: " && hello == "hello"
    ensures RedactSecret(before + Base64Form(hello), name, hello) == before + Tag(name, ":base64")
  {
    HelloBase64(hello);
    var std := Base64Form(hello);
    HelloOutputChars(before + std);
    MissingCharNotContained(before + std + [], hello, 'h');
    assert before + std[..|std| - 1] == (before + std)[..|before + std| - 1];
    MissingCharNotContained(before + std[..|std| - 1], std, '=');
    UnreservedUnchanged(hello);
    Base64Between(before, [], name, hello);
    assert before + std + [] == before + std;
    assert before + Tag(name, ":base64") + [] == before + Tag(name, ":base64");
  }

  lemma HelloOutputChars(s: string)
    requires s == "encoded: aGVsbG8="
    ensures 'h' !in s && '=' !in s[..|s| - 1]
  {
  }

  lemma HelloBytes(hello: string)
    requires hello == "hello"
    ensures Utf8(hello) == [104, 101, 108, 108, 111]
  {
    Utf8Ascii(hello);
  }

  /** No byte of `hello` reaches the two characters the alphabets
      disagree on. */
  lemma HelloEncoded(b: seq<Byte>, urlSafe: bool)
    requires b == [104, 101, 108, 108, 111]
    ensures Base64Encode(b, urlSafe) == "aGVsbG8="
  {
    EncodeGroup(b, urlSafe);
    assert b[3..] == [108, 111];
  }

  /** The URL-encoding test: `hello%20world` is the percent-encoding of
      `hello world`. */
  lemma HelloWorldUrlEncoded(hello: string, world: string)
    requires hello == "hello" && world == "world"
    ensures UrlEncodedForm(hello + " " + world) == hello + "%20" + world
  {
    var sp := " ";
    Utf8Concat(hello + sp, world);
    Utf8Concat(hello, sp);
    PercentConcat(Utf8(hello) + Utf8(sp), Utf8(world));
    PercentConcat(Utf8(hello), Utf8(sp));
    WordsUnchanged(hello, world);
    SpaceEncoded(sp);
  }

  /** The URL-encoding test: `param=hello%20world` becomes
      `param=[REDACTED:SECRET:urlencoded]`. */
  lemma SanitizeUrlEncodedExample(output: string, name: string, value: string)
    requires output == "param=hello%20world" && name == "SECRET" && value == "hello world"
    ensures RedactAll(output, [(name, value)]) == "param=[REDACTED:SECRET:urlencoded]"
  {
    var before, hello, world := "param=", "hello", "world";
    HelloWorldParts(value, hello, world);
    HelloWorldUrlEncoded(hello, world);
    HelloWorldOutput(output, before, UrlEncodedForm(value));
    HelloWorldBase64(value);
    HelloWorldRedacted(before, name, value);
    OneSecret(output, name, value);
    UrlEncodedTag(before, Tag(name, ":urlencoded"), name);
  }

  lemma HelloWorldParts(value: string, hello: string, world: string)
    requires value == "hello world" && hello == "hello" && world == "world"
    ensures value == hello + " " + world
  {
  }

  lemma HelloWorldOutput(output: string, before: string, encoded: string)
    requires before == "param=" && encoded == "hello" + "%20" + "world"
    requires output == "param=hello%20world"
    ensures output == before + encoded
  {
  }

  lemma UrlEncodedTag(before: string, tag: string, name: string)
    requires before == "param=" && name == "SECRET" && tag == Tag(name, ":urlencoded")
    ensures before + tag == "param=[REDACTED:SECRET:urlencoded]"
  {
  }

  /** The percent-encoding of `hello world`, after `param=`, is its only
      occurrence; the raw value, with its space, and the base64 forms, with
      their `G`, are absent. */
  lemma HelloWorldRedacted(before: string, name: string, value: string)
    requires before == "param=" && value == "hello world"
    requires UrlEncodedForm(value) == "hello" + "%20" + "world"
    requires 'G' in Base64Form(value) && 'G' in Base64UrlForm(value)
    ensures RedactSecret(before + UrlEncodedForm(value), name, value) == before + Tag(name, ":urlencoded")
  {
    var pct := UrlEncodedForm(value);
    var text := before + pct + [];
    assert text == before + pct;
    HelloWorldChars(text);
    MissingCharNotContained(text, value, ' ');
    MissingCharNotContained(text, Base64Form(value), 'G');
    MissingCharNotContained(text, Base64UrlForm(value), 'G');
    assert before + pct[..|pct| - 1] == text[..|text| - 1];
    MissingCharNotContained(before + pct[..|pct| - 1], pct, 'd');
    UrlEncodedBetween(before, [], name, value);
    assert before + Tag(name, ":urlencoded") + [] == before + Tag(name, ":urlencoded");
  }

  lemma HelloWorldChars(s: string)
    requires s == "param=" + ("hello" + "%20" + "world")
    ensures ' ' !in s && 'G' !in s && 'd' !in s[..|s| - 1]
  {
  }

  /** `aGVsbG8gd29ybGQ=`, the base64 form of `hello world` in either
      alphabet, holds a `G`. */
  lemma HelloWorldBase64(value: string)
    requires value == "hello world"
    ensures 'G' in Base64Form(value) && 'G' in Base64UrlForm(value)
  {
    Utf8Ascii(value);
    HelloWorldDigit(Utf8(value), false);
    HelloWorldDigit(Utf8(value), true);
  }

  /** The second character holds the low bits of `h` and the high bits of
      `e`, 6. */
  lemma HelloWorldDigit(b: seq<Byte>, urlSafe: bool)
    requires |b| >= 3 && b[0] == 104 && b[1] == 101
    ensures Base64Encode(b, urlSafe)[1] == 'G'
  {
    EncodeGroup(b, urlSafe);
  }

  /** `hello` and `world` are unreserved throughout. */
  lemma WordsUnchanged(hello: string, world: string)
    requires hello == "hello" && world == "world"
    ensures PercentEncode(hello) == hello && PercentEncode(world) == world
  {
    UnreservedUnchanged(hello);
    UnreservedUnchanged(world);
  }

  /** A space is the byte 32, written `%20`. */
  lemma SpaceEncoded(sp: string)
    requires sp == " "
    ensures PercentEncodeBytes(Utf8(sp)) == "%20"
  {
    assert Utf8(sp) == [32];
  }
}
