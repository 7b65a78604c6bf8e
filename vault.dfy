/** The secret store of src/vault.rs: a persistent map from names to
    `(encrypted_value, created_at, updated_at)` records, the name grammar and
    the schema-version rule. The SQLite file is the class `SecretsDb`; the
    open handle is the class `Vault`. The clock is a parameter (`now`). */
module Vault {
  import opened Errors
  import opened Text
  import Crypto

  /** `SCHEMA_VERSION`. */
  const SchemaVersion: int := 1

  /** An instant as stored (RFC 3339 text in the table). */
  type Timestamp = int

  /** A row of the `secrets` table, keyed by its name. */
  datatype Record = Record(encryptedValue: Crypto.Ciphertext, createdAt: Timestamp, updatedAt: Timestamp)

  /** `vault::Secret`: what `list` reports of a row; it has no value. */
  datatype Secret = Secret(name: string, createdAt: Timestamp, updatedAt: Timestamp)

  type Table = map<string, Record>

  /** The outcome of one write against the table: what the call returns and
      the table afterwards. */
  datatype Step = Step(result: Result<()>, table: Table)

  // ---------------------------------------------------------------------
  // Name grammar

  const EmptyNameMessage := "name cannot be empty"
  const NameCharsMessage := "name can only contain alphanumeric characters, underscores, and hyphens"
  const NameStartMessage := "name must start with a letter or underscore"

  predicate IsNameChar(c: char) { IsAsciiAlphanumeric(c) || c == '_' || c == '-' }
  predicate IsNameStart(c: char) { IsAsciiAlpha(c) || c == '_' }

  /** The identifier grammar `[A-Za-z_][A-Za-z0-9_-]*`, one position at a time. */
  predicate IsIdentifier(name: string) {
    |name| > 0 && IsNameStart(name[0]) && IsIdentifierTail(name[1..])
  }

  predicate IsIdentifierTail(rest: string) {
    rest == [] || (IsNameChar(rest[0]) && IsIdentifierTail(rest[1..]))
  }

  /** `validate_name`: the three checks in the source's order, each with its
      own message; the name is accepted exactly when it matches the grammar. */
  function ValidateName(name: string): (r: Result<()>)
    ensures r.Ok? <==> IsIdentifier(name)
    ensures r.Err? ==> r.error.InvalidSecretName?
    ensures name == [] ==> r == Err(InvalidSecretName(EmptyNameMessage))
  {
    if name == [] then Err(InvalidSecretName(EmptyNameMessage))
    else if !(forall c | c in name :: IsNameChar(c)) then
      assert !IsIdentifier(name) by { IdentifierChars(name); }
      Err(InvalidSecretName(NameCharsMessage))
    else if !IsNameStart(name[0]) then Err(InvalidSecretName(NameStartMessage))
    else
      assert IsIdentifier(name) by { IdentifierChars(name); }
      Ok(())
  }

  /** The grammar's tail accepts exactly the texts made of name characters. */
  lemma {:induction false} IdentifierTailChars(rest: string)
    ensures IsIdentifierTail(rest) <==> forall c | c in rest :: IsNameChar(c)
  {
    if rest != [] {
      IdentifierTailChars(rest[1..]);
      assert rest == [rest[0]] + rest[1..];
    }
  }

  lemma IdentifierChars(name: string)
    requires name != []
    ensures IsIdentifier(name) <==> IsNameStart(name[0]) && forall c | c in name :: IsNameChar(c)
  {
    IdentifierTailChars(name[1..]);
    assert name == [name[0]] + name[1..];
  }

  /** A bucket-qualified name such as `prod/API_KEY` is rejected. */
  lemma SlashNamesRejected(name: string)
    requires '/' in name
    ensures ValidateName(name) == Err(InvalidSecretName(NameCharsMessage))
  {
  }

  /** A name made of name characters and starting with a letter or `_` is
      accepted. */
  lemma AcceptedByCharacters(name: string)
    requires name != [] && IsNameStart(name[0])
    requires forall i | 0 <= i < |name| :: IsNameChar(name[i])
    ensures ValidateName(name).Ok?
  {
    IdentifierChars(name);
  }

  /** The accepted names of the unit tests: an upper-case name with `_`, ... */
  lemma ValidNameUpper()
    ensures ValidateName("VALID_NAME").Ok?
  {
    var s := "VALID_NAME";
    assert forall i | 0 <= i < |s| :: IsNameChar(s[i]);
    AcceptedByCharacters(s);
  }

  /** ... a lower-case name with `-`, ... */
  lemma ValidNameHyphen()
    ensures ValidateName("valid-name").Ok?
  {
    var s := "valid-name";
    assert forall i | 0 <= i < |s| :: IsNameChar(s[i]);
    AcceptedByCharacters(s);
  }

  /** ... and a name starting with `_`. */
  lemma ValidNameUnderscore()
    ensures ValidateName("_private").Ok?
  {
    var s := "_private";
    assert forall i | 0 <= i < |s| :: IsNameChar(s[i]);
    AcceptedByCharacters(s);
  }

  /** A name holding a character outside the grammar gets the character
      message, whatever it starts with. */
  lemma RejectedByCharacter(name: string, c: char)
    requires c in name && !IsNameChar(c)
    ensures ValidateName(name) == Err(InvalidSecretName(NameCharsMessage))
  {
  }

  /** A name of grammar characters that starts with a digit or `-` gets the
      start message. */
  lemma RejectedByStart(name: string)
    requires name != [] && !IsNameStart(name[0])
    requires forall i | 0 <= i < |name| :: IsNameChar(name[i])
    ensures ValidateName(name) == Err(InvalidSecretName(NameStartMessage))
  {
    assert forall c | c in name :: IsNameChar(c);
  }

  /** The rejected names of the unit tests, each with its message: the
      empty name, ... */
  lemma EmptyNameRejected()
    ensures ValidateName("") == Err(InvalidSecretName(EmptyNameMessage))
  {
  }

  /** ... a name starting with a digit, ... */
  lemma DigitStartRejected(name: string)
    requires name == "123invalid"
    ensures ValidateName(name) == Err(InvalidSecretName(NameStartMessage))
  {
    assert forall i | 0 <= i < |name| :: IsNameChar(name[i]);
    RejectedByStart(name);
  }

  /** ... and a name with a space. */
  lemma SpaceRejected(name: string)
    requires name == "has spaces"
    ensures ValidateName(name) == Err(InvalidSecretName(NameCharsMessage))
  {
    assert name[3] == ' ';
    RejectedByCharacter(name, ' ');
  }

  // ---------------------------------------------------------------------
  // Schema version

  /** The version `init_schema_version` leaves in the metadata table: an
      absent or older version becomes `SCHEMA_VERSION`, a current or newer
      one is kept. */
  function SchemaVersionAfter(stored: Option<int>): (v: int)
    ensures v >= SchemaVersion
    ensures stored.Some? ==> v >= stored.value
    ensures stored.Some? && stored.value >= SchemaVersion ==> v == stored.value
  {
    match stored
    case None => SchemaVersion
    case Some(v) => if v < SchemaVersion then SchemaVersion else v
  }

  /** Opening the vault again leaves the version where the first open put it. */
  lemma SchemaVersionIdempotent(stored: Option<int>)
    ensures SchemaVersionAfter(Some(SchemaVersionAfter(stored))) == SchemaVersionAfter(stored)
  {
  }

  // ---------------------------------------------------------------------
  // The table operations, as functions of the table

  /** `get`: a missing row is `SecretNotFound`; otherwise the row is
      decrypted with the master key. */
  function Lookup(t: Table, key: string, name: string): Result<string> {
    if name !in t then Err(SecretNotFound(name))
    else Crypto.Decrypt(t[name].encryptedValue, key)
  }

  /** The position of the first name the vault cannot give, or the number
      of names when it gives them all. */
  function FirstUnreadable(t: Table, key: string, names: seq<string>): (k: nat)
    ensures k <= |names|
    ensures forall j | 0 <= j < k :: Lookup(t, key, names[j]).Ok?
    ensures k < |names| ==> Lookup(t, key, names[k]).Err?
  {
    if names == [] then 0
    else if Lookup(t, key, names[0]).Err? then 0
    else 1 + FirstUnreadable(t, key, names[1..])
  }

  /** The name and value of each name, when every name reads. */
  function ReadAll(t: Table, key: string, names: seq<string>): (s: seq<(string, string)>)
    requires forall j | 0 <= j < |names| :: Lookup(t, key, names[j]).Ok?
    ensures |s| == |names|
    ensures forall j | 0 <= j < |s| :: s[j].0 == names[j] && Lookup(t, key, names[j]) == Ok(s[j].1)
  {
    seq(|names|, j requires 0 <= j < |names| => (names[j], Lookup(t, key, names[j]).value))
  }

  lemma FirstUnreadableAt(t: Table, key: string, names: seq<string>, i: nat)
    requires i < |names| && Lookup(t, key, names[i]).Err?
    requires forall j | 0 <= j < i :: Lookup(t, key, names[j]).Ok?
    ensures FirstUnreadable(t, key, names) == i
  {
  }

  /** `update` on the table. */
  function UpdateStep(t: Table, key: string, name: string, value: string, now: Timestamp): Step {
    if name !in t then Step(Err(SecretNotFound(name)), t)
    else Step(Ok(()), t[name := t[name].(encryptedValue := Crypto.Encrypt(value, key), updatedAt := now)])
  }

  /** `create_internal` on the table: validate, then refuse or delegate to
      `update` when the name exists, else insert a fresh row. */
  function CreateStep(t: Table, key: string, name: string, value: string, force: bool, now: Timestamp): Step {
    match ValidateName(name)
    case Err(e) => Step(Err(e), t)
    case Ok(_) =>
      if name in t then
        if force then UpdateStep(t, key, name, value, now)
        else Step(Err(SecretAlreadyExists(name)), t)
      else Step(Ok(()), t[name := Record(Crypto.Encrypt(value, key), now, now)])
  }

  /** `delete` on the table. */
  function DeleteStep(t: Table, name: string): Step {
    if name !in t then Step(Err(SecretNotFound(name)), t)
    else Step(Ok(()), t - {name})
  }

  /** What `list` reports for one row. */
  function MetadataOf(t: Table, name: string): Secret
    requires name in t
  {
    Secret(name, t[name].createdAt, t[name].updatedAt)
  }

  /** An invalid name is refused before the table is looked at. */
  lemma CreateValidatesFirst(t: Table, key: string, name: string, value: string, force: bool, now: Timestamp)
    requires !IsIdentifier(name)
    ensures CreateStep(t, key, name, value, force, now) == Step(ValidateName(name), t)
    ensures CreateStep(t, key, name, value, force, now).result.error.InvalidSecretName?
  {
  }

  /** Creating an existing name fails and leaves the table as it was;
      `create_or_update` hands the same call to `update` instead. */
  lemma CreateExisting(t: Table, key: string, name: string, value: string, now: Timestamp)
    requires IsIdentifier(name) && name in t
    ensures CreateStep(t, key, name, value, false, now) == Step(Err(SecretAlreadyExists(name)), t)
    ensures CreateStep(t, key, name, value, true, now) == UpdateStep(t, key, name, value, now)
  {
  }

  /** A fresh create inserts one row stamped `now` twice, touches nothing
      else, and reading it back gives the value. */
  lemma CreateThenGet(t: Table, key: string, name: string, value: string, force: bool, now: Timestamp)
    requires IsIdentifier(name) && name !in t
    ensures var s := CreateStep(t, key, name, value, force, now);
      && s.result == Ok(())
      && s.table.Keys == t.Keys + {name}
      && s.table[name].createdAt == now && s.table[name].updatedAt == now
      && (forall n | n in t :: s.table[n] == t[n])
      && Lookup(s.table, key, name) == Ok(value)
  {
  }

  /** `get`, `update` and `delete` of a missing name fail with
      `SecretNotFound` and change nothing, whatever the name looks like. */
  lemma MissingName(t: Table, key: string, name: string, value: string, now: Timestamp)
    requires name !in t
    ensures Lookup(t, key, name) == Err(SecretNotFound(name))
    ensures UpdateStep(t, key, name, value, now) == Step(Err(SecretNotFound(name)), t)
    ensures DeleteStep(t, name) == Step(Err(SecretNotFound(name)), t)
  {
  }

  /** `update` replaces the named row's value and `updated_at` only. */
  lemma UpdateKeepsTheRest(t: Table, key: string, name: string, value: string, now: Timestamp)
    requires name in t
    ensures var s := UpdateStep(t, key, name, value, now);
      && s.result == Ok(())
      && s.table.Keys == t.Keys
      && s.table[name].createdAt == t[name].createdAt
      && s.table[name].updatedAt == now
      && Lookup(s.table, key, name) == Ok(value)
      && (forall n | n in t && n != name :: s.table[n] == t[n])
  {
  }

  /** `delete` removes exactly the named row. */
  lemma DeleteRemovesExactly(t: Table, name: string)
    requires name in t
    ensures var s := DeleteStep(t, name);
      && s.result == Ok(())
      && s.table.Keys == t.Keys - {name}
      && (forall n | n in s.table :: s.table[n] == t[n])
  {
  }

  /** Every row of the table opens with `key`. */
  ghost predicate SealedUnder(t: Table, key: string) {
    forall n | n in t :: t[n].encryptedValue.Sealed? && t[n].encryptedValue.passphrase == key
  }

  /** The writes keep every row readable under the master key, so `get` of
      a stored name then never fails. */
  lemma WritesKeepRowsReadable(t: Table, key: string, name: string, value: string, force: bool, now: Timestamp)
    requires SealedUnder(t, key)
    ensures SealedUnder(CreateStep(t, key, name, value, force, now).table, key)
    ensures SealedUnder(UpdateStep(t, key, name, value, now).table, key)
    ensures SealedUnder(DeleteStep(t, name).table, key)
    ensures forall n | n in t :: Lookup(t, key, n).Ok?
  {
  }

  // ---------------------------------------------------------------------
  // Ordering of `list`

  /** The strict order of `ORDER BY name`: SQLite's BINARY collation compares
      the UTF-8 bytes, which orders texts by code point, a proper prefix
      first. */
  predicate Below(a: string, b: string)
    decreases |a|
  {
    if a == [] then b != []
    else if b == [] then false
    else a[0] < b[0] || (a[0] == b[0] && Below(a[1..], b[1..]))
  }

  lemma {:induction false} BelowIrreflexive(a: string)
    ensures !Below(a, a)
    decreases |a|
  {
    if a != [] {
      BelowIrreflexive(a[1..]);
    }
  }

  lemma {:induction false} BelowTransitive(a: string, b: string, c: string)
    requires Below(a, b) && Below(b, c)
    ensures Below(a, c)
    decreases |a|
  {
    if a != [] && a[0] == b[0] && b[0] == c[0] {
      BelowTransitive(a[1..], b[1..], c[1..]);
    }
  }

  lemma {:induction false} BelowTotal(a: string, b: string)
    requires a != b
    ensures Below(a, b) || Below(b, a)
    decreases |a|
  {
    if a != [] && b != [] && a[0] == b[0] {
      assert a == [a[0]] + a[1..] && b == [b[0]] + b[1..];
      BelowTotal(a[1..], b[1..]);
    }
  }

  lemma BelowAsymmetric(a: string, b: string)
    requires Below(a, b)
    ensures !Below(b, a)
  {
    if Below(b, a) {
      BelowTransitive(a, b, a);
      BelowIrreflexive(a);
    }
  }

  predicate SortedByName(s: seq<Secret>) {
    forall i, j | 0 <= i < j < |s| :: Below(s[i].name, s[j].name)
  }

  /** Places `x` among sorted entries whose names all differ from its own. */
  function InsertByName(s: seq<Secret>, x: Secret): (r: seq<Secret>)
    requires SortedByName(s)
    requires forall i | 0 <= i < |s| :: s[i].name != x.name
    ensures SortedByName(r)
    ensures |r| == |s| + 1
    ensures forall y :: y in r <==> y in s || y == x
  {
    if s == [] then [x]
    else if Below(x.name, s[0].name) then
      assert SortedByName([x] + s) by {
        forall j | 1 <= j < |s| {
          BelowTransitive(x.name, s[0].name, s[j].name);
        }
      }
      [x] + s
    else
      BelowTotal(x.name, s[0].name);
      var rest := InsertByName(s[1..], x);
      assert forall y | y in rest :: Below(s[0].name, y.name) by {
        forall y | y in rest
          ensures Below(s[0].name, y.name)
        {
          if y != x {
            var j :| 0 <= j < |s[1..]| && s[1..][j] == y;
            assert s[j + 1] == y;
          }
        }
      }
      [s[0]] + rest
  }

  /** The first entry of a sorted listing is below every other entry. */
  lemma SortedHead(a: seq<Secret>, y: Secret)
    requires SortedByName(a) && y in a && y != a[0]
    ensures Below(a[0].name, y.name)
  {
    var k :| 0 <= k < |a| && a[k] == y;
  }

  /** The tail of a sorted listing holds every entry but the first. */
  lemma SortedTail(a: seq<Secret>, y: Secret)
    requires SortedByName(a) && a != []
    ensures y in a[1..] <==> y in a && y != a[0]
  {
    if y in a[1..] {
      var k :| 0 <= k < |a[1..]| && a[1..][k] == y;
      assert Below(a[0].name, a[k + 1].name);
      BelowIrreflexive(a[0].name);
    }
    if y in a && y != a[0] {
      var k :| 0 <= k < |a| && a[k] == y;
      assert a[1..][k - 1] == y;
    }
  }

  lemma FirstIsMember(a: seq<Secret>)
    ensures a != [] ==> a[0] in a
  {
  }

  /** Two sorted listings of the same entries are the same listing: `list`
      is stable across calls with no write in between. */
  lemma {:induction false} SortedListingUnique(a: seq<Secret>, b: seq<Secret>)
    requires SortedByName(a) && SortedByName(b)
    requires forall y :: y in a <==> y in b
    ensures a == b
    decreases |a|
  {
    if a != [] && b != [] {
      assert a[0] in a && b[0] in b;
      if a[0] != b[0] {
        SortedHead(b, a[0]);
        SortedHead(a, b[0]);
        BelowAsymmetric(a[0].name, b[0].name);
        assert false;
      }
      forall y
        ensures y in a[1..] <==> y in b[1..]
      {
        SortedTail(a, y);
        SortedTail(b, y);
      }
      SortedListingUnique(a[1..], b[1..]);
      assert a == [a[0]] + a[1..] && b == [b[0]] + b[1..];
    } else {
      FirstIsMember(a);
      FirstIsMember(b);
    }
  }

  // ---------------------------------------------------------------------
  // The store and the handle

  /** The SQLite file: the `secrets` table and the `schema_version` row of
      the `metadata` table (`None` while that row is missing). */
  class SecretsDb {
    var secrets: Table
    var schemaVersion: Option<int>

    constructor (secrets: Table, schemaVersion: Option<int>)
      ensures this.secrets == secrets && this.schemaVersion == schemaVersion
    {
      this.secrets := secrets;
      this.schemaVersion := schemaVersion;
    }

    /** `init_schema_version`: insert the version row on first use, raise an
        older version, keep a current one. */
    method InitSchemaVersion()
      modifies this
      ensures secrets == old(secrets)
      ensures schemaVersion == Some(SchemaVersionAfter(old(schemaVersion)))
    {
      match schemaVersion
      case None =>
        schemaVersion := Some(SchemaVersion);
      case Some(v) =>
        if v < SchemaVersion {
          schemaVersion := Some(SchemaVersion);
        }
    }
  }

  /** An open vault: its connection and the master key it resolved. */
  class Vault {
    const conn: SecretsDb
    const masterKey: string

    constructor Connect(conn: SecretsDb, masterKey: string)
      ensures this.conn == conn && this.masterKey == masterKey
    {
      this.conn := conn;
      this.masterKey := masterKey;
    }

    /** `Vault::open` on an existing or empty store: the schema version is
        settled first, then the master key (the outcome of
        `Keychain.GetOrCreateMasterKey`) is taken or its error returned. */
    static method Open(conn: SecretsDb, masterKey: Result<string>) returns (r: Result<Vault>)
      modifies conn
      ensures conn.secrets == old(conn.secrets)
      ensures conn.schemaVersion == Some(SchemaVersionAfter(old(conn.schemaVersion)))
      ensures masterKey.Err? ==> r == Err(masterKey.error)
      ensures masterKey.Ok? ==> r.Ok? && fresh(r.value)
      ensures masterKey.Ok? ==> r.value.conn == conn && r.value.masterKey == masterKey.value
    {
      conn.InitSchemaVersion();
      if masterKey.Err? {
        return Err(masterKey.error);
      }
      var v := new Vault.Connect(conn, masterKey.value);
      return Ok(v);
    }

    /** `create`: never overwrites. */
    method Create(name: string, value: string, now: Timestamp) returns (r: Result<()>)
      modifies conn
      ensures var s := CreateStep(old(conn.secrets), masterKey, name, value, false, now);
        r == s.result && conn.secrets == s.table
      ensures conn.schemaVersion == old(conn.schemaVersion)
    {
      r := CreateInternal(name, value, false, now);
    }

    /** `create_or_update`: an existing name is updated instead. */
    method CreateOrUpdate(name: string, value: string, now: Timestamp) returns (r: Result<()>)
      modifies conn
      ensures var s := CreateStep(old(conn.secrets), masterKey, name, value, true, now);
        r == s.result && conn.secrets == s.table
      ensures conn.schemaVersion == old(conn.schemaVersion)
    {
      r := CreateInternal(name, value, true, now);
    }

    /** `create_internal`. */
    method CreateInternal(name: string, value: string, force: bool, now: Timestamp) returns (r: Result<()>)
      modifies conn
      ensures var s := CreateStep(old(conn.secrets), masterKey, name, value, force, now);
        r == s.result && conn.secrets == s.table
      ensures conn.schemaVersion == old(conn.schemaVersion)
    {
      var valid := ValidateName(name);
      if valid.Err? {
        return Err(valid.error);
      }
      var present := Exists(name);
      if present {
        if force {
          r := Update(name, value, now);
          return;
        }
        return Err(SecretAlreadyExists(name));
      }
      var encrypted := Crypto.Encrypt(value, masterKey);
      conn.secrets := conn.secrets[name := Record(encrypted, now, now)];
      r := Ok(());
    }

    /** `get`. */
    method Get(name: string) returns (r: Result<string>)
      ensures r == Lookup(conn.secrets, masterKey, name)
      ensures r.Ok? ==> name in conn.secrets
      ensures name !in conn.secrets ==> r == Err(SecretNotFound(name))
    {
      if name !in conn.secrets {
        return Err(SecretNotFound(name));
      }
      var encrypted := conn.secrets[name].encryptedValue;
      r := Crypto.Decrypt(encrypted, masterKey);
    }

    /** `list`: one entry per row, ascending by name, metadata only. */
    method List() returns (secrets: seq<Secret>)
      ensures SortedByName(secrets)
      ensures |secrets| == |conn.secrets|
      ensures forall i | 0 <= i < |secrets| ::
        secrets[i].name in conn.secrets && secrets[i] == MetadataOf(conn.secrets, secrets[i].name)
      ensures forall name | name in conn.secrets :: MetadataOf(conn.secrets, name) in secrets
    {
      var table := conn.secrets;
      var remaining := table.Keys;
      secrets := [];
      while remaining != {}
        invariant remaining <= table.Keys
        invariant SortedByName(secrets)
        invariant |secrets| + |remaining| == |table|
        invariant forall i | 0 <= i < |secrets| ::
          secrets[i].name in table && secrets[i].name !in remaining && secrets[i] == MetadataOf(table, secrets[i].name)
        invariant forall name | name in table && name !in remaining :: MetadataOf(table, name) in secrets
        decreases remaining
      {
        var name :| name in remaining;
        var before := secrets;
        secrets := InsertByName(secrets, MetadataOf(table, name));
        forall i | 0 <= i < |secrets|
          ensures secrets[i].name in table && secrets[i].name != name ==> secrets[i].name !in remaining
          ensures secrets[i].name in table && secrets[i] == MetadataOf(table, secrets[i].name)
        {
          assert secrets[i] in secrets;
          if secrets[i] != MetadataOf(table, name) {
            var k :| 0 <= k < |before| && before[k] == secrets[i];
          }
        }
        remaining := remaining - {name};
      }
    }

    /** `delete`: zero affected rows is `SecretNotFound`. */
    method Delete(name: string) returns (r: Result<()>)
      modifies conn
      ensures var s := DeleteStep(old(conn.secrets), name);
        r == s.result && conn.secrets == s.table
      ensures conn.schemaVersion == old(conn.schemaVersion)
    {
      var rows := if name in conn.secrets then 1 else 0;
      conn.secrets := conn.secrets - {name};
      if rows == 0 {
        return Err(SecretNotFound(name));
      }
      r := Ok(());
    }

    /** `exists`. */
    method Exists(name: string) returns (b: bool)
      ensures b <==> name in conn.secrets
    {
      var count := if name in conn.secrets then 1 else 0;
      b := count > 0;
    }

    /** `update`: a missing name is `SecretNotFound`. */
    method Update(name: string, value: string, now: Timestamp) returns (r: Result<()>)
      modifies conn
      ensures var s := UpdateStep(old(conn.secrets), masterKey, name, value, now);
        r == s.result && conn.secrets == s.table
      ensures conn.schemaVersion == old(conn.schemaVersion)
    {
      var present := Exists(name);
      if !present {
        return Err(SecretNotFound(name));
      }
      var encrypted := Crypto.Encrypt(value, masterKey);
      conn.secrets := conn.secrets[name := conn.secrets[name].(encryptedValue := encrypted, updatedAt := now)];
      r := Ok(());
    }
  }
}
