/** Where the vault's master key comes from (src/keychain.rs): the system
    keychain, a generated key stored there on first use, and, when the
    keychain cannot be used, the `SECRET_AGENT_PASSPHRASE` variable or a
    passphrase typed at a prompt. The keychain, the environment, the
    prompt and the random generator are outside the model: what each of
    them answers is passed in. */
module Keychain {
  import opened Errors
  import SecretGen
  import Text

  const ServiceName: string := "secret-agent"
  const MasterKeyName: string := "master-key"
  const MasterKeyLength: nat := 32

  /** What reading the `master-key` entry gives (`get_from_keychain`). */
  datatype KeychainRead =
    | Stored(key: string)
    /** `keyring::Error::NoEntry`: nothing stored yet. */
    | NoEntry
    /** The entry could not be opened or read; the message of the error. */
    | Unavailable(message: string)

  /** What the passphrase prompt gives: the typed text, or the I/O error of
      the terminal. */
  datatype PromptRead = Typed(passphrase: string) | PromptFailed(message: string)

  /** What deleting the entry gives (`delete_credential`). */
  datatype DeleteOutcome = Deleted | NothingToDelete | DeleteFailed(message: string)

  /** The result of `get_or_create_master_key`, with the key it hands to
      the keychain to store, if any. */
  datatype KeyDecision = KeyDecision(result: Result<string>, stored: Option<string>)

  /** `prompt_for_passphrase`: an empty passphrase is refused. */
  function PromptForPassphrase(prompt: PromptRead): (r: Result<string>)
    ensures r.Ok? <==> prompt.Typed? && prompt.passphrase != []
    ensures r.Ok? ==> r.value == prompt.passphrase
    ensures prompt.PromptFailed? ==> r == Err(Io(prompt.message))
    ensures prompt == Typed([]) ==> r == Err(Keychain("passphrase cannot be empty"))
  {
    match prompt
    case PromptFailed(m) => Err(Io(m))
    case Typed(p) =>
      if p == [] then Err(Keychain("passphrase cannot be empty")) else Ok(p)
  }

  /** `get_or_create_master_key`. `draws` are the generator's indices for a
      new key, `storeError` the message of a failed `set_password`,
      `envPassphrase` the variable when it is set. */
  function GetOrCreateMasterKey(read: KeychainRead, draws: seq<nat>, storeError: Option<string>,
                                envPassphrase: Option<string>, prompt: PromptRead): (d: KeyDecision)
    requires read.NoEntry? ==> SecretGen.ValidDraws(draws, MasterKeyLength, SecretGen.Alphanumeric)
    ensures read.Stored? ==> d == KeyDecision(Ok(read.key), None)
    ensures d.stored.Some? <==> read.NoEntry?
    ensures read.NoEntry? ==>
      d.stored == Some(SecretGen.Generate(MasterKeyLength, SecretGen.Alphanumeric, draws))
      && (d.result.Ok? <==> storeError.None?)
      && (d.result.Ok? ==> d.result.value == d.stored.value)
      && (storeError.Some? ==> d.result == Err(Keychain(storeError.value)))
    ensures read.Unavailable? ==>
      d.result == if envPassphrase.Some? then Ok(envPassphrase.value) else PromptForPassphrase(prompt)
  {
    match read
    case Stored(key) => KeyDecision(Ok(key), None)
    case NoEntry =>
      var key := SecretGen.Generate(MasterKeyLength, SecretGen.Alphanumeric, draws);
      var result := if storeError.Some? then Err(Keychain(storeError.value)) else Ok(key);
      KeyDecision(result, Some(key))
    case Unavailable(_) =>
      if envPassphrase.Some? then KeyDecision(Ok(envPassphrase.value), None)
      else KeyDecision(PromptForPassphrase(prompt), None)
  }

  /** A key generated on first use is 32 ASCII letters and digits. */
  lemma NewKeyShape(draws: seq<nat>, storeError: Option<string>, envPassphrase: Option<string>, prompt: PromptRead)
    requires SecretGen.ValidDraws(draws, MasterKeyLength, SecretGen.Alphanumeric)
    ensures var d := GetOrCreateMasterKey(NoEntry, draws, storeError, envPassphrase, prompt);
      |d.stored.value| == 32 && forall x | x in d.stored.value :: Text.IsAsciiAlphanumeric(x)
  {
    SecretGen.AlphanumericOutput(MasterKeyLength, draws);
  }

  /** The variable and the prompt are looked at only when the keychain
      cannot be used: on a hit or a miss they change nothing. */
  lemma FallbackOnlyOnError(read: KeychainRead, draws: seq<nat>, storeError: Option<string>,
                            env1: Option<string>, prompt1: PromptRead, env2: Option<string>, prompt2: PromptRead)
    requires read.NoEntry? ==> SecretGen.ValidDraws(draws, MasterKeyLength, SecretGen.Alphanumeric)
    requires !read.Unavailable?
    ensures GetOrCreateMasterKey(read, draws, storeError, env1, prompt1)
         == GetOrCreateMasterKey(read, draws, storeError, env2, prompt2)
  {
  }

  /** A key that the prompt supplies is never empty; the other sources are
      taken verbatim, so only they can give an empty key. */
  lemma EmptyKeyNotFromPrompt(read: KeychainRead, draws: seq<nat>, storeError: Option<string>,
                              envPassphrase: Option<string>, prompt: PromptRead)
    requires read.NoEntry? ==> SecretGen.ValidDraws(draws, MasterKeyLength, SecretGen.Alphanumeric)
    ensures var d := GetOrCreateMasterKey(read, draws, storeError, envPassphrase, prompt);
      d.result == Ok([]) ==> read == Stored([]) || (read.Unavailable? && envPassphrase == Some([]))
  {
  }

  /** `delete_master_key`: an entry that is already gone is not an error. */
  function DeleteMasterKey(outcome: DeleteOutcome): (r: Result<()>)
    ensures r.Ok? <==> !outcome.DeleteFailed?
    ensures outcome.DeleteFailed? ==> r == Err(Keychain(outcome.message))
  {
    match outcome
    case Deleted => Ok(())
    case NothingToDelete => Ok(())
    case DeleteFailed(m) => Err(Keychain(m))
  }
}
