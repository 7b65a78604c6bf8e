/** The passphrase box of src/crypto.rs, modelled symbolically: a ciphertext
    remembers the passphrase it was sealed under and the plaintext it hides,
    and only that passphrase opens it. This is the round-trip and
    wrong-passphrase behaviour the `age` wrapper provides; key derivation,
    salts and the byte format are not modelled. */
module Crypto {
  import opened Errors

  datatype Ciphertext =
    | Sealed(passphrase: string, plaintext: string)
      /** A blob that is not an age file at all (a corrupt column). */
    | Malformed(bytes: seq<bv8>)

  const NotAgeFile := "header is invalid"
  const NoMatchingKey := "no matching keys found"

  /** `crypto::encrypt(value.as_bytes(), passphrase)`. */
  function Encrypt(plaintext: string, passphrase: string): (c: Ciphertext)
    ensures c.Sealed? && c.passphrase == passphrase
  {
    Sealed(passphrase, plaintext)
  }

  /** `crypto::decrypt` followed by the UTF-8 check of `Vault::get`. */
  function Decrypt(c: Ciphertext, passphrase: string): (r: Result<string>)
    ensures r.Ok? <==> c.Sealed? && c.passphrase == passphrase
    ensures r.Err? ==> r.error.Decryption?
  {
    match c
    case Malformed(_) => Err(Decryption(NotAgeFile))
    case Sealed(p, m) => if p == passphrase then Ok(m) else Err(Decryption(NoMatchingKey))
  }

  /** Decrypting with the passphrase used to encrypt gives the plaintext
      back, the empty plaintext included. */
  lemma RoundTrip(plaintext: string, passphrase: string)
    ensures Decrypt(Encrypt(plaintext, passphrase), passphrase) == Ok(plaintext)
  {
  }

  /** Any other passphrase fails with a decryption error. */
  lemma WrongPassphraseFails(plaintext: string, passphrase: string, other: string)
    requires other != passphrase
    ensures Decrypt(Encrypt(plaintext, passphrase), other).Err?
  {
  }
}
