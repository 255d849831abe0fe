/** AES-256-GCM (NIST SP 800-38D) seen from outside: an authenticated
    encryption pair whose internals belong to the crypto library. Nothing
    about the cipher is proved; what the envelope code relies on is stated
    as the predicates below, which the lemmas that need them require. */
module Aead {
  import opened Bytes
  import opened Wrappers
  import opened Envelope

  const KeyLength: nat := 32

  /** A 256-bit key. */
  type Key = s: Bytes | |s| == KeyLength witness seq(KeyLength, _ => 0)

  /** What one encryption yields: `cipher.update(..) + cipher.final()` and
      `cipher.getAuthTag()`, whose default length under GCM is 16 bytes. */
  datatype Sealed = Sealed(ct: Bytes, tag: Tag)

  /** `seal` stands for `createCipheriv`/`update`/`final`/`getAuthTag`;
      `open` for `createDecipheriv`/`setAuthTag`/`update`/`final`, with
      `None` where `final` throws because the tag does not verify. `open`
      takes fields of any width, as `decrypt` may hand it short ones. */
  datatype Aead = Aead(
    seal: (Key, Iv, Bytes) -> Sealed,
    open: (Key, Bytes, Bytes, Bytes) -> Option<Bytes>)

  /** Decryption correctness of the cipher: opening what was sealed under
      the same key and IV releases the plaintext. */
  ghost predicate Correct(a: Aead) {
    forall k: Key, iv: Iv, p: Bytes ::
      a.open(k, iv, a.seal(k, iv, p).tag, a.seal(k, iv, p).ct) == Some(p)
  }

  /** GCM is a counter-mode cipher: the ciphertext is as long as the
      plaintext. */
  ghost predicate LengthPreserving(a: Aead) {
    forall k: Key, iv: Iv, p: Bytes :: |a.seal(k, iv, p).ct| == |p|
  }

  /** A transparent stand-in cipher (it encrypts nothing) that uses the IV as
      tag; it shows that the two assumptions can hold together. */
  function Transparent(): Aead {
    Aead((k: Key, iv: Iv, p: Bytes) => Sealed(p, iv),
         (k: Key, iv: Bytes, tag: Bytes, ct: Bytes) => if tag == iv then Some(ct) else None)
  }

  lemma AssumptionsSatisfiable()
    ensures Correct(Transparent()) && LengthPreserving(Transparent())
  {
  }
}
