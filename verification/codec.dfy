/** `encrypt` and `decrypt`: the envelope built around one AES-256-GCM
    operation and carried as lower-case hex. The key is passed explicitly
    and the random IV is a parameter. */
module Codec {
  import opened Bytes
  import opened Wrappers
  import Hex
  import opened Envelope
  import opened Aead

  /** `encrypt(text)` with `iv` in place of `crypto.randomBytes(16)`. The
      result is well-formed lower-case hex that decodes to the IV, the tag
      and the ciphertext, in that order; its length is twice the 32-byte
      header plus the ciphertext. */
  function Encrypt(a: Aead, key: Key, iv: Iv, text: Bytes): (r: string)
    ensures Hex.IsLowerHex(r) && Hex.IsHex(r)
    ensures |r| == 2 * (HeaderLength + |a.seal(key, iv, text).ct|)
    ensures Hex.Decode(r) == iv + a.seal(key, iv, text).tag + a.seal(key, iv, text).ct
  {
    var s := a.seal(key, iv, text);
    var data := Frame(iv, s.tag, s.ct);
    Hex.DecodeEncode(data);
    Hex.Encode(data)
  }

  /** `decrypt(hex)` on well-formed hex: the decoded buffer is cut at the
      fixed offsets 16 and 32, clamped to its length, and the pieces go to
      the cipher. The result is `None` (JavaScript `null`) exactly when the
      cipher rejects, and otherwise exactly what the cipher released. */
  function Decrypt(a: Aead, key: Key, hex: string): (r: Option<Bytes>)
    requires Hex.IsHex(hex)
    ensures var data := Hex.Decode(hex);
      var n := |data|;
      var released := a.open(key, data[..Min(IvLength, n)], data[Min(IvLength, n)..Min(HeaderLength, n)], data[Min(HeaderLength, n)..]);
      (r.None? <==> released.None?) && (r.Some? ==> r.value == released.value)
  {
    var data := Hex.Decode(hex);
    var f := Parse(data);
    a.open(key, f.iv, f.tag, f.ct)
  }

  /** Round trip: under a correct cipher, decrypting an envelope returns the
      plaintext that was encrypted, for every key, IV and plaintext. */
  lemma {:induction false} DecryptEncrypt(a: Aead, key: Key, iv: Iv, text: Bytes)
    requires Correct(a)
    ensures Hex.IsHex(Encrypt(a, key, iv, text))
    ensures Decrypt(a, key, Encrypt(a, key, iv, text)) == Some(text)
  {
  }

  /** The envelope's fields are the supplied IV, the cipher's tag and the
      cipher's ciphertext. */
  lemma {:induction false} EnvelopeFields(a: Aead, key: Key, iv: Iv, text: Bytes)
    ensures var s := a.seal(key, iv, text);
      Parse(Hex.Decode(Encrypt(a, key, iv, text))) == Fields(iv, s.tag, s.ct)
  {
  }

  /** With a length-preserving cipher the hex envelope is 64 digits of IV
      and tag followed by two digits per plaintext byte. */
  lemma {:induction false} EncryptLength(a: Aead, key: Key, iv: Iv, text: Bytes)
    requires LengthPreserving(a)
    ensures |Encrypt(a, key, iv, text)| == 2 * HeaderLength + 2 * |text|
  {
  }

  /** Tamper rejection: when the cipher refuses the fields of an envelope,
      `decrypt` returns `null`, never a partial plaintext. */
  lemma {:induction false} RejectedEnvelopeIsNull(a: Aead, key: Key, iv: Iv, tag: Tag, ct: Bytes)
    requires a.open(key, iv, tag, ct).None?
    ensures Hex.IsHex(Hex.Encode(Frame(iv, tag, ct)))
    ensures Decrypt(a, key, Hex.Encode(Frame(iv, tag, ct))) == None
  {
    Hex.DecodeEncode(Frame(iv, tag, ct));
    ParseFrame(iv, tag, ct);
  }
}
