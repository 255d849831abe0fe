/** The start-up guard on `ENCRYPTION_KEY`. The environment lookup is a
    parameter: `None` when the variable is unset. */
module Config {
  import opened Wrappers
  import Hex
  import opened Aead

  /** The guard prints a fatal message and exits with status 1. */
  datatype ConfigError = KeyMissingOrInvalid

  /** Number of hex digits in the configured key. */
  const KeyHexLength: nat := 2 * KeyLength

  /** The guard as written: the key string is accepted exactly when it is
      present and 64 characters long; its characters are not inspected. */
  function LoadKeyString(env: Option<string>): (r: Result<string, ConfigError>)
    ensures r.Success? <==> env.Some? && |env.value| == KeyHexLength
    ensures r.Success? ==> r.value == env.value
  {
    if env.None? || |env.value| != KeyHexLength then Failure(KeyMissingOrInvalid)
    else Success(env.value)
  }

  /** The guard as its message describes it ("a 64-character hex string"):
      the string must also be hex, and the result is the 256-bit key it
      encodes, whose hex rendering is the configured string in lower case. */
  function LoadKey(env: Option<string>): (r: Result<Key, ConfigError>)
    ensures r.Success? <==> env.Some? && |env.value| == KeyHexLength && Hex.IsHex(env.value)
    ensures r.Success? ==> Hex.Encode(r.value) == Hex.ToLower(env.value)
  {
    if env.None? || |env.value| != KeyHexLength || !Hex.IsHex(env.value) then Failure(KeyMissingOrInvalid)
    else
      Hex.EncodeDecode(env.value);
      Success(Hex.Decode(env.value))
  }

  /** The corrected guard only narrows the original: every key it accepts
      passes the length check too. */
  lemma LoadKeyRefinesGuard(env: Option<string>)
    ensures LoadKey(env).Success? ==> LoadKeyString(env).Success?
  {
  }

  /** Sixty-four `z` characters: present, 64 long, not hex. */
  function NonHexKey(): (s: string)
    ensures |s| == KeyHexLength && !Hex.IsHex(s)
  {
    var s := seq(KeyHexLength, _ => 'z');
    assert !Hex.IsHexDigit(s[0]);
    s
  }

  /** The guard as written lets a non-hex key through; the corrected guard
      stops it at start-up. */
  lemma {:induction false} GuardAcceptsNonHexKey()
    ensures LoadKeyString(Some(NonHexKey())).Success?
    ensures LoadKey(Some(NonHexKey())).Failure?
  {
  }
}
