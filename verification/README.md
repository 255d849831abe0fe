# security-module: the AES-GCM envelope, key guard and input validator in Dafny

`src/advanced-security.js` encrypts a note with AES-256-GCM and stores the
result as a hex string. It also refuses to start without a 64-character
`ENCRYPTION_KEY`, and it screens user names with a character blocklist. This
project models the parts of that file that the repository owns:

- **The envelope** (`encrypt` / `decrypt`). `encrypt` concatenates a 16-byte
  IV, the 16-byte GCM tag and the ciphertext. It then renders the result as
  lower-case base16 (section 8 of RFC 4648). `decrypt` reverses the hex, slices
  the buffer at the fixed offsets 16 and 32, and hands the three pieces to the
  cipher. It turns an authentication failure into `null`. The slicing has
  JavaScript `Buffer.slice` semantics: offsets are clamped to the buffer
  length.
- **The cipher** is AES-256-GCM (NIST SP 800-38D) from Node's `crypto`
  library, and it is not modelled. `Aead.Aead` is a pair of total functions,
  `seal` and `open`. Two predicates state what the envelope code assumes of
  them:
  - `Aead.Correct`: opening what was sealed releases the plaintext.
  - `Aead.LengthPreserving`: the ciphertext is as long as the plaintext.
  
  The lemmas that depend on these assumptions require them. `Aead.Transparent`
  is a trivial stand-in that shows the two assumptions can hold together.
- **The key guard** at start-up and **`validateInput`**.

The modules are:
- `Wrappers`: `Option` stands for `null`; `Result` stands for the fatal exit.
- `Bytes`: the `byte` type.
- `Hex`: the base16 codec.
- `Envelope`: the byte layout.
- `Aead`: the abstract cipher.
- `Codec`: `encrypt` and `decrypt`.
- `Config`: the key guard.
- `Validation`: `validateInput`.

The module-level key is passed to `Encrypt`/`Decrypt` as a parameter, and so
is the IV that `crypto.randomBytes` would supply.

`decrypt` has no length check: a buffer shorter than 32 bytes is sliced all
the same, and the slices go to the cipher (`Envelope.ParseWidths`). Below 16
bytes the IV slice is short and the tag slice empty; from 16 to 31 bytes the IV
slice is full width and only the tag slice is short. The ciphertext slice is
empty in both cases.

## Model

| member | source | states |
|---|---|---|
| `Hex.Encode` | src/advanced-security.js:31 | `toString("hex")` writes byte `i` as the two lower-case digits at positions `2i` and `2i+1`: its high nibble, then its low nibble; the string is twice as long as the bytes |
| `Hex.Decode` | src/advanced-security.js:35 | `Buffer.from(s, "hex")` on well-formed hex gives one byte per pair of digits; byte `i` is 16 times the value of digit `2i` plus the value of digit `2i+1`, in either case |
| `Hex.DecodeEncode` | src/advanced-security.js:31-35 | the rendering of any byte sequence is well-formed hex and decodes back to exactly those bytes |
| `Hex.EncodeDecode` | src/advanced-security.js:31-35 | re-encoding the bytes of any well-formed hex string gives the string back, folded to lower case |
| `Envelope.Frame` | src/advanced-security.js:31 | `Buffer.concat([iv, authTag, encrypted])`: the result is as long as the three fields together and holds the IV first, then the tag, then the ciphertext |
| `Envelope.Parse` | src/advanced-security.js:36-38 | the three slices are the first `min(16, n)` bytes, the bytes from `min(16, n)` to `min(32, n)`, and the rest from `min(32, n)`, for a buffer of any length `n` |
| `Envelope.Slice` | src/advanced-security.js:36-38 | `buf.slice(start, end)` clamps both offsets to the buffer: the length is the clamped difference or 0, and byte `i` is byte `start + i` of the buffer |
| `Envelope.ParsePartition` | src/advanced-security.js:36-38 | for every buffer, IV, tag and ciphertext slices concatenate back to the buffer, with `\|iv\| = min(16, n)`, `\|tag\| = min(16, max(0, n-16))`, `\|ct\| = max(0, n-32)` |
| `Envelope.ParseFrame` | src/advanced-security.js:31-38 | slicing the concatenation of a 16-byte IV, a 16-byte tag and any ciphertext recovers exactly those three fields |
| `Envelope.ParseWidths` | src/advanced-security.js:36-38 | a buffer of 32 bytes or more yields full-width IV and tag; a shorter one yields a short tag and an empty ciphertext rather than an error |
| `Codec.Encrypt` | src/advanced-security.js:23-31 | the envelope is well-formed lower-case hex of length `2*(32 + \|ct\|)` and decodes to IV, then tag, then ciphertext |
| `Codec.Decrypt` | src/advanced-security.js:34-50 | the result is `null` exactly when the cipher rejects the fields cut from the decoded buffer at the clamped offsets 16 and 32; otherwise it is what the cipher released |
| `Codec.DecryptEncrypt` | src/advanced-security.js:23-45 | under a correct cipher, decrypting the envelope of any plaintext under any key and IV returns that plaintext |
| `Codec.EnvelopeFields` | src/advanced-security.js:24-31 | the envelope's IV field is the supplied IV, and its tag and ciphertext fields are the cipher's |
| `Codec.EncryptLength` | src/advanced-security.js:17-31 | with a length-preserving cipher the envelope is 64 hex digits plus two per plaintext byte |
| `Codec.RejectedEnvelopeIsNull` | src/advanced-security.js:43-50 | if the cipher rejects an envelope's fields, `decrypt` returns `null` and no plaintext at all |
| `Config.LoadKeyString` | src/advanced-security.js:9-14 | the key string is accepted exactly when it is present and 64 characters long, and it is passed through unchanged |
| `Config.LoadKey` | src/advanced-security.js:9-15 | corrected guard: accepts exactly the present, 64-character hex strings, and yields the 32-byte key whose hex is that string in lower case |
| `Config.LoadKeyRefinesGuard` | src/advanced-security.js:9-14 | every key the corrected guard accepts also passes the original length check |
| `Config.GuardAcceptsNonHexKey` | src/advanced-security.js:10-11 | 64 `z` characters pass the guard as written although they are not hex; the corrected guard rejects them |
| `Validation.ContainsSuspicious` | src/advanced-security.js:57-58 | the regular-expression test matches exactly when some character of the input is one of `'` `"` `;` `` ` `` `-` |
| `Validation.ValidateInput` | src/advanced-security.js:56-64 | the verdict is unsafe, with reason "Suspicious characters detected", exactly when the input contains a listed character; otherwise it is safe with reason "Input appears safe" |
| `Validation.ValidateConcat` | src/advanced-security.js:57-58 | a concatenation is safe exactly when both parts are safe |
| `Validation.SingleHyphenRejected` | src/advanced-security.js:57 | one hyphen alone makes an input unsafe (a character class matches single characters; listing `\-` twice is redundant); `Aaron` is safe |

## Findings

| source | as written | input that shows it | evidently intended | confidence | as-written member | corrected member |
|---|---|---|---|---|---|---|
| src/advanced-security.js:10 | the guard checks only that `ENCRYPTION_KEY` is present and 64 characters long | 64 `z` characters: accepted, yet not hex, so `Buffer.from(keyHex, "hex")` cannot give a 32-byte key | accept only a 64-digit hex string, as the guard's own message says, so the key is 256 bits and an unusable key is rejected at start-up | not executed; high for the accepted input; the later failure comes from the library | `Config.GuardAcceptsNonHexKey` | `Config.LoadKey` |

`Codec` takes a `Key`, the 32-byte type that `Config.LoadKey` yields.

## Left out

- AES-256-GCM itself (`createCipheriv`, `createDecipheriv`, `getAuthTag`, `setAuthTag`, `update`, `final`) belongs to Node's crypto library. It is the abstract `Aead.Aead`. `Aead.Correct` and `Aead.LengthPreserving` are assumptions that lemmas require, not proved facts. Tamper detection and wrong-key rejection are properties of the cipher, so the model states only what `decrypt` does once the cipher rejects.
- `crypto.randomBytes(16)` is randomness, so the IV is a parameter of `Codec.Encrypt`. IV freshness across calls is not stated.
- UTF-8 encoding of the plaintext and UTF-8 decoding of the result are library behaviour. Plaintext is raw bytes.
- Codec.Encrypt: takes a 32-byte `Key`, the key that `Config.LoadKey` yields. With the guard as written, line 15's `Buffer.from(keyHex, "hex")` can return a shorter key for a 64-character non-hex string, and `createCipheriv`/`createDecipheriv` then throw. That library error is not modelled; the same holds for `Codec.Decrypt`.
- Codec.Decrypt: requires well-formed hex. What `Buffer.from` does with an odd length or non-hex characters is library-specific truncation.
- Codec.Decrypt: a too-short IV or tag reaches `createDecipheriv`/`setAuthTag` outside the `try` and can throw uncaught. This is library behaviour and is not modelled. The cipher's `open` receives the short fields instead.
- The `console.error` message on a decryption failure (line 48) is console output.
- Constant-time and uniform failure reporting are cipher properties, not code in this file.
- Config.LoadKeyString: counts length in Unicode characters, while JavaScript counts UTF-16 code units. The two differ only for characters outside the Basic Multilingual Plane.
- Config.LoadKeyString: the `dotenv` load and the `process.env` read are environment I/O. The variable's value is a parameter: `None` when it is unset.
- Config.LoadKeyString: the fatal `console.error` and `process.exit(1)` are one error value.
- `checkConsent` (lines 67-75) and the CLI demo (lines 86-110) are interactive `readline` I/O, console output and `process.exit`.
- The `module.exports` table (lines 78-83) is module wiring.
- src/test-final-demo.js imports `./final-demo`, which is not part of this model. It calls functions that `src/advanced-security.js` does not define, and it only prints. Only its user name `Aaron` appears here, in `Validation.SingleHyphenRejected`.
