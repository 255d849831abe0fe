/** Base16 ("hex") encoding, section 8 of RFC 4648, in the form Node.js uses
    for `buf.toString("hex")` (lower-case output) and `Buffer.from(s, "hex")`
    (either case accepted on input). */
module Hex {
  import opened Bytes

  predicate IsHexDigit(c: char) {
    ('0' <= c <= '9') || ('a' <= c <= 'f') || ('A' <= c <= 'F')
  }

  predicate IsLowerHexDigit(c: char) {
    ('0' <= c <= '9') || ('a' <= c <= 'f')
  }

  /** A well-formed hex string: an even number of hex digits of either case. */
  predicate IsHex(s: string) {
    |s| % 2 == 0 && forall i :: 0 <= i < |s| ==> IsHexDigit(s[i])
  }

  /** A hex string as the encoder writes it: every digit lower-case. */
  predicate IsLowerHex(s: string) {
    |s| % 2 == 0 && forall i :: 0 <= i < |s| ==> IsLowerHexDigit(s[i])
  }

  /** The value of one hex digit. */
  function DigitValue(c: char): (v: int)
    requires IsHexDigit(c)
    ensures 0 <= v < 16
  {
    if '0' <= c <= '9' then c as int - '0' as int
    else if 'a' <= c <= 'f' then c as int - 'a' as int + 10
    else c as int - 'A' as int + 10
  }

  /** The lower-case digit of a value below 16. */
  function Digit(n: int): (c: char)
    requires 0 <= n < 16
    ensures IsLowerHexDigit(c) && DigitValue(c) == n
  {
    if n < 10 then (n + '0' as int) as char else (n - 10 + 'a' as int) as char
  }

  /** Case folding restricted to hex digits: `A`..`F` become `a`..`f`. */
  function LowerDigit(c: char): (d: char)
    requires IsHexDigit(c)
    ensures IsLowerHexDigit(d) && DigitValue(d) == DigitValue(c)
  {
    if 'A' <= c <= 'F' then (c as int - 'A' as int + 'a' as int) as char else c
  }

  function ToLower(s: string): (r: string)
    requires IsHex(s)
    ensures IsLowerHex(r) && |r| == |s|
  {
    seq(|s|, i requires 0 <= i < |s| => LowerDigit(s[i]))
  }

  /** `buf.toString("hex")`: two lower-case digits per byte, high nibble first. */
  function Encode(b: Bytes): (r: string)
    ensures |r| == 2 * |b|
    ensures IsLowerHex(r)
    ensures forall i :: 0 <= i < |b| ==>
      r[2 * i] == Digit(b[i] as int / 16) && r[2 * i + 1] == Digit(b[i] as int % 16)
  {
    if |b| == 0 then []
    else [Digit(b[0] as int / 16), Digit(b[0] as int % 16)] + Encode(b[1..])
  }

  /** `Buffer.from(s, "hex")` on a well-formed hex string. */
  function Decode(s: string): (r: Bytes)
    requires IsHex(s)
    ensures 2 * |r| == |s|
    ensures forall i :: 0 <= i < |r| ==>
      r[i] as int == DigitValue(s[2 * i]) * 16 + DigitValue(s[2 * i + 1])
  {
    if |s| == 0 then []
    else [(DigitValue(s[0]) * 16 + DigitValue(s[1])) as byte] + Decode(s[2..])
  }

  /** Decoding the rendering of any byte sequence gives back the bytes. */
  lemma {:induction false} DecodeEncode(b: Bytes)
    ensures IsHex(Encode(b))
    ensures Decode(Encode(b)) == b
  {
    if |b| > 0 {
      var e := Encode(b);
      var rest := Encode(b[1..]);
      assert e[2..] == rest;
      DecodeEncode(b[1..]);
      assert e[0] == Digit(b[0] as int / 16) && e[1] == Digit(b[0] as int % 16);
      assert Decode(e) == [b[0]] + Decode(rest);
    }
  }

  /** Rendering the bytes of a well-formed hex string gives back the string,
      folded to lower case. */
  lemma {:induction false} EncodeDecode(s: string)
    requires IsHex(s)
    ensures Encode(Decode(s)) == ToLower(s)
  {
    if |s| > 0 {
      var d := Decode(s);
      var v := DigitValue(s[0]) * 16 + DigitValue(s[1]);
      assert d[0] as int == v;
      assert d[1..] == Decode(s[2..]);
      EncodeDecode(s[2..]);
      assert v / 16 == DigitValue(s[0]) && v % 16 == DigitValue(s[1]);
      assert Encode(d) == [Digit(v / 16), Digit(v % 16)] + Encode(d[1..]);
      DigitInjective(Digit(v / 16), LowerDigit(s[0]));
      DigitInjective(Digit(v % 16), LowerDigit(s[1]));
      assert ToLower(s) == [LowerDigit(s[0]), LowerDigit(s[1])] + ToLower(s[2..]);
    }
  }

  /** Two lower-case digits of the same value are the same character. */
  lemma DigitInjective(c: char, d: char)
    requires IsLowerHexDigit(c) && IsLowerHexDigit(d)
    requires DigitValue(c) == DigitValue(d)
    ensures c == d
  {
  }
}
