/** The envelope layout: IV, then GCM authentication tag, then ciphertext,
    as raw bytes. */
module Envelope {
  import opened Bytes

  const IvLength: nat := 16
  const TagLength: nat := 16
  /** Offset of the ciphertext: the size of the fixed-width prefix. */
  const HeaderLength: nat := IvLength + TagLength

  type Iv = s: Bytes | |s| == IvLength witness seq(IvLength, _ => 0)
  type Tag = s: Bytes | |s| == TagLength witness seq(TagLength, _ => 0)

  function Min(a: int, b: int): int { if a <= b then a else b }

  function Max(a: int, b: int): int { if a <= b then b else a }

  /** The three fields sliced out of an envelope. Widths are not fixed here:
      slicing a short buffer yields short fields. */
  datatype Fields = Fields(iv: Bytes, tag: Bytes, ct: Bytes)

  /** `Buffer.concat([iv, authTag, encrypted])`. */
  function Frame(iv: Bytes, tag: Bytes, ct: Bytes): (r: Bytes)
    ensures |r| == |iv| + |tag| + |ct|
    ensures r[..|iv|] == iv
    ensures r[|iv|..|iv| + |tag|] == tag
    ensures r[|iv| + |tag|..] == ct
  {
    iv + tag + ct
  }

  /** `buf.slice(start, end)` for non-negative offsets: both offsets are
      clamped to the buffer length, and an end before the start gives an
      empty slice. */
  function Slice(data: Bytes, start: nat, end: nat): (r: Bytes)
    ensures |r| == Max(0, Min(end, |data|) - Min(start, |data|))
    ensures forall i :: 0 <= i < |r| ==> r[i] == data[start + i]
  {
    var s := Min(start, |data|);
    var e := Max(s, Min(end, |data|));
    data[s..e]
  }

  /** The three slices `decrypt` takes: `[0, 16)`, `[16, 32)` and `[32, ..)`.
      There is no length check: a short buffer is sliced all the same. */
  function Parse(data: Bytes): (r: Fields)
    ensures var n := |data|;
      r == Fields(data[..Min(IvLength, n)],
                  data[Min(IvLength, n)..Min(HeaderLength, n)],
                  data[Min(HeaderLength, n)..])
  {
    Fields(Slice(data, 0, IvLength),
           Slice(data, IvLength, IvLength + TagLength),
           Slice(data, HeaderLength, |data|))
  }

  /** For any buffer the three slices partition it, the IV slice holds the
      first up to 16 bytes and the tag slice the next up to 16. */
  lemma {:induction false} ParsePartition(data: Bytes)
    ensures var f := Parse(data);
      && Frame(f.iv, f.tag, f.ct) == data
      && |f.iv| == Min(IvLength, |data|)
      && |f.tag| == Min(TagLength, Max(0, |data| - IvLength))
      && |f.ct| == Max(0, |data| - HeaderLength)
  {
  }

  /** Slicing an envelope framed from a full-width IV and tag recovers
      exactly the three fields. */
  lemma {:induction false} ParseFrame(iv: Iv, tag: Tag, ct: Bytes)
    ensures Parse(Frame(iv, tag, ct)) == Fields(iv, tag, ct)
  {
  }

  /** A buffer of at least 32 bytes is the framing of a full-width IV and
      tag; a shorter one leaves the ciphertext slice empty and the tag
      slice short. */
  lemma {:induction false} ParseWidths(data: Bytes)
    ensures |data| >= HeaderLength ==>
      |Parse(data).iv| == IvLength && |Parse(data).tag| == TagLength
    ensures |data| < HeaderLength ==>
      Parse(data).ct == [] && |Parse(data).tag| < TagLength
  {
  }
}
