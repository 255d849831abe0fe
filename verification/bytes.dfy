/** Raw bytes, as held by a Node.js `Buffer`. */
module Bytes {

  /** One octet. */
  newtype byte = x: int | 0 <= x < 256

  type Bytes = seq<byte>
}
