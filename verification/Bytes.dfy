/** The octets of messages and frames. */
module Bytes {
  newtype byte = x: int | 0 <= x < 256
  type bytes = seq<byte>
}
