/** Bytes, as numbers below 256. */
module Bytes {
  type Byte = x: nat | x < 256
}
