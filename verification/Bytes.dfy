// Bytes, of memory, images and the line.
module Bytes {

  type Byte = x: nat | x < 256
}
