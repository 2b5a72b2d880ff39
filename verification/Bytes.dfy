/** The unit of memory and of disk sectors. */
module Bytes {
  type Byte = b: int | 0 <= b < 256
}
