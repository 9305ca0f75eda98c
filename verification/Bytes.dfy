/** The bytes that iconv and stdio move. */
module Bytes {
  type Byte = x: int | 0 <= x < 256
}
