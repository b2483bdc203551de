/** Eight-bit values. */
module Bytes {

  type byte = n: int | 0 <= n < 256
}
