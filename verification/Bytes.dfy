/** Octets, as the file system and the string functions see them. */
module Bytes {
  type byte = x: int | 0 <= x < 256
}
