module Bytes {
  /** A byte as a number. */
  type octet = x: int | 0 <= x < 256
}
