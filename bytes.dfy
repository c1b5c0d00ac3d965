/** Byte-level vocabulary shared by the hash, the sketch, the exact counter and the stream helpers. */
module Bytes {
  /** A C++ `uint8_t`: a byte used as a number (key bytes, sketch registers, the precision B). */
  newtype uint8 = x: int | 0 <= x < 0x100

  /** One byte of a key: the `unsigned char` view of a C++ `char`. */
  type Byte = uint8

  /** A stream key: the bytes of a `std::string`. */
  type Key = seq<Byte>
}
