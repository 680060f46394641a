/** Primitive types shared by the hash map and its sorted view: Java's 64-bit
    `long`, optional results (Java's `null`), and the read-only failure. */
module LongTypes {

  /** Java's `long`: a 64-bit two's-complement integer. */
  newtype i64 = x: int | -0x8000_0000_0000_0000 <= x < 0x8000_0000_0000_0000

  /** Java's 32-bit `~x` on an `int`, which the map uses to encode "absent, but
      this is the slot where the key would go". */
  function BitNot(x: int): int {
    -x - 1
  }

  /** A present value, or Java's `null` for "no such key". */
  datatype Option<+T> = None | Some(value: T)

  /** The one exception the sorted view raises itself:
      `UnsupportedOperationException("Read-only view cannot be modified")`. */
  datatype Error = ReadOnlyViolation

  /** The outcome of a call that may throw. `Unit` stands for Java's `void`. */
  datatype Result<+T> = Ok(value: T) | Err(error: Error)

  datatype Unit = Unit
}
