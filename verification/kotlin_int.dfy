/** The Kotlin integer type the command's values have. */
module KotlinInt {

  /** Kotlin's `Int`: a signed 32-bit integer. The HTTP status and the limit
      are of this type; the command does no arithmetic on them. */
  type Int32 = x: int | -0x8000_0000 <= x < 0x8000_0000
}
