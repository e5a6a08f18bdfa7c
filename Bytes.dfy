/** The machine types the tool works with. */
module Bytes {

  /** A C# `byte`: eight bits, so that `|` and `^` are the source's bitwise operators. */
  type byte = bv8

  /** A C# `int`. */
  type int32 = x: int | -0x8000_0000 <= x < 0x8000_0000
}
