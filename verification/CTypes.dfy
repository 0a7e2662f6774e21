/** The C integer types the library computes with, on an LP64 target. */
module CTypes {

  const INT_MAX := 0x7FFF_FFFF
  const UINT_MAX := 0xFFFF_FFFF
  const UINT_RANGE := 0x1_0000_0000
  const LONG_MAX := 0x7FFF_FFFF_FFFF_FFFF
  const ULONG_RANGE := 0x1_0000_0000_0000_0000

  /** Conversion to `unsigned int`. */
  function ToUInt(x: int): nat {
    x % UINT_RANGE
  }

  /** Conversion to `int`: two's complement. */
  function ToInt(x: int): int {
    if x % UINT_RANGE <= INT_MAX then x % UINT_RANGE else x % UINT_RANGE - UINT_RANGE
  }

  /** Conversion to `unsigned long`. */
  function ToULong(x: int): nat {
    x % ULONG_RANGE
  }

  /** Conversion to `long`: two's complement. */
  function ToLong(x: int): int {
    if x % ULONG_RANGE <= LONG_MAX then x % ULONG_RANGE else x % ULONG_RANGE - ULONG_RANGE
  }
}
