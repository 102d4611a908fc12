/**
 Shared vocabulary: the machine integer widths the echo server and the ring
 wrapper use, an optional value, and the outcome of a call that may end the
 process (`log::expects` exits, `std::terminate` aborts).
 */
module Prelude {

  type Byte = x: int | 0 <= x < 0x100
  type U16 = x: int | 0 <= x < 0x1_0000
  type U32 = x: int | 0 <= x < 0x1_0000_0000
  type U64 = x: int | 0 <= x < 0x1_0000_0000_0000_0000
  type I32 = x: int | -0x8000_0000 <= x < 0x8000_0000

  /** `static_cast<uint16_t>` of a two's-complement int: keeps the low 16 bits. */
  function ToU16(x: int): (r: U16)
    ensures 0 <= x < 0x1_0000 ==> r == x
    ensures (x - r) % 0x1_0000 == 0
  {
    x % 0x1_0000
  }

  /** Unsigned 32-bit increment, wrapping to 0 past the largest value. */
  function IncU32(x: U32): (r: U32)
    ensures x < 0xFFFF_FFFF ==> r == x + 1
    ensures x == 0xFFFF_FFFF ==> r == 0
  {
    (x + 1) % 0x1_0000_0000
  }

  datatype Option<+T> = None | Some(value: T)

  /** The outcome of a call that either returns or ends the process with a message. */
  datatype Exit<+T> = Returns(value: T) | Fatal(message: string)

  /** Sequencing of two calls: a fatal first call ends the process before the second runs. */
  function Then<T, U>(x: Exit<T>, f: T -> Exit<U>): (r: Exit<U>)
    ensures x.Fatal? ==> r == Fatal(x.message)
    ensures x.Returns? ==> r == f(x.value)
  {
    match x
    case Fatal(m) => Fatal(m)
    case Returns(v) => f(v)
  }
}
