/** Integer widths of the target (32-bit ARM, newlib C library) and a small Option type. */
module Machine {

  /** `unsigned char` */
  type Byte = x: int | 0 <= x < 0x100

  /** `uint16_t` */
  type U16 = x: int | 0 <= x < 0x1_0000

  /** `unsigned int` (32 bits on the target) */
  type U32 = x: int | 0 <= x < 0x1_0000_0000

  /** Unsigned 32-bit addition, which wraps around. */
  function AddU32(a: U32, b: U32): U32 {
    (a + b) % 0x1_0000_0000
  }

  /** Largest value of a signed `int`; incrementing past it is undefined behaviour in C. */
  const INT_MAX: int := 0x7FFF_FFFF

  /** newlib's RAND_MAX: `rand()` returns a value in 0..RAND_MAX. */
  const RAND_MAX: int := 0x7FFF_FFFF

  /** One value drawn from `rand()`. */
  type Rand = x: int | 0 <= x <= 0x7FFF_FFFF

  datatype Option<T> = None | Some(value: T)
}
