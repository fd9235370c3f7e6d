/**
 Fixed-width unsigned arithmetic of the estimator.

 Every delay sample, buffer index, length and window size of the estimator is
 a `uint32_t`, and the rollover timestamp is a `uint64_t`. C++ unsigned
 arithmetic wraps modulo 2^width; the functions here write that wrap-around
 out explicitly over Dafny's unbounded integers.
 */
module FixedWidth {

  const TWO_TO_THE_32: int := 0x1_0000_0000
  const TWO_TO_THE_64: int := 0x1_0000_0000_0000_0000

  /** The largest `uint32_t`, i.e. `~0`. */
  const MAX_U32: int := 0xFFFF_FFFF

  type u32 = x: int | 0 <= x < TWO_TO_THE_32
  type u64 = x: int | 0 <= x < TWO_TO_THE_64

  /** `a - b` on `uint32_t`: wraps to a large value when `b > a`. */
  function Sub32(a: u32, b: u32): (r: u32)
    ensures a >= b ==> r == a - b
    ensures a < b ==> r == TWO_TO_THE_32 + a - b
    ensures r == 0 <==> a == b
  {
    (a - b) % TWO_TO_THE_32
  }

  /** `a + b` on `uint32_t`. */
  function Add32(a: u32, b: u32): (r: u32)
    ensures a + b < TWO_TO_THE_32 ==> r == a + b
    ensures a + b >= TWO_TO_THE_32 ==> r == a + b - TWO_TO_THE_32
  {
    (a + b) % TWO_TO_THE_32
  }

  /** `a * b` on `uint32_t`: the product keeps only its low 32 bits. */
  function Mul32(a: u32, b: u32): (r: u32)
    ensures a * b < TWO_TO_THE_32 ==> r == a * b
  {
    var p: nat := a * b;
    p % TWO_TO_THE_32
  }

  /** `a / b` on `uint32_t`, rounding down; `b` must be non-zero. */
  function Div32(a: u32, b: u32): (r: u32)
    requires b != 0
    ensures r * b <= a < (r + 1) * b
  {
    a / b
  }

  /** `a - b` on `uint64_t`. */
  function Sub64(a: u64, b: u64): (r: u64)
    ensures a >= b ==> r == a - b
    ensures a < b ==> r == TWO_TO_THE_64 + a - b
  {
    (a - b) % TWO_TO_THE_64
  }

  /** Storing a `size_t` count into a `uint32_t` keeps its low 32 bits. */
  function Trunc32(n: nat): (r: u32)
    ensures n < TWO_TO_THE_32 ==> r == n
    ensures r <= n
  {
    n % TWO_TO_THE_32
  }

  /** `std::max`; of two `uint32_t` values it is again one of them. */
  function Max(a: int, b: int): (r: int)
    ensures r >= a && r >= b
    ensures r == a || r == b
  {
    if a < b then b else a
  }

  /** `std::min`; of two `uint32_t` values it is again one of them. */
  function Min(a: int, b: int): (r: int)
    ensures r <= a && r <= b
    ensures r == a || r == b
  {
    if b < a then b else a
  }
}
