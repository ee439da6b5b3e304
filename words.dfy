/** Fixed-width machine arithmetic as the .NET code performs it: 32-bit
    signed and unsigned integers, unchecked casts between them, and 64-bit
    addresses (an IntPtr in a 64-bit process) offset by a signed `int`.
    Every value is a mathematical integer restricted to its range; every
    operation that can leave the range reduces its result explicitly. */
module MachineWords {

  const TwoTo16: int := 0x1_0000
  const TwoTo31: int := 0x8000_0000
  const TwoTo32: int := 0x1_0000_0000
  const TwoTo64: int := 0x1_0000_0000_0000_0000

  /** A C# `uint`. */
  type UInt32 = x: int | 0 <= x < TwoTo32

  /** A C# `int`. */
  type Int32 = x: int | -TwoTo31 <= x < TwoTo31

  /** An IntPtr of a 64-bit process: an address in the target's memory. */
  type Addr = x: int | 0 <= x < TwoTo64

  /** The unchecked reinterpretation of 32 bits as a signed `int`: what
      `ReadValue<int>` yields and what the cast `(int)` of a `uint` does. */
  function ToInt32(w: UInt32): Int32
  {
    if w < TwoTo31 then w else w - TwoTo32
  }

  /** The unchecked cast `(uint)` of a signed `int`. */
  function ToUInt32(x: Int32): UInt32
  {
    if x >= 0 then x else x + TwoTo32
  }

  /** Unchecked `uint` arithmetic: the mathematical result modulo 2^32. */
  function WrapUInt32(x: int): UInt32
  {
    x % TwoTo32
  }

  /** Unchecked `int` arithmetic: the mathematical result reduced into the
      signed 32-bit range. */
  function WrapInt32(x: int): Int32
  {
    ToInt32(x % TwoTo32)
  }

  /** `IntPtr + int`: the offset is sign-extended and the sum wraps at 2^64. */
  function AddOffset(a: Addr, offset: Int32): Addr
  {
    (a + offset) % TwoTo64
  }

  /** Both casts keep the bits: a word survives the trip through `int`. */
  lemma UIntRoundTrip(w: UInt32)
    ensures ToUInt32(ToInt32(w)) == w
  {
  }

  /** ... and a signed value survives the trip through `uint`. */
  lemma IntRoundTrip(x: Int32)
    ensures ToInt32(ToUInt32(x)) == x
  {
  }

  /** The signed reading of a word agrees with its unsigned value modulo
      2^32, and is the same number when it fits. */
  lemma ToInt32Congruent(w: UInt32)
    ensures (ToInt32(w) - w) % TwoTo32 == 0
    ensures w < TwoTo31 ==> ToInt32(w) == w
  {
  }

  /** Unchecked arithmetic is exact when the result fits, and otherwise
      differs from it by a multiple of 2^32. */
  lemma WrapInt32Exact(x: int)
    ensures (WrapInt32(x) - x) % TwoTo32 == 0
    ensures -TwoTo31 <= x < TwoTo31 ==> WrapInt32(x) == x
  {
  }
}
