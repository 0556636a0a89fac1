/** The fixed-width integers of the source, with its conversions written out, and the packing of
    two 32-bit fields into one 64-bit atomic word. */
module Machine {
  const TWO_32: int := 0x1_0000_0000
  const TWO_64: int := 0x1_0000_0000_0000_0000

  type u32 = x: int | 0 <= x < TWO_32
  type u64 = x: int | 0 <= x < TWO_64
  type i32 = x: int | -0x8000_0000 <= x < 0x8000_0000

  datatype Option<+T> = None | Some(value: T)

  datatype Result<+T> = Ok(value: T) | Err(status: int)

  /** Conversion to an unsigned 32-bit integer: reduction modulo 2^32. */
  function ToU32(x: int): u32 {
    x % TWO_32
  }

  /** Conversion to an unsigned 64-bit integer: reduction modulo 2^64. */
  function ToU64(x: int): u64 {
    x % TWO_64
  }

  /** A 64-bit atomic word by its two 32-bit halves. */
  datatype Word = Word(high: u32, low: u32)

  /** The number the word holds: `(uint64(high) << 32) | low`. */
  function Pack(w: Word): u64 {
    w.high * TWO_32 + w.low
  }

  /** The halves as the source takes them out: `uint32(x >> 32)` and `uint32(x)`. */
  function Unpack(x: u64): Word {
    Word(x / TWO_32, x % TWO_32)
  }

  /** Halves and numbers determine each other, so comparing words is comparing the numbers. */
  lemma PackUnpack(w: Word, x: u64)
    ensures Unpack(Pack(w)) == w
    ensures Pack(Unpack(x)) == x
  {
  }

  function Min(x: int, y: int): int {
    if x <= y then x else y
  }
}
