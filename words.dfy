/** Machine words of x86-64: addresses (`usize`), 64-bit data words (`u64`) and bytes (`u8`). */
module Words {

  /** One more than the largest `usize` on x86-64. */
  const ADDR_LIMIT: int := 0x1_0000_0000_0000_0000

  /** `usize` on x86-64. */
  type Addr = x: int | 0 <= x < 0x1_0000_0000_0000_0000

  type Word = bv64
  type Byte = bv8

  /** `size_of::<usize>()` on x86-64. */
  const WORD_SIZE: int := 8

  /** A byte position inside a word, as a shift operand. */
  type Offset = o: bv64 | o < 8

  /** `align_addr_to_word`: `addr & -(size_of::<usize>() as isize) as usize` clears the low
      three bits of the address, which on a `usize` is `addr - addr % 8`. */
  function AlignAddrToWord(addr: Addr): (r: Addr)
    ensures r % WORD_SIZE == 0
    ensures r <= addr
    ensures addr - r < WORD_SIZE
  {
    addr - addr % WORD_SIZE
  }

  /** The position of `addr` inside its aligned word: `addr - aligned_addr`. */
  function OffsetIn(addr: Addr): Offset
  {
    ToOffset(addr - AlignAddrToWord(addr))
  }

  /** `k` as a shift operand, written as a table so that no integer-to-bit-vector
      conversion is needed. */
  function ToOffset(k: int): Offset
    requires 0 <= k < WORD_SIZE
  {
    if k == 0 then 0 else if k == 1 then 1 else if k == 2 then 2 else if k == 3 then 3
    else if k == 4 then 4 else if k == 5 then 5 else if k == 6 then 6 else 7
  }

  lemma ToOffsetInjective(i: int, j: int)
    requires 0 <= i < WORD_SIZE && 0 <= j < WORD_SIZE && i != j
    ensures ToOffset(i) != ToOffset(j)
  {
  }

  /** Two addresses in the same word sit at different offsets. */
  lemma OffsetsDiffer(a: Addr, b: Addr)
    requires a != b && AlignAddrToWord(a) == AlignAddrToWord(b)
    ensures OffsetIn(a) != OffsetIn(b)
  {
    ToOffsetInjective(a - AlignAddrToWord(a), b - AlignAddrToWord(b));
  }

  /** Byte number `off` of `w`, read little-endian: `(word >> 8 * off) & 0xff`. */
  function ByteOf(w: Word, off: Offset): Byte
  {
    ((w >> (8 * off)) & 0xff) as Byte
  }

  /** `w` with byte number `off` replaced by `val`: mask the byte out, then or the new one in. */
  function SpliceByte(w: Word, off: Offset, val: Byte): (r: Word)
    ensures ByteOf(r, off) == val
  {
    (w & !(0xff << (8 * off))) | ((val as Word) << (8 * off))
  }

  /** Splicing leaves the other seven bytes of the word as they were. */
  lemma SpliceKeepsOtherBytes(w: Word, off: Offset, val: Byte, j: Offset)
    requires j != off
    ensures ByteOf(SpliceByte(w, off, val), j) == ByteOf(w, j)
  {
  }

  /** Writing back the byte that is already there gives the same word. */
  lemma SpliceOwnByte(w: Word, off: Offset)
    ensures SpliceByte(w, off, ByteOf(w, off)) == w
  {
  }

  /** A second splice at the same offset overrides the first. */
  lemma SpliceTwice(w: Word, off: Offset, a: Byte, b: Byte)
    ensures SpliceByte(SpliceByte(w, off, a), off, b) == SpliceByte(w, off, b)
  {
  }
}
