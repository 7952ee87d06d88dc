/** `Inferior::write_byte`: a read-modify-write of the one word holding an address. */
module Patcher {
  import opened Wrappers
  import opened Words
  import opened Ptrace

  /** The byte at `addr`, when the word that holds it is mapped. */
  function ByteAt(mem: Memory, addr: Addr): Option<Byte>
  {
    var aligned := AlignAddrToWord(addr);
    if aligned in mem then Some(ByteOf(mem[aligned], OffsetIn(addr))) else None
  }

  /** Reads the aligned word, splices `val` in at the byte offset, writes the word back,
      and returns the byte that was there. A failed read or write is returned as an error. */
  function WriteByte(p: Proc, addr: Addr, val: Byte): (Result<Byte>, Proc)
  {
    var aligned := AlignAddrToWord(addr);
    var offset := OffsetIn(addr);
    match PeekData(p, aligned)
    case Err(e) => (Err(e), p)
    case Ok(word) =>
      var orig := ByteOf(word, offset);
      var (w, q) := PokeData(p, aligned, SpliceByte(word, offset, val));
      if w.Err? then (Err(w.errno), q) else (Ok(orig), q)
  }

  /** The write succeeds exactly when the child is stopped and the word is mapped; it then
      returns the byte that was at `addr`. A failed write changes nothing. */
  lemma WriteByteReturnsOriginal(p: Proc, addr: Addr, val: Byte)
    ensures WriteByte(p, addr, val).0.Ok? <==> p.phase == InStop && AlignAddrToWord(addr) in p.mem
    ensures WriteByte(p, addr, val).0.Ok? ==> ByteAt(p.mem, addr) == Some(WriteByte(p, addr, val).0.value)
    ensures WriteByte(p, addr, val).0.Err? ==> WriteByte(p, addr, val).1 == p
  {
  }

  /** After a successful write the byte at `addr` is `val`; only the aligned word changed,
      the set of mapped words and the registers did not. */
  lemma {:induction false} WriteByteStoresValue(p: Proc, addr: Addr, val: Byte)
    requires WriteByte(p, addr, val).0.Ok?
    ensures var q := WriteByte(p, addr, val).1;
      && ByteAt(q.mem, addr) == Some(val)
      && q.mem.Keys == p.mem.Keys
      && (forall a :: a in p.mem && a != AlignAddrToWord(addr) ==> q.mem[a] == p.mem[a])
      && q.regs == p.regs && q.phase == p.phase && q.waits == p.waits
  {
    var aligned := AlignAddrToWord(addr);
    var offset := OffsetIn(addr);
    assert PeekData(p, aligned).Ok?;
    var word := p.mem[aligned];
    var q := WriteByte(p, addr, val).1;
    assert q == p.(mem := p.mem[aligned := SpliceByte(word, offset, val)]);
  }

  /** Every other byte of memory, in the same word or another one, reads as before. */
  lemma {:induction false} WriteByteKeepsOtherBytes(p: Proc, addr: Addr, val: Byte, b: Addr)
    requires b != addr
    ensures ByteAt(WriteByte(p, addr, val).1.mem, b) == ByteAt(p.mem, b)
  {
    var aligned := AlignAddrToWord(addr);
    var offset := OffsetIn(addr);
    var q := WriteByte(p, addr, val).1;
    if PeekData(p, aligned).Ok? && PokeData(p, aligned, SpliceByte(p.mem[aligned], offset, val)).0.Ok? {
      var word := p.mem[aligned];
      assert q.mem == p.mem[aligned := SpliceByte(word, offset, val)];
      var bAligned := AlignAddrToWord(b);
      if bAligned == aligned {
        OffsetsDiffer(addr, b);
        SpliceKeepsOtherBytes(word, offset, val, OffsetIn(b));
        assert ByteAt(q.mem, b) == Some(ByteOf(SpliceByte(word, offset, val), OffsetIn(b)));
      } else {
        assert bAligned in q.mem <==> bAligned in p.mem;
        assert bAligned in p.mem ==> q.mem[bAligned] == p.mem[bAligned];
      }
    } else {
      assert q.mem == p.mem;
    }
  }

  /** Writing back the byte that a write returned restores memory exactly. */
  lemma {:induction false} WriteByteRoundTrip(p: Proc, addr: Addr, val: Byte)
    requires WriteByte(p, addr, val).0.Ok?
    ensures var (r, q) := WriteByte(p, addr, val);
      WriteByte(q, addr, r.value) == (Ok(val), p)
  {
    var aligned := AlignAddrToWord(addr);
    var offset := OffsetIn(addr);
    assert PeekData(p, aligned).Ok?;
    var word := p.mem[aligned];
    var orig := ByteOf(word, offset);
    var spliced := SpliceByte(word, offset, val);
    var q := p.(mem := p.mem[aligned := spliced]);
    assert WriteByte(p, addr, val) == (Ok(orig), q);
    SpliceTwice(word, offset, val, orig);
    SpliceOwnByte(word, offset);
    assert SpliceByte(spliced, offset, orig) == word;
    assert q.mem[aligned := word] == p.mem;
    assert WriteByte(q, addr, orig) == (Ok(val), q.(mem := q.mem[aligned := word]));
  }
}
