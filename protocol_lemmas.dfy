/** What the process-control functions of `Protocol` promise. */
module ProtocolLemmas {
  import opened Wrappers
  import opened Words
  import opened Ptrace
  import opened Patcher
  import opened Protocol

  /** `wait` reports each of the three expected shapes as the matching status (a stop with
      the rip the child has there), passes a failed wait on, and panics on any other shape;
      it consumes exactly one wait outcome and changes no memory. */
  lemma WaitClassifies(p: Proc, ev: Events)
    requires p.phase != Gone
    ensures Wait(p, ev).0 == Classify(ev(p.waits))
    ensures Wait(p, ev).1.waits == p.waits + 1 && Wait(p, ev).1.mem == p.mem
  {
  }

  /** After a successful install loop the table gained exactly the listed keys, each with a
      saved byte, and the entries of other addresses are as before. */
  lemma {:induction false} InstallTable(p: Proc, bps: Breakpoints, list: seq<Addr>)
    requires InstallAll(p, bps, list).0
    ensures var b := InstallAll(p, bps, list).2;
      && b.Keys == bps.Keys + (set a | a in list)
      && (forall a :: a in list ==> b[a].Some?)
      && (forall a :: a in bps && a !in list ==> b[a] == bps[a])
    decreases |list|
  {
    if list != [] {
      var (_, q1, b1) := InstallOne(p, bps, list[0]);
      InstallTable(q1, b1, list[1..]);
      assert forall a :: a in list <==> a == list[0] || a in list[1..];
    }
  }

  /** The install loop only patches memory: the mapped words, the registers, the phase and the
      wait count are unchanged. */
  lemma {:induction false} InstallKeepsShape(p: Proc, bps: Breakpoints, list: seq<Addr>)
    requires InstallAll(p, bps, list).0
    ensures var q := InstallAll(p, bps, list).1;
      q.mem.Keys == p.mem.Keys && q.regs == p.regs && q.phase == p.phase && q.waits == p.waits
    decreases |list|
  {
    if list != [] {
      var (_, q1, b1) := InstallOne(p, bps, list[0]);
      WriteByteStoresValue(p, list[0], TRAP);
      InstallKeepsShape(q1, b1, list[1..]);
    }
  }

  /** After a successful install loop every listed address holds the trap byte and every
      unlisted address holds the byte it held before. */
  lemma {:induction false} InstallPatches(p: Proc, bps: Breakpoints, list: seq<Addr>)
    requires InstallAll(p, bps, list).0
    ensures var q := InstallAll(p, bps, list).1;
      && (forall a :: a in list ==> ByteAt(q.mem, a) == Some(TRAP))
      && (forall a :: a !in list ==> ByteAt(q.mem, a) == ByteAt(p.mem, a))
    decreases |list|
  {
    if list != [] {
      var (_, q1, b1) := InstallOne(p, bps, list[0]);
      WriteByteStoresValue(p, list[0], TRAP);
      InstallPatches(q1, b1, list[1..]);
      forall a | a != list[0]
        ensures ByteAt(q1.mem, a) == ByteAt(p.mem, a)
      {
        WriteByteKeepsOtherBytes(p, list[0], TRAP, a);
      }
      assert forall a :: a in list <==> a == list[0] || a in list[1..];
    }
  }

  /** The three facts together. */
  lemma InstallArms(p: Proc, bps: Breakpoints, list: seq<Addr>)
    requires InstallAll(p, bps, list).0
    ensures var (_, q, b) := InstallAll(p, bps, list);
      && b.Keys == bps.Keys + (set a | a in list)
      && (forall a :: a in list ==> ByteAt(q.mem, a) == Some(TRAP) && b[a].Some?)
      && (forall a :: a in bps && a !in list ==> b[a] == bps[a])
      && (forall a :: a !in list ==> ByteAt(q.mem, a) == ByteAt(p.mem, a))
      && q.mem.Keys == p.mem.Keys && q.regs == p.regs && q.phase == p.phase && q.waits == p.waits
  {
    InstallTable(p, bps, list);
    InstallKeepsShape(p, bps, list);
    InstallPatches(p, bps, list);
  }

  /** The byte recorded for a listed address: the byte that was in memory before the loop
      when the address occurs once in the list; the trap byte itself when it occurs again,
      because the second patch reads back the first one's `0xcc`. */
  lemma {:induction false} InstallRecords(p: Proc, bps: Breakpoints, list: seq<Addr>, a: Addr)
    requires InstallAll(p, bps, list).0 && a in list
    ensures a in InstallAll(p, bps, list).2
    ensures InstallAll(p, bps, list).2[a]
         == if multiset(list)[a] == 1 then ByteAt(p.mem, a) else Some(TRAP)
    decreases |list|
  {
    var (_, q1, b1) := InstallOne(p, bps, list[0]);
    WriteByteReturnsOriginal(p, list[0], TRAP);
    WriteByteStoresValue(p, list[0], TRAP);
    assert list == [list[0]] + list[1..];
    assert multiset(list)[a] == (if list[0] == a then 1 else 0) + multiset(list[1..])[a];
    if a in list[1..] {
      InstallRecords(q1, b1, list[1..], a);
      if list[0] != a {
        WriteByteKeepsOtherBytes(p, list[0], TRAP, a);
      }
    } else {
      InstallArms(q1, b1, list[1..]);
    }
  }

  /** Re-patching an address whose trap is already in memory records `0xcc` as its saved
      byte: the original byte is lost. */
  lemma RepatchRecordsTrap(p: Proc, bps: Breakpoints, list: seq<Addr>, a: Addr)
    requires InstallAll(p, bps, list).0 && a in list && ByteAt(p.mem, a) == Some(TRAP)
    ensures a in InstallAll(p, bps, list).2
    ensures InstallAll(p, bps, list).2[a] == Some(TRAP)
  {
    InstallRecords(p, bps, list, a);
  }

  /** The install loop gets through when the child is stopped and every listed word is mapped. */
  lemma {:induction false} InstallSucceeds(p: Proc, bps: Breakpoints, list: seq<Addr>)
    requires p.phase == InStop
    requires forall a :: a in list ==> AlignAddrToWord(a) in p.mem
    ensures InstallAll(p, bps, list).0
    decreases |list|
  {
    if list != [] {
      var (_, q1, b1) := InstallOne(p, bps, list[0]);
      WriteByteReturnsOriginal(p, list[0], TRAP);
      WriteByteStoresValue(p, list[0], TRAP);
      assert forall a :: a in list[1..] ==> a in list;
      InstallSucceeds(q1, b1, list[1..]);
    }
  }

  /** With a breakpoint listed, the loop panics on a child that is not stopped (one that has
      exited, or was killed): nothing fails fast before it. */
  lemma InstallPanicsUnlessStopped(p: Proc, bps: Breakpoints, list: seq<Addr>)
    requires list != [] && p.phase != InStop
    ensures !InstallAll(p, bps, list).0
  {
  }

  /** Restoring and rewinding: the saved byte is back at `rip - 1` and rip points at it. */
  lemma RewindRestores(p: Proc, regs: Regs, orig: Byte)
    requires p.phase == InStop && regs.rip >= 1 && AlignAddrToWord(regs.rip - 1) in p.mem
    ensures var (s, q) := Rewind(p, regs, orig);
      && s.Ok? && ByteAt(q.mem, regs.rip - 1) == Some(orig)
      && q.regs == Regs(regs.rip - 1, regs.rbp)
      && q.phase == InStop && q.waits == p.waits
  {
    WriteByteStoresValue(p, regs.rip - 1, orig);
  }

  /** The child is stopped just after a trap whose address has a saved byte. */
  predicate AtTrap(p: Proc, bps: Breakpoints)
  {
    && p.phase == InStop && p.regs.rip >= 1
    && p.regs.rip - 1 in bps && bps[p.regs.rip - 1].Some?
    && AlignAddrToWord(p.regs.rip - 1) in p.mem
  }

  /** The single step ends the process: that status is returned at once, no continue is
      issued (one wait only), the trap stays removed and the table is unchanged. */
  lemma {:induction false} StepOverEndsAtExit(p: Proc, bps: Breakpoints, ev: Events)
    requires AtTrap(p, bps)
    requires ev(p.waits).Ok? && (ev(p.waits).value.WExited? || ev(p.waits).value.WSignaled?)
    ensures var (r, q, b) := ResumeFrom(p, bps, ev);
      && r == Classify(ev(p.waits))
      && q.waits == p.waits + 1 && q.phase == Gone
      && ByteAt(q.mem, p.regs.rip - 1) == bps[p.regs.rip - 1]
      && b == bps
  {
    RewindRestores(p, p.regs, bps[p.regs.rip - 1].value);
  }

  /** The single step ends in a stop: the trap is written back at `rip - 1`, the table entry is
      unchanged, and the result is that of the continue that follows (the second wait). Every
      other byte is as before, and so is the byte at `rip - 1` when it held the trap. */
  lemma {:induction false} StepOverRearms(p: Proc, bps: Breakpoints, ev: Events)
    requires AtTrap(p, bps)
    requires ev(p.waits).Ok? && ev(p.waits).value.WStopped?
    ensures var (r, q, b) := ResumeFrom(p, bps, ev);
      && r == Classify(ev(p.waits + 1))
      && q.waits == p.waits + 2
      && ByteAt(q.mem, p.regs.rip - 1) == Some(TRAP)
      && (forall a :: a != p.regs.rip - 1 ==> ByteAt(q.mem, a) == ByteAt(p.mem, a))
      && (ByteAt(p.mem, p.regs.rip - 1) == Some(TRAP) ==> q.mem == p.mem)
      && b == bps
  {
    var regs := p.regs;
    var addr := regs.rip - 1;
    var orig := bps[addr].value;
    RewindRestores(p, regs, orig);
    var p2 := Rewind(p, regs, orig).1;
    var p3 := Wait(Resume(p2).1, ev).1;
    assert p3.phase == InStop && p3.mem == p2.mem && p3.waits == p.waits + 1;
    WriteByteStoresValue(p3, addr, TRAP);
    var p4 := Patcher.WriteByte(p3, addr, TRAP).1;
    assert StepOver(p, regs, orig, ev) == (None, p4);
    WaitClassifies(Resume(p4).1, ev);
    forall a | a != addr
      ensures ByteAt(p4.mem, a) == ByteAt(p.mem, a)
    {
      WriteByteKeepsOtherBytes(p, addr, orig, a);
      WriteByteKeepsOtherBytes(p3, addr, TRAP, a);
    }
    if ByteAt(p.mem, addr) == Some(TRAP) {
      WriteByteRoundTrip(p, addr, orig);
      WriteByteReturnsOriginal(p, addr, orig);
      assert Patcher.WriteByte(p, addr, orig).0 == Ok(TRAP);
    }
  }

  /** Not sitting after a trap with a saved byte (no entry for `rip - 1`, or an entry still
      `None`): memory is not touched and the result is that of a plain continue. */
  lemma NoTrapJustContinues(p: Proc, bps: Breakpoints, ev: Events)
    requires p.phase == InStop && p.regs.rip >= 1
    requires !(p.regs.rip - 1 in bps && bps[p.regs.rip - 1].Some?)
    ensures var (r, q, b) := ResumeFrom(p, bps, ev);
      && r == Classify(ev(p.waits))
      && q.mem == p.mem && q.waits == p.waits + 1
      && b == bps
  {
    WaitClassifies(Resume(p).1, ev);
  }

  /** Resuming never changes the breakpoint table. */
  lemma ResumeKeepsTable(p: Proc, bps: Breakpoints, ev: Events)
    ensures ResumeFrom(p, bps, ev).2 == bps
  {
  }

  /** A rip of zero makes `instruction_ptr - 1` overflow. */
  lemma RipZeroPanics(p: Proc, bps: Breakpoints, ev: Events)
    requires p.phase == InStop && p.regs.rip == 0
    ensures ResumeFrom(p, bps, ev).0 == Panics
  {
  }

  /** A child that is not stopped cannot be resumed: reading its registers fails. */
  lemma NotStoppedFails(p: Proc, bps: Breakpoints, ev: Events)
    requires p.phase != InStop
    ensures ResumeFrom(p, bps, ev) == (Returns(Err(ESRCH)), p, bps)
  {
  }

  /** A launch whose first wait reports a stop, with every listed word mapped, yields a
      child stopped at the reported registers with all breakpoints armed; the table has
      exactly the listed addresses, each with the byte it replaced (or `0xcc` for a repeated
      address). */
  lemma LaunchArmsAll(mem: Memory, list: seq<Addr>, ev: Events)
    requires ev(0).Ok? && ev(0).value.WStopped?
    requires forall a :: a in list ==> AlignAddrToWord(a) in mem
    ensures var r := Launch(Some(mem), list, ev);
      && r.Returns? && r.value.Some?
      && var (q, b) := r.value.value;
      && b.Keys == (set a | a in list)
      && (forall a :: a in list ==> ByteAt(q.mem, a) == Some(TRAP))
      && (forall a :: a in list && multiset(list)[a] == 1 ==> b[a] == ByteAt(mem, a))
      && (forall a :: a in list && multiset(list)[a] > 1 ==> b[a] == Some(TRAP))
      && q.regs == ev(0).value.regs && q.phase == InStop && q.mem.Keys == mem.Keys
  {
    var p := Waitpid(Spawned(mem), ev).1;
    InstallSucceeds(p, map[], list);
    InstallArms(p, map[], list);
    forall a | a in list
      ensures InstallAll(p, map[], list).2[a]
           == if multiset(list)[a] == 1 then ByteAt(mem, a) else Some(TRAP)
    {
      InstallRecords(p, map[], list, a);
    }
  }

  /** No inferior when the spawn fails or the first wait does not report a stop. */
  lemma LaunchFails(spawned: Option<Memory>, list: seq<Addr>, ev: Events)
    requires spawned.None? || !(ev(0).Ok? && ev(0).value.WStopped?)
    ensures Launch(spawned, list, ev) == Returns(None)
  {
  }
}
