/** `struct Inferior` (proj-1/deet/src/inferior.rs): the traced child and its breakpoint
    table, updated in place. Each method runs the steps of the source one by one and is
    proved to agree with the matching function of `Patcher`, `Protocol` or `Unwinder`, where
    the properties of those steps are proved. */
module InferiorControl {
  import opened Wrappers
  import opened Words
  import opened Ptrace
  import Patcher
  import opened Protocol
  import opened Unwinder

  class Inferior {
    /** The traced child (`child: Child`, reached through its pid). */
    var child: Proc
    /** `bps: HashMap<usize, Option<u8>>`. */
    var bps: Breakpoints
    /** What the child will report to each wait. */
    const events: Events

    constructor (child: Proc, events: Events)
      ensures this.child == child && bps == map[] && this.events == events
    {
      this.child := child;
      this.bps := map[];
      this.events := events;
    }

    /** `Inferior::new`: `spawned` is the address space of the spawned child (`None` when the
        spawn failed). Agrees with `Protocol.Launch`. */
    static method New(spawned: Option<Memory>, breakpoints: seq<Addr>, events: Events)
      returns (r: Completion<Option<Inferior>>)
      ensures Launch(spawned, breakpoints, events).Panics? <==> r.Panics?
      ensures Launch(spawned, breakpoints, events) == Returns(None) <==> r == Returns(None)
      ensures r.Returns? && r.value.Some? ==>
        && fresh(r.value.value) && r.value.value.events == events
        && Launch(spawned, breakpoints, events)
           == Returns(Some((r.value.value.child, r.value.value.bps)))
    {
      if spawned.None? {
        return Returns(None);
      }
      var w := Waitpid(Spawned(spawned.value), events);
      if !(w.0.Ok? && w.0.value.WStopped?) {
        return Returns(None);
      }
      var inferior := new Inferior(w.1, events);
      var ok := inferior.InstallBreakpoints(breakpoints);
      if !ok {
        return Panics;  // the `expect` on a failed `write_byte`
      }
      return Returns(Some(inferior));
    }

    /** The install loop shared by `new` and `wake_and_wait`. `ok` is false where the source's
        `expect` panics, after the failed write. */
    method InstallBreakpoints(list: seq<Addr>) returns (ok: bool)
      modifies this
      ensures (ok, child, bps) == InstallAll(old(child), old(bps), list)
    {
      var i := 0;
      while i < |list|
        invariant 0 <= i <= |list|
        invariant InstallAll(old(child), old(bps), list) == InstallAll(child, bps, list[i..])
      {
        assert list[i..][0] == list[i] && list[i..][1..] == list[i + 1..];
        var orig := WriteByte(list[i], TRAP);
        if orig.Err? {
          return false;
        }
        bps := bps[list[i] := Some(orig.value)];
        i := i + 1;
      }
      assert list[i..] == [];
      return true;
    }

    /** `Inferior::write_byte`. */
    method WriteByte(addr: Addr, val: Byte) returns (r: Result<Byte>)
      modifies this`child
      ensures (r, child) == Patcher.WriteByte(old(child), addr, val)
    {
      var aligned := AlignAddrToWord(addr);
      var offset := OffsetIn(addr);
      var word := PeekData(child, aligned);
      if word.Err? {
        return Err(word.errno);
      }
      var orig := ByteOf(word.value, offset);
      var poke := PokeData(child, aligned, SpliceByte(word.value, offset, val));
      child := poke.1;
      if poke.0.Err? {
        return Err(poke.0.errno);
      }
      return Ok(orig);
    }

    /** `Inferior::wait`. */
    method Wait() returns (r: Completion<Result<Status>>)
      modifies this`child
      ensures (r, child) == Protocol.Wait(old(child), events)
    {
      var w := Waitpid(child, events);
      child := w.1;
      if w.0.Ok? && w.0.value.WStopped? {
        var regs := GetRegs(child);
        if regs.Err? {
          return Returns(Err(regs.errno));
        }
        return Returns(Ok(Stopped(w.0.value.sig, regs.value.rip)));
      }
      return Classify(w.0);
    }

    /** `Inferior::kill`. */
    method Kill() returns (r: Result<()>)
      modifies this`child
      ensures (r, child) == Ptrace.Kill(old(child))
    {
      var k := Ptrace.Kill(child);
      child := k.1;
      return k.0;
    }

    /** `Inferior::wake_and_wait(breakpoints)`. */
    method WakeAndWait(list: seq<Addr>) returns (r: Completion<Result<Status>>)
      modifies this
      ensures (r, child, bps) == Protocol.WakeAndWait(old(child), old(bps), list, events)
    {
      var ok := InstallBreakpoints(list);
      if !ok {
        return Panics;
      }
      var regs := GetRegs(child);
      if regs.Err? {
        return Returns(Err(regs.errno));
      }
      var rip := regs.value.rip;
      if rip == 0 {
        return Panics;  // `instruction_ptr - 1` overflows
      }
      if rip - 1 in bps && bps[rip - 1].Some? {
        var early := StepOver(regs.value, bps[rip - 1].value);
        if early.Some? {
          return early.value;
        }
      }
      var c := Resume(child);
      child := c.1;
      if c.0.Err? {
        return Returns(Err(c.0.errno));
      }
      r := Wait();
    }

    /** The step over the trap at `regs.rip - 1` inside `wake_and_wait`. */
    method StepOver(regs: Regs, orig: Byte) returns (early: Option<Completion<Result<Status>>>)
      requires regs.rip >= 1
      modifies this`child
      ensures (early, child) == Protocol.StepOver(old(child), regs, orig, events)
    {
      var _ := WriteByte(regs.rip - 1, orig);
      var s := SetRegs(child, regs.(rip := regs.rip - 1));
      child := s.1;
      if s.0.Err? {
        return Some(Returns(Err(s.0.errno)));
      }
      var t := Resume(child);
      child := t.1;
      if t.0.Err? {
        return Some(Returns(Err(t.0.errno)));
      }
      var w := Wait();
      match w {
        case Returns(Ok(Stopped(_, _))) =>
          var _ := WriteByte(regs.rip - 1, TRAP);
          return None;
        case Returns(Ok(status)) =>
          return Some(Returns(Ok(status)));
        case _ =>
          return Some(Panics);
      }
    }

    /** `Inferior::print_backtrace`: the frames it prints and how it ends, for at most `fuel`
        iterations of its loop. Nothing is changed. */
    method PrintBacktrace(sym: Symbols, fuel: nat) returns (t: Trace)
      ensures t == Backtrace(child, sym, fuel)
    {
      var regs := GetRegs(child);
      if regs.Err? {
        return Trace([], Finished(Err(regs.errno)));
      }
      var ip: Addr, bp: Addr := regs.value.rip, regs.value.rbp;
      ghost var read := RecordsOf(child);
      var frames: seq<Frame> := [];
      var n := fuel;
      while n > 0
        invariant Backtrace(child, sym, fuel) == Prepend(frames, Walk(read, ip, bp, sym, n))
      {
        var line := sym.lineOf(ip);
        var name := sym.functionOf(ip);
        if line.None? || name.None? {
          assert Walk(read, ip, bp, sym, n) == Trace([], Panicked);
          return Trace(frames, Panicked);  // an `unwrap` of a failed lookup
        }
        var frame := Frame(name.value, line.value);
        assert FrameAt(sym, ip) == Some(frame);
        frames := frames + [frame];
        if name.value == "main" {
          assert Walk(read, ip, bp, sym, n) == Trace([frame], Finished(Ok(())));
          return Trace(frames, Finished(Ok(())));
        }
        var record := ReadFrameRecord(bp);
        assert read(bp) == record;
        match record {
          case Overflow =>
            assert Walk(read, ip, bp, sym, n) == Trace([frame], Panicked);
            return Trace(frames, Panicked);  // `base_ptr + 8` overflows
          case Unreadable(e) =>
            assert Walk(read, ip, bp, sym, n) == Trace([frame], Finished(Err(e)));
            return Trace(frames, Finished(Err(e)));
          case Next(ret, saved) =>
            assert Walk(read, ip, bp, sym, n) == Prepend([frame], Walk(read, ret, saved, sym, n - 1));
            ip, bp := ret, saved;
        }
        n := n - 1;
      }
      return Trace(frames, OutOfFuel);
    }

    /** The two reads of one iteration of `print_backtrace`: the return address at `bp + 8`,
        then the saved frame pointer at `bp`, each `as usize`. */
    method ReadFrameRecord(bp: Addr) returns (r: Record)
      ensures r == ReadRecord(child, bp)
    {
      if bp + 8 >= ADDR_LIMIT {
        return Overflow;
      }
      var ret := PeekData(child, bp + 8);
      if ret.Err? {
        return Unreadable(ret.errno);
      }
      var saved := PeekData(child, bp);
      if saved.Err? {
        return Unreadable(saved.errno);
      }
      return Next(ret.value as int, saved.value as int);
    }
  }
}
