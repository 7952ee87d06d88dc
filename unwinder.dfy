/** The frame-pointer walk of `Inferior::print_backtrace` (proj-1/deet/src/inferior.rs),
    as a function on the traced child. The debug-information lookups are supplied as
    partial functions; the walk itself follows the saved frame pointers in memory. */
module Unwinder {
  import opened Wrappers
  import opened Words
  import opened Ptrace

  /** A source position (`dwarf_data::Line`). */
  datatype Line = Line(file: string, number: nat)

  /** One printed line of a backtrace: `function (line)`. */
  datatype Frame = Frame(name: string, line: Line)

  /** `DwarfData::get_line_from_addr` and `DwarfData::get_function_from_addr`. */
  datatype Symbols = Symbols(lineOf: Addr -> Option<Line>, functionOf: Addr -> Option<string>)

  /** How a walk ended: `Finished(r)` is the value `print_backtrace` returns; `Panicked` is an
      `unwrap` of a failed lookup or the overflow of `base_ptr + 8`; `OutOfFuel` means the
      walk was cut short after the given number of frames. */
  datatype End = Finished(r: Result<()>) | Panicked | OutOfFuel

  /** The frames printed, head first, and how the walk ended. */
  datatype Trace = Trace(frames: seq<Frame>, end: End)

  /** The printed frame for an instruction address, when both lookups succeed. */
  function FrameAt(sym: Symbols, ip: Addr): Option<Frame>
  {
    if sym.lineOf(ip).Some? && sym.functionOf(ip).Some?
    then Some(Frame(sym.functionOf(ip).value, sym.lineOf(ip).value))
    else None
  }

  function Prepend(frames: seq<Frame>, t: Trace): Trace
  {
    Trace(frames + t.frames, t.end)
  }

  /** The outcome of reading the frame record at `bp`: `bp + 8` overflows, a read fails, or
      the saved return address and the caller's frame pointer. */
  datatype Record = Overflow | Unreadable(errno: Errno) | Next(ip: Addr, bp: Addr)

  /** Where the walk reads frame records from. */
  type Reader = Addr -> Record

  /** Read the frame record at `bp`: the return address at `bp + 8` (computing `bp + 8`
      panics on overflow), then the saved frame pointer at `bp`. */
  function ReadRecord(p: Proc, bp: Addr): Record
  {
    if bp + 8 >= ADDR_LIMIT then Overflow
    else match PeekData(p, bp + 8)
      case Err(e) => Unreadable(e)
      case Ok(ret) =>
        match PeekData(p, bp)
        case Err(e) => Unreadable(e)
        case Ok(saved) => Next(ret as int, saved as int)
  }

  /** The frame records of the child's memory. */
  function RecordsOf(p: Proc): Reader
  {
    (bp: Addr) => ReadRecord(p, bp)
  }

  /** Reading a frame record in the child's memory fails exactly when `bp + 8` overflows or
      one of the two words is unreadable; otherwise the next instruction address is the word
      at `bp + 8` and the next frame pointer the word at `bp`. */
  lemma ReadRecordReads(p: Proc, bp: Addr)
    ensures ReadRecord(p, bp).Overflow? <==> bp + 8 >= ADDR_LIMIT
    ensures ReadRecord(p, bp).Unreadable? <==>
      bp + 8 < ADDR_LIMIT && (PeekData(p, bp + 8).Err? || PeekData(p, bp).Err?)
    ensures ReadRecord(p, bp).Unreadable? ==>
      ReadRecord(p, bp).errno == if PeekData(p, bp + 8).Err? then PeekData(p, bp + 8).errno
                                 else PeekData(p, bp).errno
    ensures ReadRecord(p, bp).Next? ==>
      && p.phase == InStop && bp + 8 in p.mem && bp in p.mem
      && ReadRecord(p, bp).ip == p.mem[bp + 8] as int && ReadRecord(p, bp).bp == p.mem[bp] as int
  {
  }

  /** The loop of `print_backtrace` from the instruction address `ip` and frame pointer `bp`,
      for at most `fuel` iterations: print the frame; stop after `main`; otherwise the frame
      record at `bp` gives the next `ip` and `bp`. A failed read ends the walk with that error. */
  function Walk(read: Reader, ip: Addr, bp: Addr, sym: Symbols, fuel: nat): Trace
    decreases fuel
  {
    if fuel == 0 then Trace([], OutOfFuel)
    else match FrameAt(sym, ip)
      case None => Trace([], Panicked)
      case Some(fr) =>
        if fr.name == "main" then Trace([fr], Finished(Ok(())))
        else match read(bp)
          case Overflow => Trace([fr], Panicked)
          case Unreadable(e) => Trace([fr], Finished(Err(e)))
          case Next(ip', bp') => Prepend([fr], Walk(read, ip', bp', sym, fuel - 1))
  }

  /** `print_backtrace`: the walk starts from the registers of the stopped child. */
  function Backtrace(p: Proc, sym: Symbols, fuel: nat): Trace
  {
    match GetRegs(p)
    case Err(e) => Trace([], Finished(Err(e)))
    case Ok(regs) => Walk(RecordsOf(p), regs.rip, regs.rbp, sym, fuel)
  }

  /** The `k`-th (instruction address, frame pointer) pair of the frame-pointer chain
      starting at (`ip`, `bp`), counted from the innermost frame, or the fault met on the way. */
  function Chain(read: Reader, ip: Addr, bp: Addr, k: nat): Record
    decreases k
  {
    if k == 0 then Next(ip, bp)
    else
      var prev := Chain(read, ip, bp, k - 1);
      if !prev.Next? then prev else read(prev.bp)
  }

  /** Following the chain one step from the start is the same as starting one frame further out. */
  lemma {:induction false} ChainShift(read: Reader, ip: Addr, bp: Addr, k: nat)
    requires read(bp).Next?
    ensures Chain(read, ip, bp, k + 1) == Chain(read, read(bp).ip, read(bp).bp, k)
    decreases k
  {
    if k > 0 {
      ChainShift(read, ip, bp, k - 1);
    }
  }

  /** One step of the walk, case by case: nothing is printed when fuel or a lookup runs out;
      the walk ends after `main`; otherwise it goes on through the frame record at `bp`
      when that record can be read, and ends after one frame when it cannot. */
  lemma WalkStep(read: Reader, ip: Addr, bp: Addr, sym: Symbols, fuel: nat)
    ensures var t := Walk(read, ip, bp, sym, fuel);
      && (fuel == 0 || FrameAt(sym, ip).None? ==> t.frames == [] && !t.end.Finished?)
      && (fuel > 0 && FrameAt(sym, ip).Some? && FrameAt(sym, ip).value.name == "main" ==>
            t == Trace([FrameAt(sym, ip).value], Finished(Ok(()))))
      && (fuel > 0 && FrameAt(sym, ip).Some? && FrameAt(sym, ip).value.name != "main" ==>
            if read(bp).Next?
            then t == Prepend([FrameAt(sym, ip).value],
                              Walk(read, read(bp).ip, read(bp).bp, sym, fuel - 1))
            else t.frames == [FrameAt(sym, ip).value] && t.end == (if read(bp).Overflow? then Panicked else Finished(Err(read(bp).errno))))
  {
  }

  /** A walk that prints more than one frame went on past its first frame. */
  lemma WalkLong(read: Reader, ip: Addr, bp: Addr, sym: Symbols, fuel: nat)
    requires |Walk(read, ip, bp, sym, fuel).frames| > 1
    ensures fuel > 0 && FrameAt(sym, ip).Some? && FrameAt(sym, ip).value.name != "main"
    ensures read(bp).Next?
  {
  }

  /** A walk that goes on past its first frame prints that frame and then the walk from
      the frame record at `bp`. */
  lemma WalkContinues(read: Reader, ip: Addr, bp: Addr, sym: Symbols, fuel: nat)
    requires fuel > 0 && FrameAt(sym, ip).Some? && FrameAt(sym, ip).value.name != "main"
    requires read(bp).Next?
    ensures Walk(read, ip, bp, sym, fuel).frames
         == [FrameAt(sym, ip).value] + Walk(read, read(bp).ip, read(bp).bp, sym, fuel - 1).frames
  {
  }

  /** Frame `k` of the printed backtrace is the frame at the `k`-th address of the
      frame-pointer chain: the first is the one at the starting `ip`, and each later one
      comes from the return address saved in the previous frame record. */
  lemma {:induction false} WalkFollowsChain(read: Reader, ip: Addr, bp: Addr, sym: Symbols, fuel: nat, k: nat)
    requires k < |Walk(read, ip, bp, sym, fuel).frames|
    ensures Chain(read, ip, bp, k).Next?
    ensures FrameAt(sym, Chain(read, ip, bp, k).ip) == Some(Walk(read, ip, bp, sym, fuel).frames[k])
    decreases fuel
  {
    if k > 0 {
      WalkLong(read, ip, bp, sym, fuel);
      var next := read(bp);
      var rest := Walk(read, next.ip, next.bp, sym, fuel - 1);
      WalkContinues(read, ip, bp, sym, fuel);
      WalkFollowsChain(read, next.ip, next.bp, sym, fuel - 1, k - 1);
      ChainShift(read, ip, bp, k - 1);
    }
  }

  /** The walk stops at the first `main`: no earlier frame is `main`, and a walk that returns
      `Ok` ends with the `main` frame. */
  lemma {:induction false} WalkStopsAtMain(read: Reader, ip: Addr, bp: Addr, sym: Symbols, fuel: nat)
    ensures var t := Walk(read, ip, bp, sym, fuel);
      && (forall k :: 0 <= k < |t.frames| - 1 ==> t.frames[k].name != "main")
      && (t.end == Finished(Ok(())) ==> |t.frames| > 0 && t.frames[|t.frames| - 1].name == "main")
    decreases fuel
  {
    if fuel > 0 && FrameAt(sym, ip).Some? && FrameAt(sym, ip).value.name != "main"
       && read(bp).Next? {
      var next := (read(bp).ip, read(bp).bp);
      WalkStopsAtMain(read, next.0, next.1, sym, fuel - 1);
    }
  }

  /** A walk that ends with an error ends at a frame other than `main` whose frame record
      could not be read. */
  lemma {:induction false} WalkErrorIsUnreadableRecord(read: Reader, ip: Addr, bp: Addr, sym: Symbols, fuel: nat)
    requires Walk(read, ip, bp, sym, fuel).end.Finished? && Walk(read, ip, bp, sym, fuel).end.r.Err?
    ensures var t := Walk(read, ip, bp, sym, fuel);
      && |t.frames| > 0 && t.frames[|t.frames| - 1].name != "main"
      && Chain(read, ip, bp, |t.frames| - 1).Next?
      && read(Chain(read, ip, bp, |t.frames| - 1).bp) == Unreadable(t.end.r.errno)
    decreases fuel
  {
    var t := Walk(read, ip, bp, sym, fuel);
    WalkStep(read, ip, bp, sym, fuel);
    assert fuel > 0 && FrameAt(sym, ip).Some? && FrameAt(sym, ip).value.name != "main";
    if read(bp).Next? {
      var next := (read(bp).ip, read(bp).bp);
      var rest := Walk(read, next.0, next.1, sym, fuel - 1);
      assert t == Prepend([FrameAt(sym, ip).value], rest);
      WalkErrorIsUnreadableRecord(read, next.0, next.1, sym, fuel - 1);
      assert t.frames[|t.frames| - 1] == rest.frames[|rest.frames| - 1];
      ChainShift(read, ip, bp, |rest.frames| - 1);
    }
  }

  /** When the chain is good for `k + 1` steps, the chain from the caller's record is the same
      chain shifted by one. */
  lemma ChainTail(read: Reader, ip: Addr, bp: Addr, k: nat)
    requires k >= 1 && forall j :: 0 <= j <= k ==> Chain(read, ip, bp, j).Next?
    ensures read(bp).Next?
    ensures forall j :: 0 <= j < k ==> Chain(read, ip, bp, j + 1) == Chain(read, read(bp).ip, read(bp).bp, j)
  {
    assert Chain(read, ip, bp, 1).Next?;
    forall j | 0 <= j < k
      ensures Chain(read, ip, bp, j + 1) == Chain(read, read(bp).ip, read(bp).bp, j)
    {
      ChainShift(read, ip, bp, j);
    }
  }

  /** A walk along a frame-pointer chain whose first `k` frames are known and not `main` and
      whose frame `k` is `main` ends there with `Ok`, having printed `k + 1` frames. */
  lemma {:induction false} WalkReachesMain(read: Reader, ip: Addr, bp: Addr, sym: Symbols, fuel: nat, k: nat)
    requires fuel > k
    requires forall j :: 0 <= j <= k ==> Chain(read, ip, bp, j).Next? && FrameAt(sym, Chain(read, ip, bp, j).ip).Some?
    requires forall j :: 0 <= j < k ==> FrameAt(sym, Chain(read, ip, bp, j).ip).value.name != "main"
    requires FrameAt(sym, Chain(read, ip, bp, k).ip).value.name == "main"
    ensures Walk(read, ip, bp, sym, fuel).end == Finished(Ok(()))
    ensures |Walk(read, ip, bp, sym, fuel).frames| == k + 1
    decreases k
  {
    assert Chain(read, ip, bp, 0) == Next(ip, bp);
    if k > 0 {
      ChainTail(read, ip, bp, k);
      var next := read(bp);
      WalkReachesMain(read, next.ip, next.bp, sym, fuel - 1, k - 1);
    }
  }

  /** A walk along a chain whose first `k + 1` frames are known and not `main`, and whose
      `k`-th frame record cannot be read, ends with that read's error after `k + 1` frames. */
  lemma {:induction false} WalkReachesUnreadable(read: Reader, ip: Addr, bp: Addr, sym: Symbols, fuel: nat, k: nat, e: Errno)
    requires fuel > k
    requires forall j :: 0 <= j <= k ==>
      Chain(read, ip, bp, j).Next? && FrameAt(sym, Chain(read, ip, bp, j).ip).Some?
      && FrameAt(sym, Chain(read, ip, bp, j).ip).value.name != "main"
    requires read(Chain(read, ip, bp, k).bp) == Unreadable(e)
    ensures Walk(read, ip, bp, sym, fuel).end == Finished(Err(e))
    ensures |Walk(read, ip, bp, sym, fuel).frames| == k + 1
    decreases k
  {
    assert Chain(read, ip, bp, 0) == Next(ip, bp);
    if k > 0 {
      ChainTail(read, ip, bp, k);
      var next := read(bp);
      WalkReachesUnreadable(read, next.ip, next.bp, sym, fuel - 1, k - 1, e);
    }
  }

  /** Likewise, a frame record whose `bp + 8` overflows ends the walk in a panic after
      `k + 1` frames. */
  lemma {:induction false} WalkReachesOverflow(read: Reader, ip: Addr, bp: Addr, sym: Symbols, fuel: nat, k: nat)
    requires fuel > k
    requires forall j :: 0 <= j <= k ==>
      Chain(read, ip, bp, j).Next? && FrameAt(sym, Chain(read, ip, bp, j).ip).Some?
      && FrameAt(sym, Chain(read, ip, bp, j).ip).value.name != "main"
    requires read(Chain(read, ip, bp, k).bp) == Overflow
    ensures Walk(read, ip, bp, sym, fuel).end == Panicked
    ensures |Walk(read, ip, bp, sym, fuel).frames| == k + 1
    decreases k
  {
    assert Chain(read, ip, bp, 0) == Next(ip, bp);
    if k > 0 {
      ChainTail(read, ip, bp, k);
      var next := read(bp);
      WalkReachesOverflow(read, next.ip, next.bp, sym, fuel - 1, k - 1);
    }
  }

  /** At most one frame is printed per unit of fuel, and exactly that many when the walk is
      cut short. */
  lemma {:induction false} WalkWithinFuel(read: Reader, ip: Addr, bp: Addr, sym: Symbols, fuel: nat)
    ensures |Walk(read, ip, bp, sym, fuel).frames| <= fuel
    ensures Walk(read, ip, bp, sym, fuel).end == OutOfFuel ==> |Walk(read, ip, bp, sym, fuel).frames| == fuel
    decreases fuel
  {
    if fuel > 0 && read(bp).Next? {
      var next := (read(bp).ip, read(bp).bp);
      WalkWithinFuel(read, next.0, next.1, sym, fuel - 1);
    }
  }

  /** A walk that ended on its own ends the same way with any larger fuel. */
  lemma {:induction false} WalkFuelIrrelevant(read: Reader, ip: Addr, bp: Addr, sym: Symbols, fuel: nat, more: nat)
    requires Walk(read, ip, bp, sym, fuel).end != OutOfFuel
    ensures Walk(read, ip, bp, sym, fuel + more) == Walk(read, ip, bp, sym, fuel)
    decreases fuel
  {
    if read(bp).Next? && FrameAt(sym, ip).Some? && FrameAt(sym, ip).value.name != "main" {
      var next := (read(bp).ip, read(bp).bp);
      WalkFuelIrrelevant(read, next.0, next.1, sym, fuel - 1, more);
    }
  }

  /** The first frame printed is the one at the stopped child's instruction pointer; a child
      that is not stopped prints nothing and the read of its registers fails. */
  lemma BacktraceStartsAtRip(p: Proc, sym: Symbols, fuel: nat)
    ensures p.phase != InStop ==> Backtrace(p, sym, fuel) == Trace([], Finished(Err(ESRCH)))
    ensures p.phase == InStop && fuel > 0 && FrameAt(sym, p.regs.rip).Some? ==>
      |Backtrace(p, sym, fuel).frames| > 0 && Backtrace(p, sym, fuel).frames[0] == FrameAt(sym, p.regs.rip).value
  {
  }
}
