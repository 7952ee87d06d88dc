/** The process-control logic of `Inferior` (proj-1/deet/src/inferior.rs) as functions on the
    traced child: status classification, breakpoint installation, the step-over protocol of
    `wake_and_wait`, and the launch sequence of `new`. The class `InferiorControl.Inferior`
    runs the same steps imperatively and is proved to agree with these functions. */
module Protocol {
  import opened Wrappers
  import opened Words
  import opened Ptrace
  import Patcher

  /** The x86 `int3` instruction. */
  const TRAP: Byte := 0xcc

  /** `bps: HashMap<usize, Option<u8>>`: breakpoint address to the byte its trap replaced. */
  type Breakpoints = map<Addr, Option<Byte>>

  /** `inferior::Status`. */
  datatype Status =
    | Stopped(sig: Signal, rip: Addr)
    | Exited(code: I32)
    | Signaled(sig: Signal)

  /** The classification `wait` applies to a wait outcome: the three expected shapes map to a
      status (a stop carries the rip the child has at that stop), any other shape is the
      `panic!` of the catch-all arm, and a failed wait is passed on. */
  function Classify(w: Result<WaitStatus>): Completion<Result<Status>>
  {
    match w
    case Err(e) => Returns(Err(e))
    case Ok(WExited(code)) => Returns(Ok(Exited(code)))
    case Ok(WSignaled(sig, _)) => Returns(Ok(Signaled(sig)))
    case Ok(WStopped(sig, regs)) => Returns(Ok(Stopped(sig, regs.rip)))
    case Ok(_) => Panics
  }

  /** `Inferior::wait`: waitpid, then on a stop read the registers for rip. */
  function Wait(p: Proc, ev: Events): (Completion<Result<Status>>, Proc)
  {
    var (w, q) := Waitpid(p, ev);
    match w
    case Ok(WStopped(sig, _)) =>
      (match GetRegs(q)
       case Err(e) => Returns(Err(e))
       case Ok(regs) => Returns(Ok(Stopped(sig, regs.rip))), q)
    case _ => (Classify(w), q)
  }

  /** One iteration of the install loop: patch a trap in and record the byte it replaced.
      The first component is false when `write_byte` failed, where the `expect` panics. */
  function InstallOne(p: Proc, bps: Breakpoints, addr: Addr): (bool, Proc, Breakpoints)
  {
    var (r, q) := Patcher.WriteByte(p, addr, TRAP);
    if r.Err? then (false, q, bps) else (true, q, bps[addr := Some(r.value)])
  }

  /** The install loop of `new` and of `wake_and_wait`, over the list in order. */
  function InstallAll(p: Proc, bps: Breakpoints, list: seq<Addr>): (bool, Proc, Breakpoints)
    decreases |list|
  {
    if list == [] then (true, p, bps)
    else
      var (ok, q, b) := InstallOne(p, bps, list[0]);
      if !ok then (false, q, b) else InstallAll(q, b, list[1..])
  }

  /** Restore the saved byte at `rip - 1` (the result is ignored, as in `let _ =`) and write the
      registers back with rip rewound by one. */
  function Rewind(p: Proc, regs: Regs, orig: Byte): (Result<()>, Proc)
    requires regs.rip >= 1
  {
    var (_, q) := Patcher.WriteByte(p, regs.rip - 1, orig);
    SetRegs(q, regs.(rip := regs.rip - 1))
  }

  /** The step-over of `wake_and_wait` for a child sitting just after the trap at `rip - 1`.
      `Some(r)` means `wake_and_wait` returns `r` at once; `None` means the trap was re-armed
      and the caller goes on to continue. */
  function StepOver(p: Proc, regs: Regs, orig: Byte, ev: Events): (Option<Completion<Result<Status>>>, Proc)
    requires regs.rip >= 1
  {
    var (s, p1) := Rewind(p, regs, orig);
    if s.Err? then (Some(Returns(Err(s.errno))), p1)
    else
      var (t, p2) := Resume(p1);
      if t.Err? then (Some(Returns(Err(t.errno))), p2)
      else
        var (w, p3) := Wait(p2, ev);
        match w
        case Returns(Ok(Stopped(_, _))) =>
          var (_, p4) := Patcher.WriteByte(p3, regs.rip - 1, TRAP);
          (None, p4)
        case Returns(Ok(status)) => (Some(Returns(Ok(status))), p3)
        case _ => (Some(Panics), p3)  // `unwrap` of a failed wait, or the panic inside `wait`
  }

  /** `ptrace::cont` then `wait`. */
  function ContinueAndWait(p: Proc, ev: Events): (Completion<Result<Status>>, Proc)
  {
    var (c, q) := Resume(p);
    if c.Err? then (Returns(Err(c.errno)), q) else Wait(q, ev)
  }

  /** `Inferior::wake_and_wait(breakpoints)`: install the listed breakpoints, then resume. */
  function WakeAndWait(p: Proc, bps: Breakpoints, list: seq<Addr>, ev: Events)
    : (Completion<Result<Status>>, Proc, Breakpoints)
  {
    var (ok, p1, b1) := InstallAll(p, bps, list);
    if !ok then (Panics, p1, b1) else ResumeFrom(p1, b1, ev)
  }

  /** The rest of `wake_and_wait`: read rip, step over the trap the child is sitting after
      (when `rip - 1` has a saved byte), then continue and wait. A rip of 0 makes
      `instruction_ptr - 1` overflow, which panics. The table is not changed. */
  function ResumeFrom(p: Proc, bps: Breakpoints, ev: Events): (Completion<Result<Status>>, Proc, Breakpoints)
  {
    match GetRegs(p)
    case Err(e) => (Returns(Err(e)), p, bps)
    case Ok(regs) =>
      if regs.rip == 0 then (Panics, p, bps)
      else if regs.rip - 1 in bps && bps[regs.rip - 1].Some? then
        var (early, p2) := StepOver(p, regs, bps[regs.rip - 1].value, ev);
        if early.Some? then (early.value, p2, bps)
        else
          var (r, p3) := ContinueAndWait(p2, ev);
          (r, p3, bps)
      else
        var (r, p2) := ContinueAndWait(p, ev);
        (r, p2, bps)
  }

  /** The child right after a successful spawn: running toward its first trap. */
  function Spawned(mem: Memory): Proc
  {
    Proc(mem, Regs(0, 0), Running, 0)
  }

  /** `Inferior::new`: `spawned` is the address space of the new child, or `None` when the
      spawn failed. The first wait must report a stop; then every listed breakpoint is
      installed into an empty table. */
  function Launch(spawned: Option<Memory>, list: seq<Addr>, ev: Events)
    : Completion<Option<(Proc, Breakpoints)>>
  {
    match spawned
    case None => Returns(None)
    case Some(mem) =>
      var (w, p) := Waitpid(Spawned(mem), ev);
      if !(w.Ok? && w.value.WStopped?) then Returns(None)
      else
        var (ok, q, b) := InstallAll(p, map[], list);
        if !ok then Panics else Returns(Some((q, b)))
  }
}
