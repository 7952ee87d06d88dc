/** The kernel's side of tracing, as the debugger sees it through ptrace and waitpid.
    The traced child is a value: its word-addressed memory, the two registers the
    debugger uses, whether it can be inspected right now, and how many wait outcomes it
    has reported. What the child does when it runs is not modelled; the outcome of each
    wait comes from a supplied sequence of events. */
module Ptrace {
  import opened Words

  /** The `nix::Error` values the model produces. */
  datatype Errno =
    | ESRCH   // no such (stopped) tracee
    | EIO     // the address is not mapped
    | ECHILD  // nothing left to wait for
    | EINTR   // an interrupted wait

  /** `Result<T, nix::Error>`. */
  datatype Result<+T> = Ok(value: T) | Err(errno: Errno)

  /** A signal number (`nix::sys::signal::Signal`); SIGTRAP is 5. */
  type Signal = s: int | 1 <= s < 32 witness 5

  /** An exit status (`i32`). */
  type I32 = x: int | -0x8000_0000 <= x < 0x8000_0000

  /** The registers the debugger reads and writes. */
  datatype Regs = Regs(rip: Addr, rbp: Addr)

  /** `nix::sys::wait::WaitStatus`, without the pid. A stop also reports the registers the
      child has at that stop. */
  datatype WaitStatus =
    | WExited(code: I32)
    | WSignaled(sig: Signal, coreDumped: bool)
    | WStopped(sig: Signal, regs: Regs)
    | WPtraceEvent(sig: Signal, event: int)
    | WPtraceSyscall
    | WContinued
    | WStillAlive

  /** The outcome of the n-th wait on the child. */
  type Events = nat -> Result<WaitStatus>

  /** InStop: stopped under trace, so ptrace requests succeed. Running: resumed, or killed
      and not yet reaped. Gone: its exit or death has been reported by a wait. */
  datatype Phase = InStop | Running | Gone

  /** Word-addressed memory: an address absent from the map is unmapped. */
  type Memory = map<Addr, Word>

  datatype Proc = Proc(mem: Memory, regs: Regs, phase: Phase, waits: nat)

  /** `ptrace::read` (PTRACE_PEEKDATA). */
  function PeekData(p: Proc, a: Addr): Result<Word>
  {
    if p.phase != InStop then Err(ESRCH)
    else if a !in p.mem then Err(EIO)
    else Ok(p.mem[a])
  }

  /** `ptrace::write` (PTRACE_POKEDATA). */
  function PokeData(p: Proc, a: Addr, w: Word): (Result<()>, Proc)
  {
    if p.phase != InStop then (Err(ESRCH), p)
    else if a !in p.mem then (Err(EIO), p)
    else (Ok(()), p.(mem := p.mem[a := w]))
  }

  /** `ptrace::getregs`. */
  function GetRegs(p: Proc): Result<Regs>
  {
    if p.phase != InStop then Err(ESRCH) else Ok(p.regs)
  }

  /** `ptrace::setregs`. */
  function SetRegs(p: Proc, r: Regs): (Result<()>, Proc)
  {
    if p.phase != InStop then (Err(ESRCH), p) else (Ok(()), p.(regs := r))
  }

  /** `ptrace::step` and `ptrace::cont`: both let the stopped child run. */
  function Resume(p: Proc): (Result<()>, Proc)
  {
    if p.phase != InStop then (Err(ESRCH), p) else (Ok(()), p.(phase := Running))
  }

  /** `waitpid`: takes the next outcome; a stop makes the child inspectable with the
      registers it reports, an exit or a death makes it gone. */
  function Waitpid(p: Proc, ev: Events): (Result<WaitStatus>, Proc)
  {
    if p.phase == Gone then (Err(ECHILD), p)
    else
      var w := ev(p.waits);
      var q := p.(waits := p.waits + 1);
      match w
      case Ok(WStopped(_, regs)) => (w, q.(phase := InStop, regs := regs))
      case Ok(WExited(_)) => (w, q.(phase := Gone))
      case Ok(WSignaled(_, _)) => (w, q.(phase := Gone))
      case _ => (w, q)
  }

  /** `Child::kill`: SIGKILL; fails once the child has been reaped. */
  function Kill(p: Proc): (Result<()>, Proc)
  {
    if p.phase == Gone then (Err(ESRCH), p) else (Ok(()), p.(phase := Running))
  }
}
