/** `struct Debugger` (proj-1/deet/src/debugger.rs): address parsing for `break *addr`, and the
    commands as transitions on the slot that holds the current inferior and on the list of
    breakpoint addresses. */
module Deet {
  import opened Wrappers
  import opened Words
  import opened Ptrace
  import opened Protocol
  import opened ProtocolLemmas
  import opened Unwinder
  import opened InferiorControl

  // ---------------------------------------------------------------- parse_address

  /** `addr.to_lowercase().starts_with("0x")`. */
  predicate HasHexPrefix(s: string)
  {
    |s| >= 2 && s[0] == '0' && (s[1] == 'x' || s[1] == 'X')
  }

  /** The value of a hexadecimal digit of either case (`char::to_digit(16)`). */
  function HexValue(c: char): Option<nat>
  {
    if '0' <= c <= '9' then Some(c as int - '0' as int)
    else if 'a' <= c <= 'f' then Some(c as int - 'a' as int + 10)
    else if 'A' <= c <= 'F' then Some(c as int - 'A' as int + 10)
    else None
  }

  /** The value of a string of hexadecimal digits, most significant first; `None` when some
      character is not a digit. The empty string has the value 0. */
  function DigitsValue(s: string): Option<nat>
    decreases |s|
  {
    if s == [] then Some(0)
    else match DigitsValue(s[..|s| - 1])
      case None => None
      case Some(v) =>
        match HexValue(s[|s| - 1])
        case None => None
        case Some(d) => Some(16 * v + d)
  }

  /** `usize::from_str_radix(s, 16).ok()`: empty input and a lone sign are rejected, one
      leading `+` is allowed, every other character must be a hexadecimal digit, and the
      value must fit in a `usize`. */
  function FromStrRadix16(s: string): Option<Addr>
  {
    if s == [] || s == "+" || s == "-" then None
    else
      var digits := if s[0] == '+' then s[1..] else s;
      match DigitsValue(digits)
      case None => None
      case Some(v) => if v < ADDR_LIMIT then Some(v) else None
  }

  /** `parse_address`: drop one `0x` or `0X`, then parse the rest as hexadecimal. */
  function ParseAddress(addr: string): Option<Addr>
  {
    FromStrRadix16(if HasHexPrefix(addr) then addr[2..] else addr)
  }

  /** The lower-case hexadecimal digits of `n`, without leading zeros. */
  function HexDigits(n: nat): string
    decreases n
  {
    if n < 16 then ["0123456789abcdef"[n]]
    else HexDigits(n / 16) + ["0123456789abcdef"[n % 16]]
  }

  /** `format!("{:#x}", a)`, the form in which `break` prints an address. */
  function FormatHex(a: Addr): string
  {
    "0x" + HexDigits(a)
  }

  /** The digit printed for `d` reads back as `d`. */
  lemma HexCharValue(d: nat)
    requires d < 16
    ensures HexValue("0123456789abcdef"[d]) == Some(d)
  {
  }

  lemma {:induction false} HexDigitsValue(n: nat)
    ensures |HexDigits(n)| > 0 && DigitsValue(HexDigits(n)) == Some(n)
    ensures HexValue(HexDigits(n)[0]).Some?
    decreases n
  {
    var s := HexDigits(n);
    if n < 16 {
      HexCharValue(n);
      assert s[..0] == [];
    } else {
      var q, d := n / 16, n % 16;
      assert 16 * q + d == n;
      HexDigitsValue(q);
      HexCharValue(d);
      assert s == HexDigits(q) + ["0123456789abcdef"[d]];
      assert s[..|s| - 1] == HexDigits(q);
      assert s[0] == HexDigits(q)[0];
    }
  }

  /** The address `break` prints parses back to the same address. */
  lemma ParseFormatted(a: Addr)
    ensures ParseAddress(FormatHex(a)) == Some(a)
  {
    HexDigitsValue(a);
    assert FormatHex(a)[2..] == HexDigits(a);
  }

  /** One non-digit anywhere makes the digit string invalid. */
  lemma {:induction false} NonDigitRejected(s: string, i: nat)
    requires i < |s| && HexValue(s[i]).None?
    ensures DigitsValue(s).None?
    decreases |s|
  {
    if i < |s| - 1 {
      assert s[..|s| - 1][i] == s[i];
      NonDigitRejected(s[..|s| - 1], i);
    }
  }

  /** At most one prefix is dropped: `0x` (or `0X`) in front of a string without a prefix
      parses to the same result as the string alone, and in front of a string that has one
      it fails, because the inner `x` is not a digit. */
  lemma ParseStripsOnePrefix(s: string)
    ensures !HasHexPrefix(s) ==> ParseAddress("0x" + s) == ParseAddress(s) && ParseAddress("0X" + s) == ParseAddress(s)
    ensures HasHexPrefix(s) ==> ParseAddress("0x" + s).None? && ParseAddress("0X" + s).None?
  {
    assert ("0x" + s)[2..] == s && ("0X" + s)[2..] == s;
    if HasHexPrefix(s) {
      NonDigitRejected(s, 1);
    }
  }

  /** The example of a doubled prefix. */
  lemma DoublePrefixRejected()
    ensures ParseAddress("0x0x1") == None
  {
    ParseStripsOnePrefix("0x1");
    assert "0x" + "0x1" == "0x0x1";
  }

  /** What remains to be read as digits after the prefix and a leading `+` are dropped. */
  function Remainder(addr: string): string
  {
    var s := if HasHexPrefix(addr) then addr[2..] else addr;
    if |s| > 0 && s[0] == '+' then s[1..] else s
  }

  /** An address is accepted only when the remainder is a non-empty string of hexadecimal
      digits whose value is the address: nothing empty, nothing with another character. */
  lemma {:induction false} ParseAcceptsOnlyDigits(addr: string)
    requires ParseAddress(addr).Some?
    ensures |Remainder(addr)| > 0
    ensures forall i :: 0 <= i < |Remainder(addr)| ==> HexValue(Remainder(addr)[i]).Some?
    ensures DigitsValue(Remainder(addr)) == Some(ParseAddress(addr).value)
  {
    var r := Remainder(addr);
    forall i | 0 <= i < |r|
      ensures HexValue(r[i]).Some?
    {
      if HexValue(r[i]).None? {
        NonDigitRejected(r, i);
      }
    }
  }

  /** A string of hexadecimal digits only has a value. */
  lemma {:induction false} DigitsAccepted(s: string)
    requires forall i :: 0 <= i < |s| ==> HexValue(s[i]).Some?
    ensures DigitsValue(s).Some?
    decreases |s|
  {
    if s != [] {
      DigitsAccepted(s[..|s| - 1]);
    }
  }

  /** The converse of `ParseAcceptsOnlyDigits`: any non-empty string of hexadecimal digits,
      behind one optional prefix and one optional `+`, parses to its value when that fits in a
      `usize` and is rejected when it does not. */
  lemma ParseAcceptsAnyDigits(prefix: string, sign: string, d: string)
    requires prefix == "" || prefix == "0x" || prefix == "0X"
    requires sign == "" || sign == "+"
    requires |d| > 0 && forall i :: 0 <= i < |d| ==> HexValue(d[i]).Some?
    ensures DigitsValue(d).Some?
    ensures DigitsValue(d).value < ADDR_LIMIT ==> ParseAddress(prefix + (sign + d)) == Some(DigitsValue(d).value)
    ensures DigitsValue(d).value >= ADDR_LIMIT ==> ParseAddress(prefix + (sign + d)) == None
  {
    DigitsAccepted(d);
    SignedDigits(sign, d);
    PrefixDropped(prefix, sign + d);
  }

  /** With an optional `+` in front, a digit string is read as its value. */
  lemma SignedDigits(sign: string, d: string)
    requires sign == "" || sign == "+"
    requires |d| > 0 && forall i :: 0 <= i < |d| ==> HexValue(d[i]).Some?
    requires DigitsValue(d).Some?
    ensures !HasHexPrefix(sign + d)
    ensures FromStrRadix16(sign + d) ==
      if DigitsValue(d).value < ADDR_LIMIT then Some(DigitsValue(d).value) else None
  {
    if sign == "" {
      assert sign + d == d;
      UnsignedDigits(d);
    } else {
      var t := sign + d;
      assert t[0] == '+' && t[1..] == d;
      assert t != "+" && t != "-" by { assert |t| >= 2; }
    }
  }

  /** A digit string is neither a lone sign nor signed, and has no prefix. */
  lemma UnsignedDigits(d: string)
    requires |d| > 0 && forall i :: 0 <= i < |d| ==> HexValue(d[i]).Some?
    requires DigitsValue(d).Some?
    ensures !HasHexPrefix(d)
    ensures FromStrRadix16(d) ==
      if DigitsValue(d).value < ADDR_LIMIT then Some(DigitsValue(d).value) else None
  {
    assert HexValue(d[0]).Some?;
    assert d[0] != '+' && d[0] != '-';
    assert d != "+" && d != "-" by { assert d[0] != "+"[0] && d[0] != "-"[0]; }
    assert |d| >= 2 ==> HexValue(d[1]).Some?;
  }

  /** A string without a prefix reads the same behind `0x`, `0X` or nothing. */
  lemma PrefixDropped(prefix: string, t: string)
    requires prefix == "" || prefix == "0x" || prefix == "0X"
    requires !HasHexPrefix(t)
    ensures ParseAddress(prefix + t) == FromStrRadix16(t)
  {
    if prefix == "" {
      assert prefix + t == t;
    } else {
      assert (prefix + t)[2..] == t;
    }
  }

  /** An empty address, or a bare prefix, is rejected. */
  lemma ParseRejectsEmpty()
    ensures ParseAddress("") == None && ParseAddress("0x") == None && ParseAddress("0X") == None
  {
  }

  // ---------------------------------------------------------------- the commands, as values

  /** The inferior slot, seen as a value: the child and its breakpoint table. */
  type Slot = Option<(Proc, Breakpoints)>

  /** What `Debugger::wake_and_wait` reports after the inferior is woken. */
  datatype Report =
    | ChildStopped(sig: Signal, line: Line)
    | ChildExited(code: I32)
    | ChildSignaled(sig: Signal)
    | WakeFailed(errno: Errno)

  /** `clean`: the inferior in the slot, if any, is killed; the slot still holds it. */
  function Cleaned(slot: Slot): Slot
  {
    match slot
    case None => None
    case Some((p, b)) => Some((Ptrace.Kill(p).1, b))
  }

  /** The report the debugger gives for the outcome of `Inferior::wake_and_wait`; a stop whose
      address has no line is the panic of `unwrap`. */
  function Describe(r: Completion<Result<Status>>, sym: Symbols): Completion<Report>
  {
    match r
    case Panics => Panics
    case Returns(Err(e)) => Returns(WakeFailed(e))
    case Returns(Ok(Exited(code))) => Returns(ChildExited(code))
    case Returns(Ok(Signaled(sig))) => Returns(ChildSignaled(sig))
    case Returns(Ok(Stopped(sig, rip))) =>
      match sym.lineOf(rip)
      case None => Panics
      case Some(l) => Returns(ChildStopped(sig, l))
  }

  /** `Debugger::wake_and_wait` on an inferior, with the debugger's list of breakpoints. */
  function Resumed(p: Proc, b: Breakpoints, list: seq<Addr>, ev: Events, sym: Symbols): (Completion<Report>, Slot)
  {
    var (r, q, b') := WakeAndWait(p, b, list, ev);
    (Describe(r, sym), Some((q, b')))
  }

  function Lift(c: Completion<Report>): Completion<Option<Report>>
  {
    match c
    case Panics => Panics
    case Returns(x) => Returns(Some(x))
  }

  /** The `run` command: clean, start a new inferior with the breakpoint list and, when it
      started, wake it. `Returns(None)` is "Error starting subprocess". */
  function Relaunched(slot: Slot, list: seq<Addr>, spawned: Option<Memory>, ev: Events, sym: Symbols)
    : (Completion<Option<Report>>, Slot)
  {
    var s := Cleaned(slot);
    match Launch(spawned, list, ev)
    case Panics => (Panics, s)
    case Returns(None) => (Returns(None), s)
    case Returns(Some((q, b))) =>
      var (rep, s') := Resumed(q, b, list, ev, sym);
      (Lift(rep), s')
  }

  /** `clean` keeps the slot occupied: the inferior is killed, its table kept. */
  lemma CleanKeepsSlot(slot: Slot)
    ensures Cleaned(slot).Some? <==> slot.Some?
    ensures slot.Some? ==> Cleaned(slot).value == (Ptrace.Kill(slot.value.0).1, slot.value.1)
    ensures slot.Some? && slot.value.0.phase != Gone ==> Cleaned(slot).value.0.phase == Running
  {
  }

  /** A `run` whose start fails leaves the killed inferior in the slot. */
  lemma FailedRunKeepsKilled(slot: Slot, list: seq<Addr>, spawned: Option<Memory>, ev: Events, sym: Symbols)
    requires spawned.None? || !(ev(0).Ok? && ev(0).value.WStopped?)
    ensures Relaunched(slot, list, spawned, ev, sym) == (Returns(None), Cleaned(slot))
  {
    LaunchFails(spawned, list, ev);
  }

  /** A `run` that starts replaces the slot with the new child. Because the whole breakpoint
      list is installed again when the new child is first woken, every listed address ends up
      recording the trap byte `0xcc` as the byte it replaced. */
  lemma {:induction false} RunRecordsTrapEverywhere(slot: Slot, list: seq<Addr>, mem: Memory, ev: Events, sym: Symbols)
    requires ev(0).Ok? && ev(0).value.WStopped?
    requires forall a :: a in list ==> AlignAddrToWord(a) in mem
    ensures var s := Relaunched(slot, list, Some(mem), ev, sym).1;
      && s.Some?
      && s.value.1.Keys == (set a | a in list)
      && (forall a :: a in list ==> s.value.1[a] == Some(TRAP))
  {
    LaunchArmsAll(mem, list, ev);
    var (q, b) := Launch(Some(mem), list, ev).value.value;
    InstallSucceeds(q, b, list);
    InstallTable(q, b, list);
    var (_, q1, b1) := InstallAll(q, b, list);
    ResumeKeepsTable(q1, b1, ev);
    assert Relaunched(slot, list, Some(mem), ev, sym).1 == Some((ResumeFrom(q1, b1, ev).1, b1));
    forall a | a in list
      ensures b1[a] == Some(TRAP)
    {
      RepatchRecordsTrap(q, b, list, a);
    }
  }

  // ---------------------------------------------------------------- the debugger

  class Debugger {
    /** `inferior: Option<Inferior>`. */
    var inferior: Option<Inferior>
    /** `breakpoints: Vec<usize>`. */
    var breakpoints: seq<Addr>
    /** `dwarf_data`, through its two lookups. */
    const symbols: Symbols

    /** `Debugger::new`, once the debug information is loaded. */
    constructor (symbols: Symbols)
      ensures inferior == None && breakpoints == [] && this.symbols == symbols
    {
      inferior := None;
      breakpoints := [];
      this.symbols := symbols;
    }

    ghost function Footprint(): set<object>
      reads this
    {
      {this} + (if inferior.Some? then {inferior.value} else {})
    }

    /** The slot as a value. */
    function Slot(): Slot
      reads this, Footprint()
    {
      if inferior.Some? then Some((inferior.value.child, inferior.value.bps)) else None
    }

    /** `clean` (also what `quit` does before returning): kill the inferior, if any, and keep it. */
    method Clean()
      modifies Footprint()
      ensures inferior == old(inferior) && breakpoints == old(breakpoints)
      ensures Slot() == Cleaned(old(Slot()))
    {
      if inferior.Some? {
        var _ := inferior.value.Kill();  // the outcome is only printed
      }
    }

    /** `Debugger::wake_and_wait`: wake the inferior with the breakpoint list and report. */
    method WakeAndWait() returns (r: Completion<Report>)
      modifies Footprint()
      ensures inferior == old(inferior) && breakpoints == old(breakpoints)
      ensures old(inferior).None? ==> r == Panics  // `unwrap` on an empty slot
      ensures old(inferior).Some? ==>
        (r, Slot()) == Resumed(old(Slot()).value.0, old(Slot()).value.1, breakpoints, inferior.value.events, symbols)
    {
      if inferior.None? {
        return Panics;
      }
      var status := inferior.value.WakeAndWait(breakpoints);
      match status {
        case Panics =>
          return Panics;
        case Returns(Ok(Stopped(sig, rip))) =>
          var line := symbols.lineOf(rip);
          if line.None? {
            return Panics;
          }
          return Returns(ChildStopped(sig, line.value));
        case Returns(Ok(Exited(code))) =>
          return Returns(ChildExited(code));
        case Returns(Ok(Signaled(sig))) =>
          return Returns(ChildSignaled(sig));
        case Returns(Err(e)) =>
          return Returns(WakeFailed(e));
      }
    }

    /** The `run` command: `spawned` is the address space of the child the spawn produced, or
        `None` when it failed; `events` is what that child will report. */
    method Run(spawned: Option<Memory>, events: Events) returns (r: Completion<Option<Report>>)
      modifies Footprint()
      ensures breakpoints == old(breakpoints)
      ensures (r, Slot()) == Relaunched(old(Slot()), breakpoints, spawned, events, symbols)
      ensures Launch(spawned, breakpoints, events).Returns? && Launch(spawned, breakpoints, events).value.Some?
        ==> inferior.Some? && fresh(inferior.value) && inferior.value.events == events
      ensures !(Launch(spawned, breakpoints, events).Returns? && Launch(spawned, breakpoints, events).value.Some?)
        ==> inferior == old(inferior)
    {
      Clean();
      var launched := Inferior.New(spawned, breakpoints, events);
      match launched {
        case Panics =>
          return Panics;
        case Returns(None) =>
          return Returns(None);  // "Error starting subprocess"
        case Returns(Some(started)) =>
          inferior := Some(started);
          var report := WakeAndWait();
          return Lift(report);
      }
    }

    /** The `continue` command: nothing is resumed when there is no inferior. */
    method Continue() returns (r: Completion<Option<Report>>)
      modifies Footprint()
      ensures inferior == old(inferior) && breakpoints == old(breakpoints)
      ensures old(inferior).None? ==> r == Returns(None) && Slot() == None
      ensures old(inferior).Some? ==>
        var (report, s) := Resumed(old(Slot()).value.0, old(Slot()).value.1, breakpoints, inferior.value.events, symbols);
        r == Lift(report) && Slot() == s
    {
      if inferior.None? {
        return Returns(None);  // "Inferior is not running"
      }
      var report := WakeAndWait();
      return Lift(report);
    }

    /** The `backtrace` command: an empty slot is the panic of `unwrap`; otherwise the frames
        printed by `print_backtrace`, whose result is ignored. */
    method Backtrace(fuel: nat) returns (r: Completion<Trace>)
      ensures r == if Slot().None? then Panics else Returns(Unwinder.Backtrace(Slot().value.0, symbols, fuel))
    {
      if inferior.None? {
        return Panics;
      }
      var t := inferior.value.PrintBacktrace(symbols, fuel);
      return Returns(t);
    }

    /** The `break` command. `*addr` appends the parsed address and returns the index it
        prints (the old length of the list); an unparsable address is the panic of `expect`;
        any other argument is ignored. */
    method Break(arg: string) returns (r: Completion<Option<nat>>)
      modifies this`breakpoints
      ensures |arg| > 0 && arg[0] == '*' && ParseAddress(arg[1..]).Some? ==>
        r == Returns(Some(|old(breakpoints)|)) && breakpoints == old(breakpoints) + [ParseAddress(arg[1..]).value]
      ensures |arg| > 0 && arg[0] == '*' && ParseAddress(arg[1..]).None? ==>
        r == Panics && breakpoints == old(breakpoints)
      ensures !(|arg| > 0 && arg[0] == '*') ==> r == Returns(None) && breakpoints == old(breakpoints)
    {
      if |arg| > 0 && arg[0] == '*' {
        var addr := ParseAddress(arg[1..]);
        if addr.None? {
          return Panics;
        }
        var index := |breakpoints|;
        breakpoints := breakpoints + [addr.value];
        return Returns(Some(index));
      }
      return Returns(None);
    }
  }
}
