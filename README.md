# deet, a linked list and hangman, modelled in Dafny

This project models three programs of the CS110L starter code.

- **deet** (proj-1/deet) is a small ptrace debugger. It launches a target under trace. It installs
  software breakpoints by patching the trap byte `0xcc` into the child's memory and keeps the
  replaced bytes in a table. It resumes the child, stepping over the trap the child stopped at.
  It classifies what `waitpid` reports, and prints a backtrace by walking saved frame pointers.
  - The traced child is a value (`Ptrace.Proc`): its word-addressed memory, `rip`/`rbp`, its
    phase, and how many waits it has answered.
  - Each ptrace and waitpid call is a function on that value.
  - Each wait's outcome comes from a supplied sequence of events.
  - `Inferior` and `Debugger` are classes whose methods update their fields in place. Each method
    is proved equal to a function (`Patcher`, `Protocol`, `Unwinder`, `Deet`), and the lemmas
    about those functions state what the code promises.
- **LinkedList** (week3/linked_list) is a singly linked list of boxed nodes with a cached size.
  The node chain is a datatype, because a `Box` has exactly one owner. The list object is a
  class, with the invariant that `size` equals the number of nodes.
- **hangman** (week1/part-3-hangman) is a guessing game: the game loop, one guess, and the final
  win test. The secret word and the lines the player types are inputs.

Rust panics (`unwrap`, `expect`, `panic!`, and the debug-build overflow of `rip - 1`) are
modelled as the result `Completion.Panics`. The backtrace is the exception: its walk returns a
`Unwinder.Trace` holding the frames printed before the end, so a panic there (a failed lookup's
`unwrap`, or the overflow of `bp + 8`) is the ending `Unwinder.End.Panicked` inside that trace.

Four behaviours of the code that a caller may not expect. Each is modelled as the code does it:

- `wake_and_wait` installs every breakpoint again on each call, and so does the first call that
  follows `Inferior::new`. Re-patching an address that already holds `0xcc` records `0xcc` as its
  saved byte, so a later rewind writes `0xcc` back and the instruction byte it replaced is lost
  (`ProtocolLemmas.RepatchRecordsTrap`, `Deet.RunRecordsTrapEverywhere`). A caller would expect a
  re-added breakpoint to keep the byte saved when it was first installed.
- `print_backtrace` has no bound on its loop, so a frame-pointer chain that cycles without
  reaching `main` or an unreadable record would loop forever. The model bounds the walk with a
  `fuel` argument and reports `OutOfFuel` when the bound is reached.
- `Inferior::kill` fails with `ESRCH` once the child's end has been reported by a wait, as
  `kill(2)` does on a reaped process. `clean` then prints "Failed to kill" for a child that has
  already exited, where a caller would expect killing a finished child to succeed quietly.
- `Debugger::wake_and_wait` (proj-1/deet/src/debugger.rs:112) calls `wake_and_wait()` with no
  argument, although the method takes the breakpoint list. The model passes the debugger's list.

## Model

| member | source | states |
|---|---|---|
| Words.AlignAddrToWord | proj-1/deet/src/inferior.rs:11-13 | The aligned address is a multiple of 8, is at most the address, and is less than 8 below it. |
| Words.SpliceByte | proj-1/deet/src/inferior.rs:162-164 | After the mask and the or, the byte at the offset is the new value. |
| Words.SpliceKeepsOtherBytes | proj-1/deet/src/inferior.rs:163-164 | The other seven bytes of the word are unchanged. |
| Words.SpliceOwnByte | proj-1/deet/src/inferior.rs:162-164 | Splicing in the byte already there gives back the word. |
| Words.SpliceTwice | proj-1/deet/src/inferior.rs:163-164 | A second splice at the same offset overrides the first. |
| Words.OffsetsDiffer | proj-1/deet/src/inferior.rs:159-160 | Two distinct addresses in the same aligned word have distinct byte offsets. |
| Patcher.WriteByte | proj-1/deet/src/inferior.rs:158-173 | `write_byte`: read the aligned word (its error is returned), splice the value in at the byte offset, write the word back, and return the byte that was there. What it guarantees is in the four lemmas that follow. |
| Patcher.WriteByteReturnsOriginal | proj-1/deet/src/inferior.rs:158-173 | `write_byte` succeeds iff the child is stopped and the word is mapped. It then returns the byte that was at the address. A failure changes nothing. |
| Patcher.WriteByteStoresValue | proj-1/deet/src/inferior.rs:158-173 | After a successful write the byte at the address is the value. Only the aligned word changed; the mapping and the registers did not. |
| Patcher.WriteByteKeepsOtherBytes | proj-1/deet/src/inferior.rs:158-173 | Every other address reads the same byte as before, in the same word or another. |
| Patcher.WriteByteRoundTrip | proj-1/deet/src/inferior.rs:158-173 | Writing back the byte a write returned gives back the original child exactly, and that second write returns the value. |
| Protocol.Classify | proj-1/deet/src/inferior.rs:120-128 | Exited and Signaled outcomes become the matching status, a stop becomes `Stopped` with its rip, a failed wait is passed on, and any other status is the `panic!` of the catch-all arm. |
| Protocol.Wait | proj-1/deet/src/inferior.rs:119-129 | `wait`: waitpid, then on a stop `getregs` for the rip. An error of either call is returned. |
| Protocol.InstallOne | proj-1/deet/src/inferior.rs:61-64 | One install iteration: patch `0xcc` at the address and record the byte it replaced under that address. A failed `write_byte` (where `expect` panics) leaves the table unchanged and reports failure. |
| Protocol.InstallAll | proj-1/deet/src/inferior.rs:60-65 | The install loop: `InstallOne` over the list in order, stopping at the first failure. |
| Protocol.Rewind | proj-1/deet/src/inferior.rs:92-95 | Write the saved byte back at `rip - 1`, ignoring that write's result, then `setregs` with rip moved back by one. |
| Protocol.StepOver | proj-1/deet/src/inferior.rs:92-105 | Rewind, single-step and wait. An error of `setregs` or `step` is returned at once, and so is an exit or a signal. A stop re-arms the trap at `rip - 1`, ignoring that write's result. A failed wait panics (`unwrap`). |
| Protocol.ContinueAndWait | proj-1/deet/src/inferior.rs:108-109 | `cont` (its error is returned), then `wait`. |
| Protocol.WakeAndWait | proj-1/deet/src/inferior.rs:76-110 | `wake_and_wait`: the install loop, where a failed write panics, then `ResumeFrom`. |
| Protocol.ResumeFrom | proj-1/deet/src/inferior.rs:85-109 | `getregs`, whose error is returned; a rip of 0 panics on `rip - 1`. When `rip - 1` has a saved byte the trap is stepped over first. Then continue and wait, leaving the table as it was. |
| Protocol.Launch | proj-1/deet/src/inferior.rs:45-73 | `new`: a failed spawn, a failed first wait or one that is not a stop gives `None`. Otherwise every listed breakpoint is installed into an empty table, and a failed write panics. |
| ProtocolLemmas.WaitClassifies | proj-1/deet/src/inferior.rs:119-129 | `wait` maps Exited, Signaled and Stopped to the matching status and passes an error on. It panics on any other status. It consumes one wait and leaves memory alone. |
| ProtocolLemmas.InstallTable | proj-1/deet/src/inferior.rs:60-65 | After the install loop the table's keys are the old keys plus the listed addresses. Each listed entry is `Some`; other entries are unchanged. |
| ProtocolLemmas.InstallKeepsShape | proj-1/deet/src/inferior.rs:60-65 | The install loop changes neither the mapped words, the registers, the phase nor the wait count. |
| ProtocolLemmas.InstallPatches | proj-1/deet/src/inferior.rs:60-65 | Every listed address holds `0xcc`; every unlisted address holds its old byte. |
| ProtocolLemmas.InstallArms | proj-1/deet/src/inferior.rs:78-83 | The three facts above, for the loop of `wake_and_wait`. |
| ProtocolLemmas.InstallRecords | proj-1/deet/src/inferior.rs:60-65 | An address listed once records the byte it replaced. An address listed twice records `0xcc`. |
| ProtocolLemmas.RepatchRecordsTrap | proj-1/deet/src/inferior.rs:78-83 | Re-patching an address that already holds the trap records `Some(0xcc)`. |
| ProtocolLemmas.InstallSucceeds | proj-1/deet/src/inferior.rs:60-65 | The loop succeeds (no `expect` panic) on a stopped child whose listed words are mapped. |
| ProtocolLemmas.InstallPanicsUnlessStopped | proj-1/deet/src/inferior.rs:78-83 | With a breakpoint listed, the loop fails (the `expect` panics) on a child that is not stopped. |
| ProtocolLemmas.RewindRestores | proj-1/deet/src/inferior.rs:92-95 | After the restore and the rewind, the saved byte is back at `rip - 1` and rip points at it. |
| ProtocolLemmas.StepOverEndsAtExit | proj-1/deet/src/inferior.rs:90-101 | At a trap, if the single step ends the process: its status is returned, only one wait is used, no continue follows, the byte stays restored, and the table is unchanged. |
| ProtocolLemmas.StepOverRearms | proj-1/deet/src/inferior.rs:90-109 | At a trap, if the single step stops: the trap is re-armed at `rip - 1` and every other byte is unchanged. The result is the second wait's classification, and the table is unchanged. |
| ProtocolLemmas.NoTrapJustContinues | proj-1/deet/src/inferior.rs:86-110 | Without a saved byte at `rip - 1`, memory is untouched and the result is that of one plain continue. |
| ProtocolLemmas.ResumeKeepsTable | proj-1/deet/src/inferior.rs:85-109 | Resuming never changes the breakpoint table. |
| ProtocolLemmas.RipZeroPanics | proj-1/deet/src/inferior.rs:90 | `instruction_ptr - 1` overflows, a panic, when rip is 0. |
| ProtocolLemmas.NotStoppedFails | proj-1/deet/src/inferior.rs:86 | On a child that is not stopped, `getregs` fails with nothing changed. |
| ProtocolLemmas.LaunchArmsAll | proj-1/deet/src/inferior.rs:45-73 | If the first wait stops the child and the listed words are mapped, `new` returns an inferior. It sits at the reported registers, with exactly the listed keys, every trap in place, and the replaced bytes recorded (`0xcc` for repeats). |
| ProtocolLemmas.LaunchFails | proj-1/deet/src/inferior.rs:51-72 | A failed spawn, or a first wait that is not a stop, gives `None`. |
| Unwinder.ReadRecord | proj-1/deet/src/inferior.rs:150-152 | The frame record at `bp`: `Overflow` when `bp + 8` does not fit in 64 bits (the debug-build panic). Otherwise the first failed read of `bp + 8`, then `bp`, gives `Unreadable` with its error, and two good reads give the word at `bp + 8` as the next ip and the word at `bp` as the next bp. |
| Unwinder.ReadRecordReads | proj-1/deet/src/inferior.rs:150-152 | A frame record read fails exactly when `bp + 8` overflows or a word is unreadable, with that read's error. Otherwise the next ip is the word at `bp + 8` and the next bp the word at `bp`. |
| Unwinder.Walk | proj-1/deet/src/inferior.rs:141-153 | The backtrace loop, for at most `fuel` iterations. A failed lookup panics before printing. Otherwise the frame is printed and the walk stops after `main`. If not, the frame record read gives the next ip and bp; an overflow panics and a failed read ends the walk with its error. |
| Unwinder.Backtrace | proj-1/deet/src/inferior.rs:136-156 | `print_backtrace`: `getregs`, whose error ends it with nothing printed, then the walk from the stopped child's rip and rbp over its memory's frame records. |
| Unwinder.WalkLong | proj-1/deet/src/inferior.rs:146-152 | A walk of more than one frame went through a non-`main` frame with a readable record. |
| Unwinder.ChainShift | proj-1/deet/src/inferior.rs:150-152 | Following the frame-pointer chain one step from the start equals starting one frame further out. |
| Unwinder.WalkFollowsChain | proj-1/deet/src/inferior.rs:137-153 | Printed frame k is the frame at the k-th address of the chain: rip first, then the return address in each record. |
| Unwinder.WalkStopsAtMain | proj-1/deet/src/inferior.rs:146-148 | No frame before the last is `main`; an `Ok` walk ends with `main`. |
| Unwinder.WalkErrorIsUnreadableRecord | proj-1/deet/src/inferior.rs:150-152 | An error ends the walk at a non-`main` frame whose record read failed with that error. |
| Unwinder.WalkReachesMain | proj-1/deet/src/inferior.rs:141-153 | The converse of `WalkStopsAtMain`: a chain whose frames are known, with frames `0..k-1` not `main` and frame `k` `main`, ends the walk with `Ok` after exactly `k + 1` frames, given more than `k` fuel. |
| Unwinder.WalkReachesUnreadable | proj-1/deet/src/inferior.rs:146-152 | The converse of `WalkErrorIsUnreadableRecord`: a chain whose frames `0..k` are known and not `main`, with a record at frame `k` that cannot be read, ends the walk with that read's error after exactly `k + 1` frames. |
| Unwinder.WalkReachesOverflow | proj-1/deet/src/inferior.rs:150-151 | Likewise, a record at frame `k` whose `bp + 8` overflows ends the walk in a panic after exactly `k + 1` frames. |
| Unwinder.WalkWithinFuel | proj-1/deet/src/inferior.rs:141-153 | At most one frame per iteration, and exactly as many as the bound when it is reached. |
| Unwinder.WalkFuelIrrelevant | proj-1/deet/src/inferior.rs:141-153 | A walk that ended on its own ends the same with any larger bound. |
| Unwinder.BacktraceStartsAtRip | proj-1/deet/src/inferior.rs:137-144 | The first frame is the one at the stopped child's rip. On a child that is not stopped, `getregs` fails and nothing is printed. |
| InferiorControl.Inferior.constructor | proj-1/deet/src/inferior.rs:56-59 | The inferior holds the child and an empty table. |
| InferiorControl.Inferior.New | proj-1/deet/src/inferior.rs:45-73 | Panics, `None`, or a fresh inferior whose child and table equal `Protocol.Launch`. |
| InferiorControl.Inferior.InstallBreakpoints | proj-1/deet/src/inferior.rs:60-65 | The loop leaves the child, the table and the success flag equal to `Protocol.InstallAll`. |
| InferiorControl.Inferior.WriteByte | proj-1/deet/src/inferior.rs:158-173 | The result and the new child are those of `Patcher.WriteByte`. |
| InferiorControl.Inferior.Wait | proj-1/deet/src/inferior.rs:119-129 | The result and the new child are those of `Protocol.Wait`. |
| InferiorControl.Inferior.Kill | proj-1/deet/src/inferior.rs:132-134 | The result and the new child are those of the kill call. |
| InferiorControl.Inferior.WakeAndWait | proj-1/deet/src/inferior.rs:76-110 | Result, child and table equal `Protocol.WakeAndWait`: the install loop, then `Protocol.ResumeFrom`. |
| InferiorControl.Inferior.StepOver | proj-1/deet/src/inferior.rs:92-105 | The early result and the new child are those of `Protocol.StepOver`. |
| InferiorControl.Inferior.PrintBacktrace | proj-1/deet/src/inferior.rs:136-156 | The frames printed and the ending equal `Unwinder.Backtrace`. |
| InferiorControl.Inferior.ReadFrameRecord | proj-1/deet/src/inferior.rs:150-152 | The two reads give `Unwinder.ReadRecord`. |
| Deet.FromStrRadix16 | proj-1/deet/src/debugger.rs:14 | `usize::from_str_radix(_, 16).ok()`: `""`, `"+"` and `"-"` are rejected, one leading `+` is dropped, and the rest must be hexadecimal digits of either case whose value is below 2^64. |
| Deet.ParseAddress | proj-1/deet/src/debugger.rs:8-15 | `parse_address`: drop one `0x` or `0X` when present, then parse the rest with `FromStrRadix16`. What it accepts is stated by the lemmas that follow. |
| Deet.ParseFormatted | proj-1/deet/src/debugger.rs:92-103 | Parsing the printed `{:#x}` form of an address gives back the address. |
| Deet.HexDigitsValue | proj-1/deet/src/debugger.rs:96-100 | The hexadecimal digits printed for a number read back as that number. |
| Deet.NonDigitRejected | proj-1/deet/src/debugger.rs:14 | One non-hexadecimal character anywhere makes parsing fail. |
| Deet.ParseStripsOnePrefix | proj-1/deet/src/debugger.rs:8-15 | `0x`/`0X` in front of a string without a prefix parses the same as the string. In front of a string that has one, parsing fails: only one prefix is stripped. |
| Deet.DoublePrefixRejected | proj-1/deet/src/debugger.rs:8-15 | `"0x0x1"` does not parse. |
| Deet.ParseAcceptsOnlyDigits | proj-1/deet/src/debugger.rs:8-15 | A parsed address came from a non-empty run of hexadecimal digits (after the prefix and an optional `+`) whose value it is. |
| Deet.DigitsAccepted | proj-1/deet/src/debugger.rs:14 | A string made only of hexadecimal digits has a value. |
| Deet.ParseAcceptsAnyDigits | proj-1/deet/src/debugger.rs:8-15 | The converse of `ParseAcceptsOnlyDigits`: any non-empty run of hexadecimal digits, behind no prefix or one `0x` or `0X`, and with or without one `+`, parses to its value when that is below 2^64 and is rejected otherwise. |
| Deet.ParseRejectsEmpty | proj-1/deet/src/debugger.rs:8-15 | `""`, `"0x"` and `"0X"` do not parse. |
| Deet.Cleaned | proj-1/deet/src/debugger.rs:131-140 | `clean`: an occupied slot's child is killed, whatever the kill's result, and the slot keeps it with its table; an empty slot stays empty. |
| Deet.Describe | proj-1/deet/src/debugger.rs:112-127 | The report of `Debugger::wake_and_wait`: the stop signal with the line of the stop address, the exit code, the killing signal, or the error. A stop address without a line panics (`unwrap`). |
| Deet.Resumed | proj-1/deet/src/debugger.rs:108-128 | `Debugger::wake_and_wait` on an occupied slot: `Inferior::wake_and_wait` with the debugger's list, then `Describe`; the slot holds the updated child and table. |
| Deet.Relaunched | proj-1/deet/src/debugger.rs:67-77 | The `run` command: clean, launch; on a failed launch report the error with the cleaned slot; otherwise the new inferior fills the slot and is woken as in `Resumed`. |
| Deet.CleanKeepsSlot | proj-1/deet/src/debugger.rs:131-140 | `clean` kills the inferior but leaves the slot occupied, with its table. |
| Deet.FailedRunKeepsKilled | proj-1/deet/src/debugger.rs:67-77 | A `run` whose start fails reports the error and leaves the killed old inferior in the slot. |
| Deet.RunRecordsTrapEverywhere | proj-1/deet/src/debugger.rs:67-77 | A `run` that starts fills the slot with the new child. Its table has exactly the listed addresses, each recording `0xcc`, because the first wake installs them again. |
| Deet.Debugger.constructor | proj-1/deet/src/debugger.rs:50-57 | No inferior and no breakpoints. |
| Deet.Debugger.Clean | proj-1/deet/src/debugger.rs:131-140 | The slot becomes `Cleaned` of the old slot; the breakpoints are unchanged. |
| Deet.Debugger.WakeAndWait | proj-1/deet/src/debugger.rs:108-128 | Panics on an empty slot. Otherwise the report and the new slot are `Resumed` with the debugger's list, and a stop whose line lookup fails panics. |
| Deet.Debugger.Run | proj-1/deet/src/debugger.rs:67-77 | Result and slot equal `Relaunched`. The breakpoints are unchanged. A fresh inferior replaces the slot exactly when the launch succeeds. |
| Deet.Debugger.Continue | proj-1/deet/src/debugger.rs:78-84 | On an empty slot nothing is resumed. Otherwise the inferior is woken as in `Resumed`. |
| Deet.Debugger.Backtrace | proj-1/deet/src/debugger.rs:85-91 | Panics on an empty slot; otherwise gives the trace of `Unwinder.Backtrace`. |
| Deet.Debugger.Break | proj-1/deet/src/debugger.rs:92-103 | `*addr` appends the parsed address and returns the old length as the printed index. An unparsable address panics with the list unchanged. Any other argument leaves the list unchanged. |
| LinkedLists.Elems | week3/linked_list/src/linked_list.rs:5-14 | The values along a chain of boxed nodes, head first: the contents of a list. |
| LinkedLists.Render | week3/linked_list/src/linked_list.rs:56-69 | The text `fmt` writes for a sequence of values: each value preceded by one space. |
| LinkedLists.LinkedList.constructor | week3/linked_list/src/linked_list.rs:23-28 | The new list is empty with size 0. |
| LinkedLists.LinkedList.GetSize | week3/linked_list/src/linked_list.rs:30-32 | The size is the number of values in the list. |
| LinkedLists.LinkedList.IsEmpty | week3/linked_list/src/linked_list.rs:34-36 | True exactly when the list holds no value. |
| LinkedLists.LinkedList.PushFront | week3/linked_list/src/linked_list.rs:38-42 | The value becomes the head in front of the old contents, and the size goes up by one. |
| LinkedLists.LinkedList.PopFront | week3/linked_list/src/linked_list.rs:44-49 | On an empty list: `None`, with nothing changed. Otherwise: the head value, with the tail left and the size down by one. |
| LinkedLists.LinkedList.Fmt | week3/linked_list/src/linked_list.rs:56-69 | The text is each value, front to back, preceded by a space. |
| LinkedLists.PushThenPop | week3/linked_list/src/linked_list.rs:38-49 | A push then a pop returns the pushed value and leaves the list as it was. |
| LinkedLists.PushEach | week3/linked_list/src/main.rs:8-10 | Pushing values one by one leaves them in reverse order in front. |
| LinkedLists.Equal | week3/linked_list/src/linked_list.rs:76-100 | `eq` is true exactly when the two lists hold the same values in the same order, that is, the same size and pointwise equal. |
| LinkedLists.Countdown | week3/linked_list/src/main.rs:5-11 | Pushing "1" to "11" onto a new list displays `" 11 10 9 8 7 6 5 4 3 2 1"`. |
| Hangman.GuessOf | week1/part-3-hangman/src/main.rs:63 | `guess_line.trim().chars().next()`: the first character that is not white space, none on a blank line. |
| Hangman.Revealed | week1/part-3-hangman/src/main.rs:66-72 | The shown word after the letters guessed: each guessed letter of the secret in place, `-` elsewhere. |
| Hangman.Misses | week1/part-3-hangman/src/main.rs:73-76 | The number of guesses that are not in the secret word. |
| Hangman.PlayFrom | week1/part-3-hangman/src/main.rs:47-79 | The game loop from the letters guessed so far: it ends with them once the word is found or five guesses have missed; a blank line or the end of input panics; otherwise each line's guess is added and the loop goes on. |
| Hangman.GuessIsFirstNonBlank | week1/part-3-hangman/src/main.rs:63 | The guess is the first character that is not white space. A line of white space only gives none, which `unwrap` turns into a panic. |
| Hangman.StartsHidden | week1/part-3-hangman/src/main.rs:41-43 | Before any guess the shown word is one `-` per position and no guess was wrong. |
| Hangman.RevealedShape | week1/part-3-hangman/src/main.rs:66-72 | Each position of the shown word is `-` or the secret's letter there. |
| Hangman.GuessHits | week1/part-3-hangman/src/main.rs:66-72 | A letter in the word reveals exactly the positions holding it and costs no guess. |
| Hangman.GuessMisses | week1/part-3-hangman/src/main.rs:66-76 | A letter not in the word leaves the shown word and adds one wrong guess. |
| Hangman.WonIff | week1/part-3-hangman/src/main.rs:81-88 | The word is found exactly when every letter of the secret other than `-` has been guessed. |
| Hangman.PlayEnds | week1/part-3-hangman/src/main.rs:47-79 | A game that ends without a panic has been found or has used all five wrong guesses, never more. Each round appended the guess of its line. |
| Hangman.Reveal | week1/part-3-hangman/src/main.rs:67-72 | The loop writes the letter into every position where the secret has it and leaves the others as they were. |
| Hangman.Play | week1/part-3-hangman/src/main.rs:41-88 | Panics exactly when `PlayFrom` does. Otherwise the final shown word and wrong-guess count are those of the guesses made, the count is at most 5, and the player wins exactly when the shown word is the secret. |

## Left out

- System calls: `ptrace`, `waitpid` and `Child::kill` are functions on the child value. What the child computes while it runs is not modelled. Its memory is unchanged by running, and each stop reports its registers through the supplied events.
- Process creation: `Command`, `pre_exec`, `child_traceme` and the program arguments are not modelled. The spawn's outcome is a parameter (the child's memory, or none).
- Memory: the child's memory (`Ptrace.Memory`) maps each address to an independent 64-bit word. A real `PTRACE_PEEKDATA` at an address that is not a multiple of 8 reads bytes from two neighbouring aligned words. In the model, a read at such an address does not see the bytes `write_byte` patched into the aligned words, so reads agree with byte patches only at 8-aligned addresses. This matters for `print_backtrace`'s reads at `bp` and `bp + 8`, which are aligned in a normal x86-64 frame chain.
- `Inferior::pid` is not modelled; a child is reached directly.
- Debug information: `DwarfData` (loading, `print`, the DWARF parser) is not part of this model. Its two lookups are supplied as partial functions.
- The command loop: reading lines, the history file, `DebuggerCommand` parsing and `Debugger::new`'s file and editor handling are not modelled. Each command is a method.
- Printed output: the messages `deet` prints are not modelled. A `Report` value stands for what `wake_and_wait` prints, and a `Trace` for the frames a backtrace prints.
- InferiorControl.Inferior.PrintBacktrace: the walk is bounded by `fuel` iterations, while the code's loop has no bound. A walk that has not ended within the bound ends in `OutOfFuel`.
- Deet.Debugger.WakeAndWait: the debugger's breakpoint list is passed to `Inferior::wake_and_wait`, where the code passes no argument.
- The prefix test of `parse_address` lowercases the whole address and then looks for `0x`. The model instead tests the first character for `0` and the second for `x` or `X` (`Deet.HasHexPrefix`). Only `x` and `X` lowercase to `x`, and only `0` to `0`, so the two tests agree.
- Deallocation: `Drop for LinkedList` and the `Box` allocations are not modelled. Memory is managed by Dafny.
- LinkedLists.LinkedList.PushFront: `size` is a mathematical integer, so the `usize` overflow of `size += 1` is not modelled.
- LinkedLists.Equal: `PartialEq` on the values is Dafny's equality, which is reflexive. A `T` whose own `eq` is not reflexive is not modelled.
- `Display` of the values is a supplied function. `Clone`, iteration and the rest of week3/linked_list/src/main.rs are not modelled; the list type does not implement them.
- Hangman input and output: picking the random word from `words.txt` is not modelled; the secret is a parameter. The typed lines are a parameter, and the end of input reads as an empty line. The errors of flushing stdout and reading stdin (`expect`) are not modelled.
- Hangman.Play: one character is taken as one byte, as for the ASCII words of `words.txt`. With a multi-byte character in the secret, `len()` counts bytes and the code's indexing panics.
- week2/rwc (a line, word and character counter) is not part of this model.
