# BHive measurement harness — a Dafny model of its core

BHive measures the throughput of a basic block of x86-64 code. The parent
process forks a child and traces it with `ptrace`. The child copies the
block `unroll_factor` times into its code page, appends a fixed epilogue
(the "tail") and a jump back to the start, and runs it. Whenever the child
touches an unmapped page, the parent sends it to a handler
(`map_and_restart`), which maps the page and starts the run again.

This project models the sequential logic inside `bhive/harness.c`:

- page rounding with `get_page_start` and `get_page_end` (module `Pages`);
- the child's code image: the unrolled copies, the tail, and the
  `JMP rel32` written by `insert_jump_to_test_start`, with the page range
  made writable around it (module `CodeImage`);
- the three parameters the child stores on its auxiliary page (module `AuxPage`);
- the move of the child's stack frame to a new base with `move_child_stack`
  (module `StackRelocation`), over a traced child exposed through `ptrace`
  (module `Ptrace`);
- the fault redirect `move_child_to_map_and_restart` (module `FaultRedirect`);
- the parent's control flow in `measure` (module `Orchestrator`).

Module `Machine` holds the integer widths and their explicit wrap-around:
unsigned 64-bit, the 32-bit `int` conversion, and little-endian stores.

Modelling choices:

- Memory the harness writes in place is a Dafny `array` of bytes.
  Address `base + k` is element `k`.
- The child's memory, as seen through `PTRACE_PEEKDATA` and
  `PTRACE_POKEDATA`, is a map from address to word, held by the class
  `Ptrace.Tracee`. A peek or poke fails exactly where nothing is mapped.
- Whether `PTRACE_GETREGS` and `PTRACE_SETREGS` succeed is a boolean the
  caller supplies.
- In `measure`, every system call (`shm_open`, `fork`, `mmap`, `wait`,
  `PTRACE_GETSIGINFO`) and the outcome of each fault redirect comes from an
  oracle value, `Orchestrator.ParentOracle`.
- The stack move itself is the real `MoveChildStack`, run on the tracee.
- A successful `fork` gives the parent a positive pid (`Orchestrator.Pid`).
  The return value 0 takes the child branch at line 321 and is not a
  parent outcome.
- What the parent does is recorded as a trace of events: kill, stack move,
  resume and redirect.
- `MAX_FAULTS`, `ITERATIONS`, `STACK_PAGE_ADDR` and the aux-page offsets
  are defined in `common.h`, which is not part of this model. They are
  parameters here.

Where the program's documentation and its code disagree, the model follows
the code:

- The parent side of `measure` returns -1 on every path, including after a
  completed measurement (line 320). It never writes `res`, so
  `Orchestrator.Measure` has no result output.
- `unroll_factor == 0` is not rejected: the image is then only the tail and
  the jump.
- After the first `wait` only `WIFSTOPPED` is tested (line 261). The signal
  that stopped the child is never compared with SIGSTOP.
- The result of the second `mprotect` (line 357) is never stored, so the
  check at line 359 tests the first call's result again.
- The sanity pass of `move_child_stack` only reports mismatches. They never
  affect the returned code.

## Model

| member | source | states |
|---|---|---|
| Machine.Wrap64 | bhive/harness.c:100 | unsigned 64-bit arithmetic: the result is in range, congruent to the exact value mod 2^64, and equal to it when it fits |
| Machine.Wrap32 | bhive/harness.c:188 | the `(int)` conversion of the displacement keeps its value mod 2^32 |
| Machine.LoadAfterStore | bhive/harness.c:188 | loading the n bytes of a little-endian store returns the stored value mod 256^n |
| Machine.StoreAfterLoad | bhive/harness.c:188 | storing a loaded value rewrites exactly the bytes it was loaded from |
| Machine.MemCopy | bhive/harness.c:346 | `memcpy`: the destination range holds the source bytes, and no byte outside it changes |
| Pages.PageStart | bhive/harness.c:193-195 | the result is page-aligned, at most `a`, and less than a page below `a` |
| Pages.PageEnd | bhive/harness.c:197-199 | below the last page it is the page start plus `PAGE_SIZE`, which is above `a`; on the last page the pointer sum wraps to 0 |
| Pages.PageStartUnique | bhive/harness.c:193-195 | the page start is the only aligned `m` with `m <= a < m + PAGE_SIZE` |
| Pages.PageStartIdempotent | bhive/harness.c:193-195 | rounding a page start down again changes nothing |
| Pages.PageStartOfAligned | bhive/harness.c:193-195 | an aligned address is its own page start |
| Pages.PageEndOfAligned | bhive/harness.c:197-199 | an aligned address below the last page gets `a + PAGE_SIZE` |
| Pages.PageStartMonotone | bhive/harness.c:193-195 | page rounding keeps the order of addresses |
| Pages.PageEndIsNextBoundary | bhive/harness.c:197-199 | below the last page, the page end is the first page boundary strictly above `a` |
| CodeImage.RepeatLength | bhive/harness.c:345-348 | `unroll` copies of the block take `code_size * unroll` bytes |
| CodeImage.RepeatBlock | bhive/harness.c:345-348 | copy `k` occupies bytes `[k*code_size, (k+1)*code_size)` and equals the block |
| CodeImage.JumpBytes | bhive/harness.c:185-190 | the jump is 5 bytes and starts with opcode `0xE9` |
| CodeImage.JumpDisplacement | bhive/harness.c:187-188 | the four bytes after the opcode read back as the 32-bit displacement `test_start - addr - 5` |
| CodeImage.JumpReachesTarget | bhive/harness.c:185-190 | when `test_start - addr - 5` fits in a signed 32-bit value, the jump lands exactly on `test_start` |
| CodeImage.JumpTruncates | bhive/harness.c:185-190 | in every case the jump lands on an address that agrees with `test_start` mod 2^32 |
| CodeImage.InsertJumpToTestStart | bhive/harness.c:185-190 | returns 5, writes the jump at `addr`, and changes no byte outside `[addr, addr+5)` |
| CodeImage.ImageBytesSize | bhive/harness.c:343-355 | the image takes `code_size*unroll + tail_size + 5` bytes |
| CodeImage.ImageLayout | bhive/harness.c:343-355 | with `u` the size of the unrolled blocks, the image is the unrolled blocks at `[0, u)`, then the tail verbatim, then the jump written at `test_block + u + tail_size`, which lands on `test_start` when in reach |
| CodeImage.ImageInsideWritableRange | bhive/harness.c:332-336 | if `test_block` is at or after the page of `runtest`, every byte written lies inside the page-aligned range given to `mprotect`, which ends at most one page past the image, when the image ends below the last page |
| CodeImage.CopyUnrolled | bhive/harness.c:344-348 | after the loop `block_ptr` has advanced by the size of `unroll` copies (`code_size*unroll` by RepeatLength) and the bytes between are those copies; nothing else changes |
| CodeImage.WriteTestImage | bhive/harness.c:344-355 | the final `block_ptr` is `test_block` plus the image size, the bytes between are the image, and nothing outside it changes |
| CodeImage.PlaceTestImage | bhive/harness.c:331-358 | computes the writable range as the source does and lays out the whole image, touching nothing outside it |
| CodeImage.SecondProtectFailureUnreported | bhive/harness.c:357-361 | as written, the second report depends only on the first `mprotect`; a failure of the second alone is not reported |
| CodeImage.FixedProtectReportsExact | bhive/harness.c:338-361 | corrected: each `mprotect` failure is reported exactly when that call failed |
| AuxPage.SaveParameters | bhive/harness.c:412-414 | the page equals the three little-endian stores applied in program order |
| AuxPage.ParametersReadBack | bhive/harness.c:412-414 | with pairwise disjoint fields, the page reads back `ITERATIONS`, `perf_fd` and `runtest_page_end` |
| AuxPage.LoadU64AfterStore | bhive/harness.c:412 | a `uint64_t` store reads back as the stored value |
| AuxPage.LoadIntAfterStore | bhive/harness.c:413 | an `int` store reads back as the stored value |
| AuxPage.ParametersLeaveRestAlone | bhive/harness.c:412-414 | every byte outside the three fields is unchanged |
| Ptrace.Tracee.PokeData | bhive/harness.c:73 | a poke fails exactly at an unmapped address; otherwise exactly that word changes |
| Ptrace.Tracee.GetRegs | bhive/harness.c:23-25 | returns 0 and the registers, or -1 |
| Ptrace.Tracee.SetRegs | bhive/harness.c:34-36 | returns 0 and replaces the registers, or returns -1 and changes nothing |
| StackRelocation.CopyWords | bhive/harness.c:71-75 | the copy loop keeps the set of mapped addresses |
| StackRelocation.CopyFailsIffUnmapped | bhive/harness.c:70-78 | `errno` is set after the loop exactly when some peeked or poked address was unmapped |
| StackRelocation.CopyContents | bhive/harness.c:71-75 | for disjoint spans: destination word `i` gets what a peek of source word `i` returned, and no word outside the destination span changes |
| StackRelocation.CopyIsFaithful | bhive/harness.c:71-75 | with disjoint, mapped spans: no error, the word at `base - 8i` equals the old word at `rbp - 8i`, and the source is intact |
| StackRelocation.CopyCount | bhive/harness.c:71 | the loop reads only words strictly above `rsp` and stops at the first word at or below it |
| StackRelocation.AlignedCountsAgree | bhive/harness.c:71-81 | for a word-aligned frame, the copy loop and the sanity loop cover the same `(rbp-rsp)/8` words, ending at `rsp` |
| StackRelocation.StackTopNotCopied | bhive/harness.c:71-75 | the word at the original `rsp` is never read, and the slot just below the copied words keeps its old value; for a word-aligned frame with `rbp - rsp <= base` that slot is the relocated `rsp` (otherwise the relocated `rsp` wraps) |
| StackRelocation.Relocated | bhive/harness.c:99-100 | the new `rbp` is the base; `rbp - rsp` is kept mod 2^64, and the new frame is well formed with `rbp - rsp` kept exactly when the base is at least the stack size (otherwise the new `rsp` wraps above the new `rbp`); `rip`, `rdi` and all other registers are unchanged |
| StackRelocation.WrapTwice | bhive/harness.c:100 | `base - (base - size)` in unsigned arithmetic is `size` again |
| StackRelocation.RelocationCode | bhive/harness.c:60-104 | -1 exactly when the register read fails, -2 exactly when a copy address is unmapped, -3 exactly when only the register write fails, 0 otherwise |
| StackRelocation.SanityRound | bhive/harness.c:82-95 | a round reports nothing exactly when the original, the copy and the shared view agree, and it reports only its own index |
| StackRelocation.SanityLog | bhive/harness.c:81-96 | the reports cover only indices below `stack_size/8`, and there are at most `2 * (stack_size/8)` of them in all |
| StackRelocation.SanityLogEmptyIff | bhive/harness.c:81-96 | the sanity loop reports nothing exactly when every inspected word agrees with its copy and its shared view |
| StackRelocation.CleanCopyPassesSanityCheck | bhive/harness.c:71-96 | after a successful copy the sanity loop reports no copy mismatch, and nothing at all if the parent's view shows the copied words |
| StackRelocation.NoCopyMismatch | bhive/harness.c:81-96 | where original and copy agree, only shared-view mismatches are reported |
| StackRelocation.CopyStack | bhive/harness.c:69-75 | the copy loop leaves exactly the memory and the `errno` of `CopyWords` over `CopyCount` words |
| StackRelocation.SanityCheck | bhive/harness.c:81-96 | the loop's reports are exactly `SanityLog`, and the child is not changed |
| StackRelocation.MoveChildStack | bhive/harness.c:52-105 | returns `RelocationCode`; memory is copied whenever the registers were read; registers change only on 0, to `Relocated`; mismatches do not affect the code |
| FaultRedirect.Redirected | bhive/harness.c:168-169 | `rip` becomes `map_and_restart` and `rdi` the fault address; no other field changes |
| FaultRedirect.MoveChildToMapAndRestart | bhive/harness.c:161-179 | returns 0 exactly when both register calls succeed, else -1; memory is unchanged; registers are redirected only on 0 |
| Orchestrator.LoopEnd | bhive/harness.c:289-317 | the first stop that is not a SIGSEGV, or `MAX_FAULTS` if there is none |
| Orchestrator.LoopEndUnique | bhive/harness.c:289-317 | the stop that ends the fault loop is determined by the stops alone |
| Orchestrator.CountsConcat | bhive/harness.c:289-317 | resume and redirect counts add up over concatenated traces |
| Orchestrator.LoopTraceShape | bhive/harness.c:289-320 | the loop kills the child once, last; it resumes at most `MAX_FAULTS` times, once per SIGSEGV before the ending stop plus once for that stop; it redirects once per SIGSEGV, whether or not the redirect failed |
| Orchestrator.ParentKillsChildLast | bhive/harness.c:221-320 | once forked, every path kills the child exactly once, as its last event, with at most `MAX_FAULTS` resumes; the child is resumed only after a successful stack move |
| Orchestrator.FaultLoopResumes | bhive/harness.c:289-317 | if stop `j` is the first non-SIGSEGV stop, the child is resumed `j+1` times and redirected `j` times; if all stops are SIGSEGV, it is resumed `MAX_FAULTS` times |
| Orchestrator.ForkFailureSignalsEveryProcess | bhive/harness.c:216-219 | as written, a failed `fork` sends its kill (SIGKILL, like every kill of the parent) to pid -1 |
| Orchestrator.FixedSignalsOnlyChild | bhive/harness.c:216-219 | corrected: kills go only to the forked child, whose pid is positive, once and last; without a child nothing is signalled |
| Orchestrator.FaultLoop | bhive/harness.c:289-320 | the loop's events are exactly `LoopTrace` from round 0 |
| Orchestrator.Measure | bhive/harness.c:201-320 | returns -1 on every path; its events are `MeasureTrace` given the code the actual stack move returned; the child's memory is the stack copy when the move ran and read the registers, and its registers are relocated only when the move returned 0, otherwise both are unchanged |

Functions that compute what the program does and whose properties are
stated by the lemmas above:

- `CodeImage.WritableRange`: the `mprotect` range, lines 332-336.
- `CodeImage.Rel32`: the 32-bit displacement, line 188.
- `CodeImage.TestImage`: the whole image, lines 343-355.
- `AuxPage.SavedParameters`: the aux page after the three stores, lines 412-414.
- `StackRelocation.StackSize`: `stack_size`, line 66.
- `StackRelocation.CopyCount`: the rounds of the copy loop, line 71.
- `StackRelocation.SanityCount`: the rounds of the sanity loop, line 81.
- `Ptrace.Tracee.PeekData`: `PTRACE_PEEKDATA`, lines 72, 74 and 84-85.
- `Orchestrator.StackBase`: the new stack base, line 275.
- `Orchestrator.LoopTrace`: the fault loop's events, lines 289-320.
- `Orchestrator.ParentTrace`: the events once forked, lines 221-320.
- `Orchestrator.MeasureTrace`: all of the parent's events, lines 201-320.
- `Orchestrator.MeasureTraceFixed`: the same with the fork failure corrected, lines 201-320.
- `Orchestrator.MoveOutcome`: the code of the `move_child_stack` call, line 275.
- `Orchestrator.EndsLoop`: the `si_signo == SIGSEGV` test, line 299.
- `CodeImage.ProtectReports`: the two `mprotect` checks as written, lines 338-342 and 357-361.
- `CodeImage.ProtectReportsFixed`: the same checks corrected, lines 338-361.
- `StackRelocation.SharedTop`: `child_stack + PAGE_SIZE / 2`, line 86.
- `Pages.ShiftRightPage` and `Pages.ShiftLeftPage`: the two shifts, line 194.
- `Machine.LittleEndian`: an x86 store of an n-byte integer, lines 188 and 412-414.
- `CodeImage.Repeat`: the `unroll_factor` copies of the block, lines 344-348.
- `CodeImage.ImageSize`: the bytes the layout writes, `unrolled_block_size + tail_size + SIZE_OF_REL_JUMP`, lines 333-336.
- `StackRelocation.Slot`: the address `i` words below a pointer, as `p--`, `new_p--` and the indexing in lines 71-95 compute it.

## Left out

- Shared-memory set-up (`shm_open`, `shm_unlink`, `ftruncate`, `dup2`,
  `close`, `mmap`), `fork`, `wait` and the ptrace system calls are oracle
  outcomes. They are operating-system I/O.
- The child's side before and after the layout is left out: `PTRACE_TRACEME`,
  the aux-page `mmap`, and the call into `runtest`. These are I/O and external
  assembly.
- Performance-counter set-up (`pfm_initialize`, `pfm_get_os_event_encoding`,
  `perf_event_open`, lines 376-401) is left out. These are foreign library and
  kernel calls. `perf_fd` is a parameter of `AuxPage.SaveParameters`.
- CPU pinning and priority (lines 403-409) are left out. They have no result
  the program states.
- `runtest`, `map_and_restart`, `tail_start`/`tail_end` and `test_start` are
  external assembly. They are opaque addresses and byte strings here.
- The execution of the measured code and of the handler is not modelled.
  After each resume the next stop comes from the oracle.
  `Orchestrator.Measure` therefore takes each redirect's result from the
  oracle and does not apply it to the tracee.
- The aarch64 branches are left out; this model is of the x86-64 build.
  Only those of `move_child_stack` and `move_child_to_map_and_restart`
  share the x86-64 logic. The others differ and are not modelled:
  - aarch64 `read_child_regs` (lines 27-30) points the `iovec` at the
    parameter `regs` itself and gives it the size of a pointer, so the
    caller's register struct is never filled.
  - aarch64 `set_child_regs` (lines 38-41) issues `PTRACE_GETREGSET`, which
    reads the registers instead of writing them.
  - `insert_jump_to_test_start` (lines 185-191) has no body and no return
    outside x86-64, and `SIZE_OF_REL_JUMP` (lines 182-184) is defined only
    for x86-64, although line 336 uses it.
- `mprotect`'s page-protection effect is not modelled. Only the range it is
  given and which of its failures get reported are modelled.
- All `printf` and `perror` output is left out. The sanity loop's reports are
  returned as a sequence instead. `sbrk(0)`, which only feeds a `printf`, is
  left out too.
- bhive/main.c is a command-line front end and is not part of this model.
- StackRelocation.MoveChildStack: `errno` is treated as sticky, set once any
  peek or poke fails. The C library's `ptrace` wrapper also clears `errno`
  after a successful peek, which can mask an earlier failure. That wrapper
  is not shown, so this effect is not modelled.
- StackRelocation.MoveChildStack: requires `rsp <= rbp`. With `rbp < rsp`,
  `stack_size` wraps to a huge value and the `int` counter of the sanity
  loop overflows.
- StackRelocation.MoveChildStack: `view` stands for the parent's mapping
  `child_stack` of the shared memory at offset `2 * PAGE_SIZE` (lines
  240-241). The child maps two pages from offset `PAGE_SIZE` at
  `AUX_MEM_ADDR`, which covers the same page, and sets up its new stack at
  their end (lines 364-370). The
  model does not link `view` to the tracee's memory, because the constants
  that tie them, `STACK_PAGE_ADDR` and `AUX_MEM_ADDR`, are defined in
  `common.h`. A perfect copy can therefore still report a shared-view
  mismatch, and `CleanCopyPassesSanityCheck` rules that out only when the
  view shows the copied words.
- StackRelocation.MoveChildStack: requires the parent's view of the stack
  page to hold every word the sanity loop reads. Otherwise the parent
  itself faults.
- Ptrace.Tracee keeps one word per address and treats accesses as
  word-aligned. Overlapping unaligned words are not modelled.
- StackRelocation.CopyWords uses unbounded integers for the pointers
  `p` and `new_p`. `p` would go below address 0 only with `rsp < 8`; C
  then wraps `p` to the top of the address space, so `p > ori_sp` stays
  true and the C loop does not end in practice, while the model's loop
  ends after `CopyCount` rounds. `new_p = stack_base_addr - 8i`
  goes below 0 whenever `stack_base_addr` is less
  than 8 times the number of copied words. C wraps such a pointer to the top
  of the address space, where the child has nothing mapped, so the transfer
  fails. The model peeks and pokes the negative address itself, which gives
  the same outcome only when the tracee's map holds no negative address.
- CodeImage.PlaceTestImage requires `code_size < 2^64`, the range of its
  `unsigned long`, and that the image fits the byte array it is given.
  The unroll loop's `int` counter is not modelled for `unroll_factor`
  above 2^31 - 1.
- Orchestrator.Measure: the oracle must supply a stop for each of the
  `MAX_FAULTS` rounds. The `PTRACE_GETREGS` call and the counter read after
  a non-SIGSEGV stop feed only `printf` and are left out.

## Findings

| source | as written | input that shows it | evidently intended | confidence | as-written member | corrected member |
|---|---|---|---|---|---|---|
| bhive/harness.c:216-219 | when `fork` returns -1, the parent calls `kill(child, SIGKILL)` with `child == -1` | shared memory created, `fork` fails | no child exists, so nothing should be signalled; `kill(-1, SIGKILL)` signals every process the user may signal | high (not executed) | Orchestrator.ForkFailureSignalsEveryProcess | Orchestrator.FixedSignalsOnlyChild |
| bhive/harness.c:357-361 | the second `mprotect`'s result is discarded, and the check tests `ret` from line 338 | the first `mprotect` succeeds, the second fails | the failure of the second call is reported | high (not executed) | CodeImage.SecondProtectFailureUnreported | CodeImage.FixedProtectReportsExact |
