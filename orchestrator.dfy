/**
 * The parent side of `measure`: set up shared memory, fork, map the child's
 * pages, wait for the child's first stop, move its stack, then resume it at
 * most maxFaults times, sending each SIGSEGV to the fault handler, and finally
 * kill it. Every system call is an oracle outcome; what the parent does to the
 * world is recorded as a trace of events.
 */
module Orchestrator {
  import opened Machine
  import opened Pages
  import opened Ptrace
  import opened StackRelocation

  const SIGSEGV: int := 11

  /** A process id as `fork` hands it to the parent: always positive (0 is what the child sees). */
  type Pid = p: int | p > 0 witness 1

  /** What `fork` returned in the parent: -1, or the child's pid. */
  datatype ForkOutcome = ForkFailed | Forked(child: Pid)

  /** One `wait` inside the fault loop: it failed, or the child stopped with the signal and address `PTRACE_GETSIGINFO` reported. */
  datatype LoopStop =
    | LoopWaitFailed
    | Trap(signo: int, faultAddr: U64, redirectOk: bool)

  /** The outcomes of the system calls the parent makes, in program order. */
  datatype ParentOracle = ParentOracle(
    shmOk: bool,
    fork: ForkOutcome,
    memMapOk: bool,
    auxMapOk: bool,
    stackMapOk: bool,
    childStack: int,
    firstWaitOk: bool,
    firstStopped: bool,
    getRegsOk: bool,
    setRegsOk: bool,
    stops: seq<LoopStop>)

  /**
   * What the parent does to the child (or to other processes). Every kill
   * the parent sends is SIGKILL, so `Kill` records only the target pid.
   */
  datatype Event =
    | Kill(pid: int)
    | MoveStack(code: int)
    | Resume
    | Redirect(faultAddr: U64, code: int)

  /** The shared page set-up, `fork`, the three `mmap`s and the first `wait` all worked, and the child is stopped. */
  predicate ReachesRelocation(o: ParentOracle) {
    o.shmOk && o.fork.Forked? && o.memMapOk && o.auxMapOk && o.stackMapOk && o.firstWaitOk && o.firstStopped
  }

  /** `STACK_PAGE_ADDR + PAGE_SIZE / 2`, the new stack base. */
  function StackBase(stackPage: U64): U64 {
    Wrap64(stackPage + PAGE_SIZE / 2)
  }

  /** The stop ends the fault loop: anything but a SIGSEGV trap. */
  predicate EndsLoop(s: LoopStop) {
    !(s.Trap? && s.signo == SIGSEGV)
  }

  /**
   * The events of rounds i, i + 1, ... of the fault loop (lines 289-317) and
   * the kill after it: resume, then redirect on SIGSEGV whatever the redirect
   * returns, or stop on a failed wait or any other signal.
   */
  function LoopTrace(child: int, stops: seq<LoopStop>, i: nat, maxFaults: nat): seq<Event>
    requires i <= maxFaults <= |stops|
    decreases maxFaults - i
  {
    if i == maxFaults then [Kill(child)]
    else
      match stops[i]
      case LoopWaitFailed => [Resume, Kill(child)]
      case Trap(signo, addr, ok) =>
        if signo == SIGSEGV
        then [Resume, Redirect(addr, if ok then 0 else -1)] + LoopTrace(child, stops, i + 1, maxFaults)
        else [Resume, Kill(child)]
  }

  /** The parent's events once `fork` gave it the child (lines 221-320), given the code `move_child_stack` returned. */
  function ParentTrace(child: int, o: ParentOracle, moveCode: int, maxFaults: nat): seq<Event>
    requires maxFaults <= |o.stops|
  {
    if !(o.memMapOk && o.auxMapOk && o.stackMapOk && o.firstWaitOk && o.firstStopped) then [Kill(child)]
    else if moveCode != 0 then [MoveStack(moveCode), Kill(child)]
    else [MoveStack(moveCode)] + LoopTrace(child, o.stops, 0, maxFaults)
  }

  /** The parent's events in `measure` as written: when `fork` fails, `kill` is sent to pid -1. */
  function MeasureTrace(o: ParentOracle, moveCode: int, maxFaults: nat): seq<Event>
    requires maxFaults <= |o.stops|
  {
    if !o.shmOk then []
    else
      match o.fork
      case ForkFailed => [Kill(-1)]
      case Forked(child) => ParentTrace(child, o, moveCode, maxFaults)
  }

  /** `measure` with the fork failure corrected: there is no child to kill, so nothing is signalled. */
  function MeasureTraceFixed(o: ParentOracle, moveCode: int, maxFaults: nat): seq<Event>
    requires maxFaults <= |o.stops|
  {
    if !o.shmOk then []
    else
      match o.fork
      case ForkFailed => []
      case Forked(child) => ParentTrace(child, o, moveCode, maxFaults)
  }

  /** The counts of the short traces that end the parent early. */
  lemma ShortTraceCounts(child: int, code: int)
    ensures Resumes([Resume, Kill(child)]) == 1 && Redirects([Resume, Kill(child)]) == 0
    ensures Resumes([MoveStack(code), Kill(child)]) == 0 && Resumes([Kill(child)]) == 0
  {
    assert [Kill(child)][1..] == [];
    assert Resumes([Kill(child)]) == 0 && Redirects([Kill(child)]) == 0;
    assert [Resume, Kill(child)][1..] == [Kill(child)];
    assert [MoveStack(code), Kill(child)][1..] == [Kill(child)];
  }

  /** Number of times the trace resumes the child. */
  function Resumes(tr: seq<Event>): nat {
    if tr == [] then 0 else (if tr[0] == Resume then 1 else 0) + Resumes(tr[1..])
  }

  /** Number of fault redirects in the trace. */
  function Redirects(tr: seq<Event>): nat {
    if tr == [] then 0 else (if tr[0].Redirect? then 1 else 0) + Redirects(tr[1..])
  }

  lemma {:induction false} CountsConcat(a: seq<Event>, b: seq<Event>)
    ensures Resumes(a + b) == Resumes(a) + Resumes(b)
    ensures Redirects(a + b) == Redirects(a) + Redirects(b)
  {
    if a != [] {
      assert (a + b)[0] == a[0] && (a + b)[1..] == a[1..] + b;
      CountsConcat(a[1..], b);
    } else {
      assert a + b == b;
    }
  }

  /** The trace ends with the one and only kill, and it is aimed at the child. */
  predicate KilledLastOnce(tr: seq<Event>, child: int) {
    |tr| > 0 && tr[|tr| - 1] == Kill(child) &&
    forall k :: 0 <= k < |tr| - 1 ==> !tr[k].Kill?
  }

  /** The index of the stop that ends the fault loop begun at round i, or maxFaults when every stop is a SIGSEGV. */
  function LoopEnd(stops: seq<LoopStop>, i: nat, maxFaults: nat): (j: nat)
    requires i <= maxFaults <= |stops|
    ensures i <= j <= maxFaults
    ensures forall k :: i <= k < j ==> !EndsLoop(stops[k])
    ensures j < maxFaults ==> EndsLoop(stops[j])
    decreases maxFaults - i
  {
    if i == maxFaults || EndsLoop(stops[i]) then i else LoopEnd(stops, i + 1, maxFaults)
  }

  /**
   * The fault loop kills the child exactly once, at its end; it resumes the
   * child once per SIGSEGV before the stop that ends it and once for that stop,
   * never more than maxFaults times in all, and redirects once per SIGSEGV,
   * whatever the redirects returned.
   */
  lemma {:induction false} LoopTraceShape(child: int, stops: seq<LoopStop>, i: nat, maxFaults: nat)
    requires i <= maxFaults <= |stops|
    ensures KilledLastOnce(LoopTrace(child, stops, i, maxFaults), child)
    ensures Resumes(LoopTrace(child, stops, i, maxFaults)) ==
            if LoopEnd(stops, i, maxFaults) == maxFaults then maxFaults - i else LoopEnd(stops, i, maxFaults) - i + 1
    ensures Redirects(LoopTrace(child, stops, i, maxFaults)) == LoopEnd(stops, i, maxFaults) - i
    ensures Resumes(LoopTrace(child, stops, i, maxFaults)) <= maxFaults - i
    decreases maxFaults - i
  {
    var tr := LoopTrace(child, stops, i, maxFaults);
    if i < maxFaults && !EndsLoop(stops[i]) {
      var rest := LoopTrace(child, stops, i + 1, maxFaults);
      var head := [Resume, Redirect(stops[i].faultAddr, if stops[i].redirectOk then 0 else -1)];
      assert tr == head + rest;
      LoopTraceShape(child, stops, i + 1, maxFaults);
      CountsConcat(head, rest);
      assert Resumes(head) == 1 && Redirects(head) == 1;
      forall k | 0 <= k < |tr| - 1
        ensures !tr[k].Kill?
      {
        if k >= 2 {
          assert tr[k] == rest[k - 2];
        }
      }
    } else if i < maxFaults {
      ShortTraceCounts(child, 0);
    }
  }

  /**
   * On every path where `fork` worked, the parent kills the child exactly once,
   * as its last act, and resumes it at most maxFaults times; it resumes it
   * only after the stack was moved successfully.
   */
  lemma ParentKillsChildLast(child: int, o: ParentOracle, moveCode: int, maxFaults: nat)
    requires maxFaults <= |o.stops|
    ensures KilledLastOnce(ParentTrace(child, o, moveCode, maxFaults), child)
    ensures Resumes(ParentTrace(child, o, moveCode, maxFaults)) <= maxFaults
    ensures Resumes(ParentTrace(child, o, moveCode, maxFaults)) > 0 ==>
              moveCode == 0 && o.firstWaitOk && o.firstStopped &&
              ParentTrace(child, o, moveCode, maxFaults)[0] == MoveStack(0)
  {
    if o.memMapOk && o.auxMapOk && o.stackMapOk && o.firstWaitOk && o.firstStopped {
      var head := [MoveStack(moveCode)];
      if moveCode == 0 {
        var rest := LoopTrace(child, o.stops, 0, maxFaults);
        var tr := head + rest;
        LoopTraceShape(child, o.stops, 0, maxFaults);
        CountsConcat(head, rest);
        assert Resumes(head) == 0;
        forall k | 0 <= k < |tr| - 1
          ensures !tr[k].Kill?
        {
          if k >= 1 {
            assert tr[k] == rest[k - 1];
          }
        }
      } else {
        ShortTraceCounts(child, moveCode);
      }
    } else {
      ShortTraceCounts(child, moveCode);
    }
  }

  /**
   * The fault loop resumes the child j + 1 times when stop j is the first that
   * is not a SIGSEGV, and maxFaults times when all of them are.
   */
  lemma FaultLoopResumes(child: int, o: ParentOracle, maxFaults: nat, j: nat)
    requires maxFaults <= |o.stops|
    requires ReachesRelocation(o) && child == o.fork.child
    requires j <= maxFaults
    requires forall k :: 0 <= k < j ==> !EndsLoop(o.stops[k])
    requires j < maxFaults ==> EndsLoop(o.stops[j])
    ensures Resumes(ParentTrace(child, o, 0, maxFaults)) == if j == maxFaults then maxFaults else j + 1
    ensures Redirects(ParentTrace(child, o, 0, maxFaults)) == j
  {
    var rest := LoopTrace(child, o.stops, 0, maxFaults);
    LoopTraceShape(child, o.stops, 0, maxFaults);
    LoopEndUnique(o.stops, 0, maxFaults, j);
    CountsConcat([MoveStack(0)], rest);
  }

  /** The first stop that ends the loop is determined by the stops alone. */
  lemma LoopEndUnique(stops: seq<LoopStop>, i: nat, maxFaults: nat, j: nat)
    requires i <= j <= maxFaults <= |stops|
    requires forall k :: i <= k < j ==> !EndsLoop(stops[k])
    requires j < maxFaults ==> EndsLoop(stops[j])
    ensures LoopEnd(stops, i, maxFaults) == j
  {
  }

  /** As written: when `fork` fails, the parent sends SIGKILL to pid -1, which is every process it may signal. */
  lemma ForkFailureSignalsEveryProcess(o: ParentOracle, moveCode: int, maxFaults: nat)
    requires maxFaults <= |o.stops|
    requires o.shmOk && o.fork.ForkFailed?
    ensures MeasureTrace(o, moveCode, maxFaults) == [Kill(-1)]
  {
  }

  /** Corrected: a kill is only ever sent to the forked child, and only on paths where a child exists. */
  lemma FixedSignalsOnlyChild(o: ParentOracle, moveCode: int, maxFaults: nat)
    requires maxFaults <= |o.stops|
    ensures forall e :: e in MeasureTraceFixed(o, moveCode, maxFaults) && e.Kill? ==>
              o.fork.Forked? && e.pid == o.fork.child && e.pid > 0
    ensures o.shmOk && o.fork.Forked? ==>
              KilledLastOnce(MeasureTraceFixed(o, moveCode, maxFaults), o.fork.child)
    ensures !o.shmOk || o.fork.ForkFailed? ==> MeasureTraceFixed(o, moveCode, maxFaults) == []
  {
    if o.shmOk && o.fork.Forked? {
      var tr := ParentTrace(o.fork.child, o, moveCode, maxFaults);
      ParentKillsChildLast(o.fork.child, o, moveCode, maxFaults);
      forall e | e in tr && e.Kill?
        ensures e.pid == o.fork.child
      {
        var k :| 0 <= k < |tr| && tr[k] == e;
      }
    }
  }

  /** The code `move_child_stack` returns on the path where the parent calls it. */
  function MoveOutcome(mem: map<int, Word>, r: Regs, stackPage: U64, o: ParentOracle): int
    requires ReachesRelocation(o) && o.getRegsOk ==> StackShaped(r)
  {
    if ReachesRelocation(o) then RelocationCode(mem, r, StackBase(stackPage), o.getRegsOk, o.setRegsOk) else 0
  }

  /**
   * The parent side of `measure` (lines 201-220 and 221-320). Whatever
   * happens it returns -1, and it never writes a result; the events it causes
   * are those of MeasureTrace.
   */
  method Measure(t: Tracee, o: ParentOracle, stackPage: U64, view: map<int, Word>, maxFaults: nat)
      returns (ret: int, log: seq<Event>)
    requires maxFaults <= |o.stops|
    requires ReachesRelocation(o) && o.getRegsOk ==> StackShaped(t.regs)
    requires ReachesRelocation(o) && o.getRegsOk &&
             AllMapped(t.mem, t.regs.rbp, StackBase(stackPage), CopyCount(t.regs)) ==>
               SharedReadable(view, SharedTop(o.childStack), SanityCount(t.regs))
    modifies t
    ensures ret == -1
    ensures log == MeasureTrace(o, MoveOutcome(old(t.mem), old(t.regs), stackPage, o), maxFaults)
    ensures !ReachesRelocation(o) ==> t.mem == old(t.mem) && t.regs == old(t.regs)
    ensures ReachesRelocation(o) ==>
              t.mem == if o.getRegsOk
                       then CopyWords(old(t.mem), old(t.regs).rbp, StackBase(stackPage), CopyCount(old(t.regs))).0
                       else old(t.mem)
    ensures t.regs == if ReachesRelocation(o) && MoveOutcome(old(t.mem), old(t.regs), stackPage, o) == 0
                      then Relocated(old(t.regs), StackBase(stackPage))
                      else old(t.regs)
  {
    if !o.shmOk {
      return -1, [];
    }
    if o.fork.ForkFailed? {
      return -1, [Kill(-1)];
    }
    var child := o.fork.child;
    if !o.memMapOk || !o.auxMapOk || !o.stackMapOk {
      return -1, [Kill(child)];
    }
    if !o.firstWaitOk || !o.firstStopped {
      return -1, [Kill(child)];
    }

    var code, _ := MoveChildStack(t, StackBase(stackPage), view, o.childStack, o.getRegsOk, o.setRegsOk);
    if code != 0 {
      return -1, [MoveStack(code), Kill(child)];
    }
    var rounds := FaultLoop(child, o.stops, maxFaults);
    return -1, [MoveStack(code)] + rounds;
  }

  /**
   * The fault loop, lines 289-320: up to maxFaults rounds of resuming the
   * child and redirecting it on SIGSEGV, then the kill; a failed wait or any
   * other signal kills the child at once.
   */
  method FaultLoop(child: int, stops: seq<LoopStop>, maxFaults: nat) returns (log: seq<Event>)
    requires maxFaults <= |stops|
    ensures log == LoopTrace(child, stops, 0, maxFaults)
  {
    log := [];
    for i := 0 to maxFaults
      invariant log + LoopTrace(child, stops, i, maxFaults) == LoopTrace(child, stops, 0, maxFaults)
    {
      var stop := stops[i];
      if stop.LoopWaitFailed? || stop.signo != SIGSEGV {
        assert LoopTrace(child, stops, i, maxFaults) == [Resume, Kill(child)];
        return log + [Resume] + [Kill(child)];
      }
      var redirected := if stop.redirectOk then 0 else -1;
      ghost var rest := LoopTrace(child, stops, i + 1, maxFaults);
      assert LoopTrace(child, stops, i, maxFaults) == [Resume, Redirect(stop.faultAddr, redirected)] + rest;
      assert (log + [Resume] + [Redirect(stop.faultAddr, redirected)]) + rest
          == log + ([Resume, Redirect(stop.faultAddr, redirected)] + rest);
      log := log + [Resume] + [Redirect(stop.faultAddr, redirected)];
    }
    return log + [Kill(child)];
  }
}
