/**
 * The traced child as the parent sees it through `ptrace`: its memory, read
 * and written one word at a time, and its register file, read and written
 * whole. Whether a register transfer succeeds is decided by the caller (an
 * oracle outcome); a word transfer fails exactly where the child has nothing
 * mapped.
 */
module Ptrace {
  import opened Machine

  /**
   * The fields of `user_regs_struct` the harness reads or writes; `rest`
   * stands for every other register, carried along unchanged.
   */
  datatype Regs = Regs(rbp: U64, rsp: U64, rip: U64, rdi: U64, rest: seq<U64>)

  /** What `PTRACE_PEEKDATA` gives back: the word, and whether it set `errno`. */
  datatype Peeked = Peeked(word: Word, failed: bool)

  /** The word a peek at a returns: the stored word, or -1 where nothing is mapped. */
  function Read(mem: map<int, Word>, a: int): Word {
    if a in mem then mem[a] else -1
  }

  class Tracee {
    /**
     * The child's mapped memory: the 8-byte word stored at each mapped address.
     * Accesses are assumed word-aligned, so words do not overlap.
     */
    var mem: map<int, Word>
    /** The child's registers while it sits in a trace-stop. */
    var regs: Regs

    constructor (mem0: map<int, Word>, regs0: Regs)
      ensures mem == mem0 && regs == regs0
    {
      mem := mem0;
      regs := regs0;
    }

    /** `PTRACE_PEEKDATA`: -1 and `errno` set where nothing is mapped. */
    function PeekData(a: int): (r: Peeked)
      reads this
    {
      Peeked(Read(mem, a), a !in mem)
    }

    /** `PTRACE_POKEDATA`: stores w at a, or fails, changing nothing, where nothing is mapped. */
    method PokeData(a: int, w: Word) returns (failed: bool)
      modifies this`mem
      ensures failed <==> a !in old(mem)
      ensures mem == if failed then old(mem) else old(mem)[a := w]
    {
      failed := a !in mem;
      if !failed {
        mem := mem[a := w];
      }
    }

    /** `PTRACE_GETREGS` (`read_child_regs`): 0 and the registers, or -1. */
    method GetRegs(ok: bool) returns (ret: int, r: Regs)
      ensures ret == (if ok then 0 else -1)
      ensures ok ==> r == regs
    {
      ret := if ok then 0 else -1;
      r := regs;
    }

    /** `PTRACE_SETREGS` (`set_child_regs`): 0 and the registers replaced, or -1 and nothing changed. */
    method SetRegs(r: Regs, ok: bool) returns (ret: int)
      modifies this`regs
      ensures ret == (if ok then 0 else -1)
      ensures regs == if ok then r else old(regs)
    {
      ret := if ok then 0 else -1;
      if ok {
        regs := r;
      }
    }
  }
}
