/**
 * `move_child_to_map_and_restart`, x86_64 branch: on a page fault the child
 * is sent to the fault handler `map_and_restart` with the faulting address
 * as its first argument.
 */
module FaultRedirect {
  import opened Machine
  import opened Ptrace

  /** The register snapshot with rip set to the handler and rdi to its argument; nothing else differs. */
  function Redirected(r: Regs, handler: U64, faultAddr: U64): (r': Regs)
    ensures r'.rip == handler && r'.rdi == faultAddr
    ensures r'.rbp == r.rbp && r'.rsp == r.rsp && r'.rest == r.rest
  {
    r.(rip := handler, rdi := faultAddr)
  }

  /**
   * `move_child_to_map_and_restart`: -1 when reading or writing the registers
   * fails, 0 otherwise. Memory is untouched, and the registers change only
   * when both calls succeed.
   */
  method MoveChildToMapAndRestart(t: Tracee, mapAndRestart: U64, faultAddr: U64, getRegsOk: bool, setRegsOk: bool)
      returns (ret: int)
    modifies t
    ensures ret == 0 <==> getRegsOk && setRegsOk
    ensures ret == 0 || ret == -1
    ensures t.mem == old(t.mem)
    ensures t.regs == if ret == 0 then Redirected(old(t.regs), mapAndRestart, faultAddr) else old(t.regs)
  {
    var r, regs := t.GetRegs(getRegsOk);
    if r == -1 {
      return -1;
    }
    regs := regs.(rip := mapAndRestart);
    regs := regs.(rdi := faultAddr);
    r := t.SetRegs(regs, setRegsOk);
    if r == -1 {
      return -1;
    }
    return r;
  }
}
