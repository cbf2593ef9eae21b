/**
 * `move_child_stack`, x86_64 branch: copy the child's live stack frame,
 * (rsp, rbp], word by word from the top down to a new base, check the copy
 * word by word (reporting, never failing), then point rbp at the new base
 * and rsp the same distance below it.
 */
module StackRelocation {
  import opened Machine
  import opened Pages
  import opened Ptrace

  /** The address i words below top: `(long *)top - i`. */
  function Slot(top: int, i: int): int {
    top - WORD_SIZE * i
  }

  /** The addresses of the k words ending at top, that is (Slot(top, k), top]. */
  predicate InSpan(a: int, top: int, k: nat) {
    Slot(top, k) < a <= top
  }

  /** The k words ending at src and the k words ending at dst do not overlap. */
  predicate Apart(src: int, dst: int, k: nat) {
    src <= Slot(dst, k) || dst <= Slot(src, k)
  }

  /** Both ends of the i-th word transfer are mapped in the child. */
  predicate PairMapped(mem: map<int, Word>, src: int, dst: int, i: int) {
    Slot(src, i) in mem && Slot(dst, i) in mem
  }

  /** Every one of the first k word transfers has both ends mapped. */
  predicate AllMapped(mem: map<int, Word>, src: int, dst: int, k: nat) {
    forall i :: 0 <= i < k ==> PairMapped(mem, src, dst, i)
  }

  /**
   * The child's memory and `errno` after k rounds of the copy loop: each round
   * peeks the word at Slot(src, i), pokes it to Slot(dst, i) and peeks that
   * back; a failing call leaves memory alone and sets `errno`, which stays set.
   */
  function CopyWords(mem: map<int, Word>, src: int, dst: int, k: nat): (r: (map<int, Word>, bool))
    ensures r.0.Keys == mem.Keys
    decreases k
  {
    if k == 0 then (mem, false)
    else
      var prev := CopyWords(mem, src, dst, k - 1);
      var m := prev.0;
      var from, to := Slot(src, k - 1), Slot(dst, k - 1);
      (if to in m then m[to := Read(m, from)] else m, prev.1 || from !in m || to !in m)
  }

  /** The copy fails (sets `errno`) exactly when one of its word transfers touches an unmapped address. */
  lemma {:induction false} CopyFailsIffUnmapped(mem: map<int, Word>, src: int, dst: int, k: nat)
    ensures CopyWords(mem, src, dst, k).1 <==> !AllMapped(mem, src, dst, k)
    decreases k
  {
    if k > 0 {
      CopyFailsIffUnmapped(mem, src, dst, k - 1);
      var m := CopyWords(mem, src, dst, k - 1).0;
      var from, to := Slot(src, k - 1), Slot(dst, k - 1);
      assert (from in m <==> from in mem) && (to in m <==> to in mem);
      if !AllMapped(mem, src, dst, k - 1) {
        var i :| 0 <= i < k - 1 && !PairMapped(mem, src, dst, i);
        assert !AllMapped(mem, src, dst, k);
      } else if PairMapped(mem, src, dst, k - 1) {
        assert AllMapped(mem, src, dst, k);
      }
    }
  }

  /**
   * When the two spans do not overlap, k rounds of the copy leave every word
   * outside the destination span as it was, and give destination word i the
   * value a peek of source word i returned originally.
   */
  lemma {:induction false} CopyContents(mem: map<int, Word>, src: int, dst: int, k: nat)
    requires Apart(src, dst, k)
    ensures forall a :: a in mem && !InSpan(a, dst, k) ==> CopyWords(mem, src, dst, k).0[a] == mem[a]
    ensures forall i :: 0 <= i < k && Slot(dst, i) in mem ==>
              CopyWords(mem, src, dst, k).0[Slot(dst, i)] == Read(mem, Slot(src, i))
    decreases k
  {
    if k > 0 {
      CopyContents(mem, src, dst, k - 1);
      var m := CopyWords(mem, src, dst, k - 1).0;
      var from, to := Slot(src, k - 1), Slot(dst, k - 1);
      assert !InSpan(from, dst, k - 1);
      assert Read(m, from) == Read(mem, from);
    }
  }

  /** A successful copy of disjoint spans: destination word i holds source word i, and the source is intact. */
  lemma CopyIsFaithful(mem: map<int, Word>, src: int, dst: int, k: nat)
    requires Apart(src, dst, k) && AllMapped(mem, src, dst, k)
    ensures !CopyWords(mem, src, dst, k).1
    ensures forall i :: 0 <= i < k ==>
              Read(CopyWords(mem, src, dst, k).0, Slot(dst, i)) == Read(mem, Slot(src, i)) &&
              Read(CopyWords(mem, src, dst, k).0, Slot(src, i)) == Read(mem, Slot(src, i))
  {
    CopyFailsIffUnmapped(mem, src, dst, k);
    CopyContents(mem, src, dst, k);
    forall i | 0 <= i < k
      ensures !InSpan(Slot(src, i), dst, k)
    {
      assert PairMapped(mem, src, dst, i);
    }
  }

  /** The child's stack runs from rsp up to rbp. */
  predicate StackShaped(r: Regs) {
    r.rsp <= r.rbp
  }

  /** `stack_size`: the unsigned difference rbp - rsp. */
  function StackSize(r: Regs): U64 {
    Wrap64(r.rbp - r.rsp)
  }

  /** Rounds of the copy loop: the words at rbp, rbp - 8, ... that lie strictly above rsp. */
  function CopyCount(r: Regs): (n: nat)
    requires StackShaped(r)
    ensures forall i :: 0 <= i < n ==> r.rsp < Slot(r.rbp, i)
    ensures r.rsp >= Slot(r.rbp, n)
  {
    (r.rbp - r.rsp + WORD_SIZE - 1) / WORD_SIZE
  }

  /** Rounds of the sanity loop: `stack_size / sizeof(long)`. */
  function SanityCount(r: Regs): nat {
    StackSize(r) / WORD_SIZE
  }

  /** For a word-aligned frame the two loops cover the same words. */
  lemma AlignedCountsAgree(r: Regs)
    requires StackShaped(r) && (r.rbp - r.rsp) % WORD_SIZE == 0
    ensures CopyCount(r) == SanityCount(r)
    ensures Slot(r.rbp, CopyCount(r)) == r.rsp
  {
  }

  /**
   * The word at the original rsp is below every word the copy reads, and
   * the slot just below the copied words keeps the value it had; for a
   * word-aligned frame with rbp - rsp <= base that slot is the relocated rsp.
   */
  lemma StackTopNotCopied(mem: map<int, Word>, r: Regs, base: U64)
    requires StackShaped(r) && Apart(r.rbp, base, CopyCount(r))
    requires Slot(base, CopyCount(r)) in mem
    ensures forall i :: 0 <= i < CopyCount(r) ==> Slot(r.rbp, i) != r.rsp
    ensures CopyWords(mem, r.rbp, base, CopyCount(r)).0[Slot(base, CopyCount(r))] == mem[Slot(base, CopyCount(r))]
    ensures (r.rbp - r.rsp) % WORD_SIZE == 0 && r.rbp - r.rsp <= base ==>
              Relocated(r, base).rsp == Slot(base, CopyCount(r))
  {
    CopyContents(mem, r.rbp, base, CopyCount(r));
    if (r.rbp - r.rsp) % WORD_SIZE == 0 && r.rbp - r.rsp <= base {
      AlignedCountsAgree(r);
    }
  }

  /** The register rewrite: rbp becomes the new base and rsp keeps its distance below rbp. */
  function Relocated(r: Regs, base: U64): (r': Regs)
    ensures r'.rbp == base
    ensures StackSize(r') == StackSize(r)
    ensures StackShaped(r) && r.rbp - r.rsp <= base ==> StackShaped(r') && r'.rbp - r'.rsp == r.rbp - r.rsp
    ensures StackShaped(r) && r.rbp - r.rsp > base ==> !StackShaped(r')
    ensures r'.rip == r.rip && r'.rdi == r.rdi && r'.rest == r.rest
  {
    var size := StackSize(r);
    var r' := r.(rbp := base, rsp := Wrap64(base - size));
    WrapTwice(base, size);
    r'
  }

  /** Subtracting a 64-bit value under wrap-around and taking the difference again gives it back. */
  lemma WrapTwice(base: U64, size: U64)
    ensures Wrap64(base - Wrap64(base - size)) == size
  {
    var d := base - size;
    if d < 0 {
      assert Wrap64(d) == d + TWO_64;
      assert base - Wrap64(d) == size - TWO_64;
    }
  }

  /**
   * The code `move_child_stack` returns: -1 if reading the registers fails,
   * -2 if the copy set `errno`, -3 if writing the registers fails, 0 otherwise.
   */
  function RelocationCode(mem: map<int, Word>, r: Regs, base: U64, getRegsOk: bool, setRegsOk: bool): (code: int)
    requires getRegsOk ==> StackShaped(r)
    ensures code == -1 <==> !getRegsOk
    ensures code == -2 <==> getRegsOk && !AllMapped(mem, r.rbp, base, CopyCount(r))
    ensures code == -3 <==> getRegsOk && AllMapped(mem, r.rbp, base, CopyCount(r)) && !setRegsOk
    ensures code == 0 <==> getRegsOk && AllMapped(mem, r.rbp, base, CopyCount(r)) && setRegsOk
  {
    if !getRegsOk then -1
    else
      CopyFailsIffUnmapped(mem, r.rbp, base, CopyCount(r));
      if CopyWords(mem, r.rbp, base, CopyCount(r)).1 then -2
      else if !setRegsOk then -3
      else 0
  }

  /** A report of the sanity loop; the harness prints these and carries on. */
  datatype Mismatch =
    | CopyMismatch(index: nat, original: Word, copy: Word)
    | SharedMismatch(index: nat, original: Word, shared: Word)

  /** Where the parent's view of the child's stack page has the word at the new base. */
  function SharedTop(childStack: int): int {
    childStack + PAGE_SIZE / 2
  }

  /** The parent can read the first k words of its view below sharedTop. */
  predicate SharedReadable(view: map<int, Word>, sharedTop: int, k: nat) {
    forall i :: 0 <= i < k ==> Slot(sharedTop, i) in view
  }

  /** The words round i of the sanity loop compares. */
  predicate Agrees(mem: map<int, Word>, view: map<int, Word>, oriBp: int, newBp: int, sharedTop: int, i: int)
    requires Slot(sharedTop, i) in view
  {
    Read(mem, Slot(oriBp, i)) == Read(mem, Slot(newBp, i)) &&
    Read(mem, Slot(oriBp, i)) == view[Slot(sharedTop, i)]
  }

  /** The reports of round i of the sanity loop. */
  function SanityRound(mem: map<int, Word>, view: map<int, Word>, oriBp: int, newBp: int, sharedTop: int, i: nat): (log: seq<Mismatch>)
    requires Slot(sharedTop, i) in view
    ensures log == [] <==> Agrees(mem, view, oriBp, newBp, sharedTop, i)
    ensures forall e :: e in log ==> e.index == i
  {
    var ori := Read(mem, Slot(oriBp, i));
    var copy := Read(mem, Slot(newBp, i));
    var shared := view[Slot(sharedTop, i)];
    (if ori != copy then [CopyMismatch(i, ori, copy)] else []) +
    (if ori != shared then [SharedMismatch(i, ori, shared)] else [])
  }

  /** The reports of the first k rounds of the sanity loop, in order. */
  function SanityLog(mem: map<int, Word>, view: map<int, Word>, oriBp: int, newBp: int, sharedTop: int, k: nat): (log: seq<Mismatch>)
    requires SharedReadable(view, sharedTop, k)
    ensures forall e :: e in log ==> e.index < k
    ensures |log| <= 2 * k
    decreases k
  {
    if k == 0 then []
    else SanityLog(mem, view, oriBp, newBp, sharedTop, k - 1) + SanityRound(mem, view, oriBp, newBp, sharedTop, k - 1)
  }

  /** The sanity loop reports nothing exactly when every inspected word agrees with its copy and its shared view. */
  lemma {:induction false} SanityLogEmptyIff(mem: map<int, Word>, view: map<int, Word>, oriBp: int, newBp: int, sharedTop: int, k: nat)
    requires SharedReadable(view, sharedTop, k)
    ensures SanityLog(mem, view, oriBp, newBp, sharedTop, k) == [] <==>
            forall i :: 0 <= i < k ==> Agrees(mem, view, oriBp, newBp, sharedTop, i)
    decreases k
  {
    if k > 0 {
      SanityLogEmptyIff(mem, view, oriBp, newBp, sharedTop, k - 1);
    }
  }

  /**
   * After a successful copy of disjoint spans, the sanity loop reports no copy
   * mismatch, and reports nothing at all when the parent's view shows the new stack.
   */
  lemma CleanCopyPassesSanityCheck(mem: map<int, Word>, view: map<int, Word>, r: Regs, base: U64, sharedTop: int)
    requires StackShaped(r) && Apart(r.rbp, base, CopyCount(r)) && AllMapped(mem, r.rbp, base, CopyCount(r))
    requires SharedReadable(view, sharedTop, SanityCount(r))
    ensures forall e :: e in SanityLog(CopyWords(mem, r.rbp, base, CopyCount(r)).0, view, r.rbp, base, sharedTop, SanityCount(r)) ==>
              e.SharedMismatch?
    ensures (forall i :: 0 <= i < SanityCount(r) ==> view[Slot(sharedTop, i)] == Read(mem, Slot(r.rbp, i))) ==>
            SanityLog(CopyWords(mem, r.rbp, base, CopyCount(r)).0, view, r.rbp, base, sharedTop, SanityCount(r)) == []
  {
    var copied := CopyWords(mem, r.rbp, base, CopyCount(r)).0;
    CopyIsFaithful(mem, r.rbp, base, CopyCount(r));
    assert SanityCount(r) <= CopyCount(r);
    assert forall i :: 0 <= i < SanityCount(r) ==> Read(copied, Slot(r.rbp, i)) == Read(copied, Slot(base, i));
    NoCopyMismatch(copied, view, r.rbp, base, sharedTop, SanityCount(r));
    if forall i :: 0 <= i < SanityCount(r) ==> view[Slot(sharedTop, i)] == Read(mem, Slot(r.rbp, i)) {
      forall i | 0 <= i < SanityCount(r)
        ensures Agrees(copied, view, r.rbp, base, sharedTop, i)
      {
        assert PairMapped(mem, r.rbp, base, i);
      }
      SanityLogEmptyIff(copied, view, r.rbp, base, sharedTop, SanityCount(r));
    }
  }

  /** Where every inspected word equals its copy, only shared-view mismatches are reported. */
  lemma {:induction false} NoCopyMismatch(mem: map<int, Word>, view: map<int, Word>, oriBp: int, newBp: int, sharedTop: int, k: nat)
    requires SharedReadable(view, sharedTop, k)
    requires forall i :: 0 <= i < k ==> Read(mem, Slot(oriBp, i)) == Read(mem, Slot(newBp, i))
    ensures forall e :: e in SanityLog(mem, view, oriBp, newBp, sharedTop, k) ==> e.SharedMismatch?
    decreases k
  {
    if k > 0 {
      NoCopyMismatch(mem, view, oriBp, newBp, sharedTop, k - 1);
    }
  }

  /** The sanity loop (lines 81-96): peeks both copies and reads the parent's view; it only reports. */
  method SanityCheck(t: Tracee, oriBp: int, newBp: int, sharedTop: int, n: nat, view: map<int, Word>)
      returns (log: seq<Mismatch>)
    requires SharedReadable(view, sharedTop, n)
    ensures log == SanityLog(t.mem, view, oriBp, newBp, sharedTop, n)
  {
    log := [];
    for i := 0 to n
      invariant log == SanityLog(t.mem, view, oriBp, newBp, sharedTop, i)
    {
      var oriWord := t.PeekData(Slot(oriBp, i)).word;
      var newWord := t.PeekData(Slot(newBp, i)).word;
      var sharedWord := view[Slot(sharedTop, i)];
      if oriWord != newWord {
        log := log + [CopyMismatch(i, oriWord, newWord)];
      }
      if oriWord != sharedWord {
        log := log + [SharedMismatch(i, oriWord, sharedWord)];
      }
    }
  }

  /**
   * `move_child_stack`. The child's memory is copied whenever the registers
   * could be read, the registers change only on success, and the sanity
   * reports have no say in the code returned.
   */
  method MoveChildStack(t: Tracee, stackBase: U64, view: map<int, Word>, childStack: int, getRegsOk: bool, setRegsOk: bool)
      returns (ret: int, mismatches: seq<Mismatch>)
    requires getRegsOk ==> StackShaped(t.regs)
    requires getRegsOk && AllMapped(t.mem, t.regs.rbp, stackBase, CopyCount(t.regs)) ==>
               SharedReadable(view, SharedTop(childStack), SanityCount(t.regs))
    modifies t
    ensures ret == RelocationCode(old(t.mem), old(t.regs), stackBase, getRegsOk, setRegsOk)
    ensures t.mem == if getRegsOk then CopyWords(old(t.mem), old(t.regs).rbp, stackBase, CopyCount(old(t.regs))).0 else old(t.mem)
    ensures t.regs == if ret == 0 then Relocated(old(t.regs), stackBase) else old(t.regs)
    ensures mismatches == if ret == 0 || ret == -3
                          then SanityLog(t.mem, view, old(t.regs).rbp, stackBase, SharedTop(childStack), SanityCount(old(t.regs)))
                          else []
  {
    var r, regs := t.GetRegs(getRegsOk);
    if r == -1 {
      return -1, [];
    }
    var oriBp, oriSp := regs.rbp, regs.rsp;
    var stackSize := StackSize(regs);

    var errno := CopyStack(t, regs, stackBase);
    CopyFailsIffUnmapped(old(t.mem), oriBp, stackBase, CopyCount(regs));
    if errno {
      return -2, [];
    }

    mismatches := SanityCheck(t, oriBp, stackBase, SharedTop(childStack), stackSize / WORD_SIZE, view);

    regs := regs.(rbp := stackBase);
    regs := regs.(rsp := Wrap64(regs.rbp - stackSize));
    r := t.SetRegs(regs, setRegsOk);
    if r == -1 {
      return -3, mismatches;
    }
    return 0, mismatches;
  }

  /**
   * The copy loop of `move_child_stack` (lines 69-78, x86_64 branch):
   * word by word from rbp down while above rsp, peek the word, poke it at the
   * new place and peek it back, folding every failure into errno.
   */
  method CopyStack(t: Tracee, regs: Regs, stackBase: U64) returns (errno: bool)
    requires StackShaped(regs)
    modifies t`mem
    ensures (t.mem, errno) == CopyWords(old(t.mem), regs.rbp, stackBase, CopyCount(regs))
  {
    var oriBp, oriSp := regs.rbp, regs.rsp;
    errno := false;
    var p: int, newP: int := oriBp, stackBase;
    ghost var i: nat := 0;
    while p > oriSp
      invariant p == Slot(oriBp, i) && newP == Slot(stackBase, i)
      invariant i <= CopyCount(regs)
      invariant (t.mem, errno) == CopyWords(old(t.mem), oriBp, stackBase, i)
      decreases p - oriSp
    {
      var word := t.PeekData(p);
      var pokeFailed := t.PokeData(newP, word.word);
      var newWord := t.PeekData(newP);
      errno := errno || word.failed || pokeFailed || newWord.failed;
      p, newP, i := p - WORD_SIZE, newP - WORD_SIZE, i + 1;
    }
  }
}
