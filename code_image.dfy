/**
 * The child side of `measure` that builds the executable test image: the
 * test block copied `unroll_factor` times back to back, then the epilogue
 * ("tail") verbatim, then a 5-byte x86 `JMP rel32` back to `test_start`;
 * together with the page-rounded span that is made writable for it.
 *
 * Memory is a window `mem` of the child's address space: the byte at
 * address `base + k` is `mem[k]`.
 */
module CodeImage {
  import opened Machine
  import opened Pages

  /** Length of `E9 cd`, the x86 near jump with a 32-bit displacement. */
  const SIZE_OF_REL_JUMP: nat := 5
  /** Opcode of JMP rel32 (Intel SDM Vol. 2A, "JMP--Jump"). */
  const JMP_REL32: Byte := 0xE9
  /** Width of the displacement that follows the opcode. */
  const REL32_BYTES: nat := 4

  /** A window of memory, with the address just past it, inside the 64-bit address space. */
  predicate InAddressSpace(mem: array<Byte>, base: U64) {
    base + mem.Length < TWO_64
  }

  /** n copies of the test block, back to back. */
  function Repeat(code: seq<Byte>, n: nat): seq<Byte>
    decreases n
  {
    if n == 0 then [] else Repeat(code, n - 1) + code
  }

  lemma {:induction false} RepeatLength(code: seq<Byte>, n: nat)
    ensures |Repeat(code, n)| == |code| * n
    decreases n
  {
    if n > 0 {
      RepeatLength(code, n - 1);
      assert |code| * n == |code| * (n - 1) + |code|;
    }
  }

  /** Copy number k of the block sits at offset code_size * k of the unrolled bytes. */
  lemma {:induction false} RepeatBlock(code: seq<Byte>, n: nat, k: nat)
    requires k < n
    ensures |Repeat(code, n)| == |code| * n
    ensures |code| * (k + 1) <= |code| * n
    ensures Repeat(code, n)[|code| * k..|code| * (k + 1)] == code
    decreases n
  {
    RepeatLength(code, n);
    RepeatLength(code, n - 1);
    var c := |code|;
    assert c * n == c * (n - 1) + c;
    assert c * (k + 1) == c * k + c;
    MulMonotone(k + 1, n, c);
    if k < n - 1 {
      RepeatBlock(code, n - 1, k);
      MulMonotone(k + 1, n - 1, c);
      assert Repeat(code, n)[c * k..c * (k + 1)] == Repeat(code, n - 1)[c * k..c * (k + 1)];
    } else {
      assert c * k == c * (n - 1);
    }
  }

  /** More copies never take fewer bytes. */
  lemma {:induction false} RepeatGrows(code: seq<Byte>, i: nat, n: nat)
    requires i <= n
    ensures |Repeat(code, i)| <= |Repeat(code, n)|
    decreases n
  {
    if i < n {
      RepeatGrows(code, i, n - 1);
    }
  }

  lemma MulMonotone(a: nat, b: nat, c: nat)
    requires a <= b
    ensures c * a <= c * b
  {
    assert c * b == c * a + c * (b - a);
  }

  /** The displacement `test_start - addr - 5`, converted to a 32-bit `int`. */
  function Rel32(addr: U64, target: U64): (d: int)
    ensures 0 <= d < TWO_32
  {
    Wrap32(target - addr - SIZE_OF_REL_JUMP)
  }

  /** The five bytes `insert_jump_to_test_start` stores at addr: the opcode, then the displacement little-endian. */
  function JumpBytes(addr: U64, target: U64): (r: seq<Byte>)
    ensures |r| == SIZE_OF_REL_JUMP && r[0] == JMP_REL32
  {
    [JMP_REL32] + LittleEndian(Rel32(addr, target), REL32_BYTES)
  }

  /**
   * Where a JMP rel32 whose five bytes are insn, placed at addr, transfers
   * control: the address of the next instruction plus the sign-extended
   * displacement, modulo 2^64.
   */
  function JumpDestination(addr: U64, insn: seq<Byte>): U64
    requires |insn| == SIZE_OF_REL_JUMP
  {
    FromLittleEndianBound(insn[1..]);
    ByteRanges();
    Wrap64(addr + SIZE_OF_REL_JUMP + Signed32(FromLittleEndian(insn[1..])))
  }

  /** The displacement stored in a jump reads back as the 32-bit value written. */
  lemma JumpDisplacement(addr: U64, target: U64)
    ensures FromLittleEndian(JumpBytes(addr, target)[1..]) == Rel32(addr, target)
  {
    var r := JumpBytes(addr, target);
    assert r[1..] == LittleEndian(Rel32(addr, target), REL32_BYTES);
    LoadAfterStore(Rel32(addr, target), REL32_BYTES);
    ByteRanges();
  }

  /** When the distance fits in 32 signed bits, the stored jump lands exactly on its target. */
  lemma JumpReachesTarget(addr: U64, target: U64)
    requires -TWO_32 / 2 <= target - addr - SIZE_OF_REL_JUMP < TWO_32 / 2
    ensures JumpDestination(addr, JumpBytes(addr, target)) == target
  {
    JumpDisplacement(addr, target);
    var x := target - addr - SIZE_OF_REL_JUMP;
    if x >= 0 {
      assert Rel32(addr, target) == x;
    } else {
      ModUnique(x, TWO_32, -1, x + TWO_32);
      assert Rel32(addr, target) == x + TWO_32;
    }
  }

  /** In every case the jump lands on an address that agrees with the target in its low 32 bits. */
  lemma JumpTruncates(addr: U64, target: U64)
    ensures (JumpDestination(addr, JumpBytes(addr, target)) - target) % TWO_32 == 0
  {
    JumpDisplacement(addr, target);
    var x := target - addr - SIZE_OF_REL_JUMP;
    var u := Rel32(addr, target);
    var s := Signed32(u);
    var sum := addr + SIZE_OF_REL_JUMP + s;
    var d := JumpDestination(addr, JumpBytes(addr, target));
    assert d == Wrap64(sum);
    var q1 := (u - x) / TWO_32;
    assert u - x == TWO_32 * q1;
    var q2 := (s - u) / TWO_32;
    assert s - u == TWO_32 * q2;
    var q3 := (d - sum) / TWO_64;
    assert d - sum == TWO_64 * q3;
    assert d - target == TWO_32 * (q1 + q2 + 0x1_0000_0000 * q3);
    ModUnique(d - target, TWO_32, q1 + q2 + 0x1_0000_0000 * q3, 0);
  }

  /**
   * `insert_jump_to_test_start(addr)`: writes JMP rel32 to `test_start` at
   * addr and returns its length. No byte outside [addr, addr + 5) changes.
   */
  method InsertJumpToTestStart(mem: array<Byte>, base: U64, addr: U64, testStart: U64) returns (n: nat)
    requires base <= addr && addr - base + SIZE_OF_REL_JUMP <= mem.Length
    modifies mem
    ensures n == SIZE_OF_REL_JUMP
    ensures mem[addr - base..addr - base + n] == JumpBytes(addr, testStart)
    ensures mem[..addr - base] == old(mem[..addr - base]) && mem[addr - base + n..] == old(mem[addr - base + n..])
  {
    var i := addr - base;
    mem[i] := JMP_REL32;
    ghost var afterOpcode := mem[..];
    MemCopy(mem, i + 1, LittleEndian(Rel32(addr, testStart), REL32_BYTES));
    assert mem[i] == afterOpcode[i] == JMP_REL32;
    assert mem[i..i + SIZE_OF_REL_JUMP] == [mem[i]] + mem[i + 1..i + SIZE_OF_REL_JUMP];
    n := SIZE_OF_REL_JUMP;
  }

  /** Bytes the layout writes: unrolled blocks, tail, jump. */
  function ImageSize(codeSize: nat, unroll: nat, tailSize: nat): nat {
    codeSize * unroll + tailSize + SIZE_OF_REL_JUMP
  }

  /**
   * The same count, from the unrolled bytes themselves; the methods use this
   * form so that their proofs never see the product `|code| * unroll`.
   */
  function ImageBytes(code: seq<Byte>, unroll: nat, tail: seq<Byte>): nat {
    |Repeat(code, unroll)| + |tail| + SIZE_OF_REL_JUMP
  }

  lemma ImageBytesSize(code: seq<Byte>, unroll: nat, tail: seq<Byte>)
    ensures ImageBytes(code, unroll, tail) == ImageSize(|code|, unroll, |tail|)
  {
    RepeatLength(code, unroll);
  }

  /** The image laid out at testBlock: the jump sits right after the tail and targets testStart. */
  function TestImage(code: seq<Byte>, unroll: nat, tail: seq<Byte>, testBlock: U64, testStart: U64): seq<Byte>
    requires testBlock + ImageBytes(code, unroll, tail) <= TWO_64
  {
    var unrolled := Repeat(code, unroll);
    unrolled + tail + JumpBytes(testBlock + |unrolled| + |tail|, testStart)
  }

  /**
   * The layout, piece by piece: the unrolled blocks first (RepeatBlock places
   * copy k at offset k * code_size), the tail right after the last block, the
   * jump right after the tail, and the jump lands on testStart whenever the
   * distance fits in 32 bits.
   */
  lemma ImageLayout(code: seq<Byte>, unroll: nat, tail: seq<Byte>, testBlock: U64, testStart: U64, u: nat)
    requires testBlock + ImageBytes(code, unroll, tail) <= TWO_64
    requires u == |Repeat(code, unroll)|
    ensures |TestImage(code, unroll, tail, testBlock, testStart)| == ImageBytes(code, unroll, tail)
    ensures TestImage(code, unroll, tail, testBlock, testStart)[..u] == Repeat(code, unroll)
    ensures TestImage(code, unroll, tail, testBlock, testStart)[u..u + |tail|] == tail
    ensures TestImage(code, unroll, tail, testBlock, testStart)[u + |tail|..] == JumpBytes(testBlock + u + |tail|, testStart)
    ensures -TWO_32 / 2 <= testStart - (testBlock + u + |tail|) - SIZE_OF_REL_JUMP < TWO_32 / 2 ==>
              JumpDestination(testBlock + u + |tail|, TestImage(code, unroll, tail, testBlock, testStart)[u + |tail|..]) == testStart
  {
    var unrolled := Repeat(code, unroll);
    var t := |tail|;
    var at := testBlock + u + t;
    var jump := JumpBytes(at, testStart);
    var img := unrolled + tail + jump;
    assert img == TestImage(code, unroll, tail, testBlock, testStart);
    assert img[..u] == unrolled;
    assert img[u..u + t] == tail;
    assert img[u + t..] == jump;
    if -TWO_32 / 2 <= testStart - at - SIZE_OF_REL_JUMP < TWO_32 / 2 {
      JumpReachesTarget(at, testStart);
    }
  }

  /**
   * The range `[runtest_page_start, runtest_page_end)` given to `mprotect`:
   * the page of `runtest` up to the page end of the last byte written,
   * computed with unsigned 64-bit arithmetic as the source does.
   */
  function WritableRange(runtest: U64, testBlock: U64, codeSize: U64, unroll: U64, tailSize: U64): (U64, U64) {
    var unrolledBlockSize := Wrap64(codeSize * unroll);
    (PageStart(runtest), PageEnd(Wrap64(testBlock + unrolledBlockSize + tailSize + SIZE_OF_REL_JUMP)))
  }

  /**
   * When the test block lies at or after the page of `runtest` and the image
   * does not reach the last page of the address space, every byte written lies
   * inside the range made writable, both ends are page boundaries, and the range
   * extends at most one page past the image.
   */
  lemma ImageInsideWritableRange(runtest: U64, testBlock: U64, codeSize: U64, unroll: U64, tailSize: U64)
    requires PageStart(runtest) <= testBlock
    requires testBlock + ImageSize(codeSize, unroll, tailSize) < LAST_PAGE
    ensures var (lo, hi) := WritableRange(runtest, testBlock, codeSize, unroll, tailSize);
      var end := testBlock + ImageSize(codeSize, unroll, tailSize);
      && PageAligned(lo) && PageAligned(hi)
      && lo <= testBlock && end < hi && hi <= end + PAGE_SIZE
  {
    var end := testBlock + ImageSize(codeSize, unroll, tailSize);
    assert Wrap64(codeSize * unroll) == codeSize * unroll;
    assert Wrap64(testBlock + codeSize * unroll + tailSize + SIZE_OF_REL_JUMP) == end;
    PageStartUnique(PageEnd(end), PageStart(end) + PAGE_SIZE);
  }

  /**
   * The unroll loop of lines 344-348: `unroll` `memcpy`s of the block, each at
   * the current `block_ptr`, which then advances by the block size.
   */
  method CopyUnrolled(mem: array<Byte>, s: nat, code: seq<Byte>, unroll: nat) returns (p: nat)
    requires s + |Repeat(code, unroll)| <= mem.Length
    modifies mem
    ensures p == s + |Repeat(code, unroll)|
    ensures mem[s..p] == Repeat(code, unroll)
    ensures mem[..s] == old(mem[..s]) && mem[p..] == old(mem[p..])
  {
    p := s;
    for i := 0 to unroll
      invariant p == s + |Repeat(code, i)|
      invariant |Repeat(code, i)| <= |Repeat(code, unroll)|
      invariant mem[s..p] == Repeat(code, i)
      invariant mem[..s] == old(mem[..s]) && mem[p..] == old(mem[p..])
    {
      ghost var before := mem[..];
      RepeatGrows(code, i + 1, unroll);
      MemCopy(mem, p, code);
      assert mem[s..p] == before[s..p];
      assert mem[s..p + |code|] == mem[s..p] + mem[p..p + |code|];
      p := p + |code|;
    }
  }

  /**
   * Lines 344-355: the unrolled blocks, then `memcpy` of the tail, then the
   * jump, each at the current `block_ptr`. Returns the final `block_ptr`.
   */
  method WriteTestImage(mem: array<Byte>, base: U64, testBlock: U64,
                        code: seq<Byte>, unroll: nat, tail: seq<Byte>, testStart: U64)
    returns (blockPtr: U64)
    requires InAddressSpace(mem, base)
    requires base <= testBlock && testBlock - base + ImageBytes(code, unroll, tail) <= mem.Length
    modifies mem
    ensures blockPtr == testBlock + ImageBytes(code, unroll, tail)
    ensures mem[testBlock - base..blockPtr - base] == TestImage(code, unroll, tail, testBlock, testStart)
    ensures mem[..testBlock - base] == old(mem[..testBlock - base]) && mem[blockPtr - base..] == old(mem[blockPtr - base..])
  {
    ghost var entry := mem[..];
    var s := testBlock - base;
    var p := CopyUnrolled(mem, s, code, unroll);
    ghost var unrolled := mem[..];
    MemCopy(mem, p, tail);
    AppendAt(entry, unrolled, mem[..], s, p, Repeat(code, unroll), tail);
    p := p + |tail|;
    ghost var withTail := mem[..];
    var jumpAt: U64 := base + p;
    var jumpSize := InsertJumpToTestStart(mem, base, jumpAt, testStart);
    AppendAt(entry, withTail, mem[..], s, p, Repeat(code, unroll) + tail, JumpBytes(jumpAt, testStart));
    TestImageIs(code, unroll, tail, testBlock, testStart, jumpAt);
    p := p + jumpSize;
    blockPtr := base + p;
  }

  /**
   * Writing src at p, right after the bytes x at [s, p), leaves x + src at
   * [s, p + |src|); a window that agreed with orig outside [s, p) then agrees
   * with it outside [s, p + |src|).
   */
  lemma AppendAt(orig: seq<Byte>, before: seq<Byte>, after: seq<Byte>, s: nat, p: nat, x: seq<Byte>, src: seq<Byte>)
    requires |orig| == |before| == |after| && s <= p && p + |src| <= |before|
    requires before[s..p] == x && before[..s] == orig[..s] && before[p..] == orig[p..]
    requires after[..p] == before[..p] && after[p..p + |src|] == src && after[p + |src|..] == before[p + |src|..]
    ensures after[s..p + |src|] == x + src
    ensures after[..s] == orig[..s] && after[p + |src|..] == orig[p + |src|..]
  {
    assert after[s..p] == after[..p][s..] == before[..p][s..] == before[s..p];
    assert after[..s] == after[..p][..s] == before[..p][..s] == before[..s];
    assert before[p + |src|..] == before[p..][|src|..] == orig[p..][|src|..] == orig[p + |src|..];
    SliceSplit(after, s, p, p + |src|);
  }

  /** The image, with the jump placed at the address right after the tail. */
  lemma TestImageIs(code: seq<Byte>, unroll: nat, tail: seq<Byte>, testBlock: U64, testStart: U64, at: U64)
    requires testBlock + ImageBytes(code, unroll, tail) <= TWO_64
    requires at == testBlock + |Repeat(code, unroll)| + |tail|
    ensures TestImage(code, unroll, tail, testBlock, testStart) == Repeat(code, unroll) + tail + JumpBytes(at, testStart)
  {
  }

  /**
   * Lines 331-358 of the child: compute the writable range, then lay out the
   * image. Returns the final `block_ptr` and the range. The `mprotect` calls
   * themselves are not modelled.
   */
  method PlaceTestImage(mem: array<Byte>, base: U64, runtest: U64, testBlock: U64,
                        code: seq<Byte>, unroll: nat, tail: seq<Byte>, testStart: U64)
    returns (blockPtr: U64, pageStart: U64, pageEnd: U64)
    requires InAddressSpace(mem, base)
    requires |code| < TWO_64 && unroll < TWO_32
    requires base <= testBlock && testBlock - base + ImageBytes(code, unroll, tail) <= mem.Length
    modifies mem
    ensures blockPtr == testBlock + ImageBytes(code, unroll, tail) == testBlock + ImageSize(|code|, unroll, |tail|)
    ensures (pageStart, pageEnd) == WritableRange(runtest, testBlock, |code|, unroll, |tail|)
    ensures mem[testBlock - base..blockPtr - base] == TestImage(code, unroll, tail, testBlock, testStart)
    ensures mem[..testBlock - base] == old(mem[..testBlock - base]) && mem[blockPtr - base..] == old(mem[blockPtr - base..])
  {
    ImageBytesSize(code, unroll, tail);
    var unrolledBlockSize := Wrap64(|code| * unroll);
    pageStart := PageStart(runtest);
    pageEnd := PageEnd(Wrap64(testBlock + unrolledBlockSize + |tail| + SIZE_OF_REL_JUMP));
    blockPtr := WriteTestImage(mem, base, testBlock, code, unroll, tail, testStart);
  }

  /**
   * Which `mprotect` failures the child reports: the call that opens the code
   * pages for writing (lines 338-342) and the one that closes them (lines
   * 357-361). As written, the second result is never stored, so the second
   * check reads the first call's `ret` again.
   */
  function ProtectReports(unprotectOk: bool, protectOk: bool): (reported: (bool, bool))
  {
    var ret := if unprotectOk then 0 else -1;
    (ret == -1, ret == -1)
  }

  /** As written, a failure of the second `mprotect` alone is never reported. */
  lemma SecondProtectFailureUnreported(unprotectOk: bool, protectOk: bool)
    ensures ProtectReports(unprotectOk, protectOk).1 <==> !unprotectOk
    ensures ProtectReports(true, false) == (false, false)
  {
  }

  /** The checks as intended: each tests the result of the call just made. */
  function ProtectReportsFixed(unprotectOk: bool, protectOk: bool): (reported: (bool, bool))
  {
    var ret := if unprotectOk then 0 else -1;
    var ret2 := if protectOk then 0 else -1;
    (ret == -1, ret2 == -1)
  }

  /** Corrected: each failure is reported exactly when that call failed. */
  lemma FixedProtectReportsExact(unprotectOk: bool, protectOk: bool)
    ensures ProtectReportsFixed(unprotectOk, protectOk).0 <==> !unprotectOk
    ensures ProtectReportsFixed(unprotectOk, protectOk).1 <==> !protectOk
  {
  }
}
