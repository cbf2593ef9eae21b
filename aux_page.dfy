/**
 * The parameters the child leaves on its auxiliary page before it enters
 * `runtest` (lines 412-414): the iteration count, the performance-counter
 * file descriptor and the end of the writable code range, each stored
 * little-endian at its own offset for the epilogue to read.
 */
module AuxPage {
  import opened Machine

  const U64_BYTES: nat := 8
  const INT_BYTES: nat := 4

  /** An x86 load of a `uint64_t` (or a pointer) at offset `off` of the page. */
  function LoadU64(page: seq<Byte>, off: nat): (r: U64)
    requires off + U64_BYTES <= |page|
  {
    FromLittleEndianBound(page[off..off + U64_BYTES]);
    ByteRanges();
    FromLittleEndian(page[off..off + U64_BYTES])
  }

  /** An x86 load of a 32-bit `int` at offset `off` of the page. */
  function LoadInt(page: seq<Byte>, off: nat): (r: int)
    requires off + INT_BYTES <= |page|
  {
    FromLittleEndianBound(page[off..off + INT_BYTES]);
    ByteRanges();
    Signed32(FromLittleEndian(page[off..off + INT_BYTES]))
  }

  /** The page after the three stores, in program order. */
  function SavedParameters(page: seq<Byte>, iterationsOffset: nat, perfFdOffset: nat, testPageEndOffset: nat,
                           iterations: U64, perfFd: int, testPageEnd: U64): (r: seq<Byte>)
    requires iterationsOffset + U64_BYTES <= |page|
    requires perfFdOffset + INT_BYTES <= |page|
    requires testPageEndOffset + U64_BYTES <= |page|
    ensures |r| == |page|
  {
    var p1 := Overwrite(page, iterationsOffset, LittleEndian(iterations, U64_BYTES));
    var p2 := Overwrite(p1, perfFdOffset, LittleEndian(perfFd, INT_BYTES));
    Overwrite(p2, testPageEndOffset, LittleEndian(testPageEnd, U64_BYTES))
  }

  /** The fields [a, a + n) and [b, b + m) share no byte. */
  predicate Disjoint(a: nat, n: nat, b: nat, m: nat) {
    a + n <= b || b + m <= a
  }

  predicate InField(k: int, off: nat, width: nat) {
    off <= k < off + width
  }

  /**
   * Lines 412-414: the iteration count stored as a 64-bit unsigned value, the
   * counter's file descriptor as a 32-bit `int`, and the end of the writable
   * range as a pointer, each at its own offset of the aux page, in that order.
   */
  method SaveParameters(aux: array<Byte>, iterationsOffset: nat, perfFdOffset: nat, testPageEndOffset: nat,
                        iterations: U64, perfFd: int, testPageEnd: U64)
    requires iterationsOffset + U64_BYTES <= aux.Length
    requires perfFdOffset + INT_BYTES <= aux.Length
    requires testPageEndOffset + U64_BYTES <= aux.Length
    modifies aux
    ensures aux[..] == SavedParameters(old(aux[..]), iterationsOffset, perfFdOffset, testPageEndOffset,
                                       iterations, perfFd, testPageEnd)
  {
    ghost var p0 := aux[..];
    var e1 := LittleEndian(iterations, U64_BYTES);
    MemCopy(aux, iterationsOffset, e1);
    OverwriteFrame(p0, aux[..], iterationsOffset, e1);
    ghost var p1 := aux[..];
    var e2 := LittleEndian(perfFd, INT_BYTES);
    MemCopy(aux, perfFdOffset, e2);
    OverwriteFrame(p1, aux[..], perfFdOffset, e2);
    ghost var p2 := aux[..];
    var e3 := LittleEndian(testPageEnd, U64_BYTES);
    MemCopy(aux, testPageEndOffset, e3);
    OverwriteFrame(p2, aux[..], testPageEndOffset, e3);
  }

  /**
   * When the three fields do not overlap, the epilogue reads back exactly what
   * was stored: the iteration count, the descriptor (a 32-bit `int`) and the
   * page end. Where fields overlap, the later store wins.
   */
  lemma ParametersReadBack(page: seq<Byte>, iterationsOffset: nat, perfFdOffset: nat, testPageEndOffset: nat,
                           iterations: U64, perfFd: int, testPageEnd: U64)
    requires iterationsOffset + U64_BYTES <= |page|
    requires perfFdOffset + INT_BYTES <= |page|
    requires testPageEndOffset + U64_BYTES <= |page|
    requires Disjoint(iterationsOffset, U64_BYTES, perfFdOffset, INT_BYTES)
    requires Disjoint(iterationsOffset, U64_BYTES, testPageEndOffset, U64_BYTES)
    requires Disjoint(perfFdOffset, INT_BYTES, testPageEndOffset, U64_BYTES)
    requires -TWO_32 / 2 <= perfFd < TWO_32 / 2
    ensures var r := SavedParameters(page, iterationsOffset, perfFdOffset, testPageEndOffset,
                                     iterations, perfFd, testPageEnd);
      && LoadU64(r, iterationsOffset) == iterations
      && LoadInt(r, perfFdOffset) == perfFd
      && LoadU64(r, testPageEndOffset) == testPageEnd
  {
    var e1, e2, e3 := LittleEndian(iterations, U64_BYTES), LittleEndian(perfFd, INT_BYTES), LittleEndian(testPageEnd, U64_BYTES);
    var p1 := Overwrite(page, iterationsOffset, e1);
    var p2 := Overwrite(p1, perfFdOffset, e2);
    var r := Overwrite(p2, testPageEndOffset, e3);
    assert r == SavedParameters(page, iterationsOffset, perfFdOffset, testPageEndOffset, iterations, perfFd, testPageEnd);
    OverwriteHere(page, iterationsOffset, e1);
    OverwriteElsewhere(p1, perfFdOffset, e2, iterationsOffset, iterationsOffset + U64_BYTES);
    OverwriteElsewhere(p2, testPageEndOffset, e3, iterationsOffset, iterationsOffset + U64_BYTES);
    LoadU64AfterStore(r, iterationsOffset, iterations);
    OverwriteHere(p1, perfFdOffset, e2);
    OverwriteElsewhere(p2, testPageEndOffset, e3, perfFdOffset, perfFdOffset + INT_BYTES);
    LoadIntAfterStore(r, perfFdOffset, perfFd);
    OverwriteHere(p2, testPageEndOffset, e3);
    LoadU64AfterStore(r, testPageEndOffset, testPageEnd);
  }

  /** A `uint64_t` load reads back what a `uint64_t` store wrote. */
  lemma LoadU64AfterStore(page: seq<Byte>, off: nat, v: U64)
    requires off + U64_BYTES <= |page|
    requires page[off..off + U64_BYTES] == LittleEndian(v, U64_BYTES)
    ensures LoadU64(page, off) == v
  {
    LoadAfterStore(v, U64_BYTES);
    ByteRanges();
  }

  /** An `int` load reads back what an `int` store wrote. */
  lemma LoadIntAfterStore(page: seq<Byte>, off: nat, v: int)
    requires off + INT_BYTES <= |page|
    requires -TWO_32 / 2 <= v < TWO_32 / 2
    requires page[off..off + INT_BYTES] == LittleEndian(v, INT_BYTES)
    ensures LoadInt(page, off) == v
  {
    LoadAfterStore(v, INT_BYTES);
    ByteRanges();
    if v < 0 {
      ModUnique(v, TWO_32, -1, v + TWO_32);
    }
  }

  /** Every byte outside the three fields is left as it was. */
  lemma ParametersLeaveRestAlone(page: seq<Byte>, iterationsOffset: nat, perfFdOffset: nat, testPageEndOffset: nat,
                                 iterations: U64, perfFd: int, testPageEnd: U64, k: nat)
    requires iterationsOffset + U64_BYTES <= |page|
    requires perfFdOffset + INT_BYTES <= |page|
    requires testPageEndOffset + U64_BYTES <= |page|
    requires k < |page|
    requires !InField(k, iterationsOffset, U64_BYTES) && !InField(k, perfFdOffset, INT_BYTES)
    requires !InField(k, testPageEndOffset, U64_BYTES)
    ensures SavedParameters(page, iterationsOffset, perfFdOffset, testPageEndOffset,
                            iterations, perfFd, testPageEnd)[k] == page[k]
  {
    var e1, e2, e3 := LittleEndian(iterations, U64_BYTES), LittleEndian(perfFd, INT_BYTES), LittleEndian(testPageEnd, U64_BYTES);
    var p1 := Overwrite(page, iterationsOffset, e1);
    var p2 := Overwrite(p1, perfFdOffset, e2);
    var r := Overwrite(p2, testPageEndOffset, e3);
    assert r == SavedParameters(page, iterationsOffset, perfFdOffset, testPageEndOffset, iterations, perfFd, testPageEnd);
    OverwriteKeeps(page, iterationsOffset, e1, k);
    OverwriteKeeps(p1, perfFdOffset, e2, k);
    OverwriteKeeps(p2, testPageEndOffset, e3, k);
  }
}
