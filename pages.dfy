/**
 * Page rounding of addresses (`get_page_start`, `get_page_end`), on x86_64
 * where PAGE_SHIFT is 12 and PAGE_SIZE is 1 << 12.
 */
module Pages {
  import opened Machine

  /** 1 << PAGE_SHIFT, with PAGE_SHIFT 12 on x86-64. */
  const PAGE_SIZE: int := 4096
  /** Start of the highest page of the 64-bit address space. */
  const LAST_PAGE: int := TWO_64 - PAGE_SIZE

  predicate PageAligned(a: int) {
    a % PAGE_SIZE == 0
  }

  /** An unsigned `x >> PAGE_SHIFT`. */
  function ShiftRightPage(x: U64): U64 {
    x / PAGE_SIZE
  }

  /** An unsigned 64-bit `x << PAGE_SHIFT`: the bits shifted out are lost. */
  function ShiftLeftPage(x: U64): U64 {
    Wrap64(x * PAGE_SIZE)
  }

  /** `get_page_start`: clear the low PAGE_SHIFT bits of the address. */
  function PageStart(a: U64): (r: U64)
    ensures PageAligned(r)
    ensures r <= a && a - r < PAGE_SIZE
  {
    ShiftLeftPage(ShiftRightPage(a))
  }

  /**
   * `get_page_end`: the start of the page plus PAGE_SIZE. The pointer sum is
   * not checked, so on the last page of the address space it wraps to 0.
   */
  function PageEnd(a: U64): (r: U64)
    ensures a < LAST_PAGE ==> r == PageStart(a) + PAGE_SIZE && a < r
    ensures LAST_PAGE <= a ==> r == 0
  {
    Wrap64(PageStart(a) + PAGE_SIZE)
  }

  /** PageStart(a) is the only page boundary m with m <= a < m + PAGE_SIZE. */
  lemma PageStartUnique(a: U64, m: int)
    requires PageAligned(m) && m <= a < m + PAGE_SIZE
    ensures PageStart(a) == m
  {
    var k := m / PAGE_SIZE;
    assert m == PAGE_SIZE * k;
    ModUnique(a, PAGE_SIZE, k, a - m);
    assert ShiftRightPage(a) == k;
  }

  /** Rounding a page start down again changes nothing. */
  lemma PageStartIdempotent(a: U64)
    ensures PageStart(PageStart(a)) == PageStart(a)
  {
    PageStartUnique(PageStart(a), PageStart(a));
  }

  /** An aligned address is its own page start. */
  lemma PageStartOfAligned(a: U64)
    requires PageAligned(a)
    ensures PageStart(a) == a
  {
    PageStartUnique(a, a);
  }

  /** An aligned address that is not on the last page ends a whole page later. */
  lemma PageEndOfAligned(a: U64)
    requires PageAligned(a) && a < LAST_PAGE
    ensures PageEnd(a) == a + PAGE_SIZE
  {
    PageStartOfAligned(a);
  }

  /** Page rounding keeps the order of addresses. */
  lemma PageStartMonotone(a: U64, b: U64)
    requires a <= b
    ensures PageStart(a) <= PageStart(b)
  {
    var pa, pb := PageStart(a), PageStart(b);
    if pb < pa {
      PageStartUnique(pa, pb);
      PageStartOfAligned(pa);
      assert false;
    }
  }

  /** Below the last page, PageEnd(a) is the first page boundary above a. */
  lemma PageEndIsNextBoundary(a: U64, m: int)
    requires a < LAST_PAGE
    requires PageAligned(m) && a < m
    ensures PageEnd(a) <= m
  {
    var s := PageStart(a);
    if m < s + PAGE_SIZE {
      PageStartUnique(m, s);
      PageStartOfAligned(m);
      assert false;
    }
  }
}
