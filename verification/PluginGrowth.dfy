/** How many pages a bump allocation requests, and that its bytes are then in memory. */
module PluginGrowth {
  import opened LinearMemory
  import opened PluginBlocks

  /** The division over reals and its ceiling give the integer ceiling, raised to 1 at an exact fit. */
  lemma PagesNeededExact(newOffset: nat, size: nat)
    requires size <= newOffset
    ensures var k := PagesNeeded(newOffset, size);
            && newOffset <= size + PAGE_SIZE * k
            && (newOffset == size ==> k == 1)
            && (newOffset > size ==> size + PAGE_SIZE * (k - 1) < newOffset)
  {
  }

  /**
   A bump allocation leaves its bytes inside memory, asks for the fewest pages that do, or one at an
   exact fit, and fails only when those exceed the cap; reuse never grows memory.
   */
  lemma BumpGrowth(m: Memory, n: nat, cap: nat)
    requires m.pages <= cap <= MAX_PAGES
    requires forall i :: 0 <= i < |m.free| ==> !(m.free[i].length == n || n + 32 <= m.free[i].length)
    ensures var (m', r) := Alloc(m, n, cap);
            var size, needed := PAGE_SIZE * m.pages, m.position + n;
            && (r.Ok? ==> needed == m'.position <= PAGE_SIZE * m'.pages && m'.pages <= cap)
            && (r.Ok? && needed < size ==> m'.pages == m.pages)
            && (r.Ok? && needed == size ==> m'.pages == m.pages + 1)
            && (r.Ok? && size < needed ==> PAGE_SIZE * (m'.pages - 1) < needed)
            && (r.GrowFailed? <==> PAGE_SIZE * cap < needed || (needed == size && m.pages == cap))
  {
    FirstServingIs(m.free, n, |m.free|);
  }
}
