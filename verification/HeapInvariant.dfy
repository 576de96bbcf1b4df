/** What every operation keeps: the tiling, the block statuses and the bound on wasted bytes. */
module HeapInvariant {
  import opened KernelHeap
  import opened Wrappers
  import opened LinearMemory
  import opened LittleEndian
  import opened HeapLayout

  /** Reused blocks waste fewer than `SPLIT_EXCESS` bytes, and no block inside the tiling is Unused. */
  ghost predicate GoodBlock(b: Block)
  {
    && b.status != Unused
    && (b.status == Active ==> b.used <= b.size < b.used + SPLIT_EXCESS)
  }

  ghost predicate WellFormed(h: Heap)
  {
    && Sane(h)
    && forall i :: 0 <= i < |h.blocks| ==> GoodBlock(h.blocks[i])
  }

  lemma NumPagesIsCeiling(x: nat)
    ensures x <= PAGE_SIZE * NumPages(x)
    ensures 0 < x ==> PAGE_SIZE * (NumPages(x) - 1) < x
    ensures forall k: nat :: x <= PAGE_SIZE * k <==> NumPages(x) <= k
  {
  }

  lemma InitWellFormed(initialPages: nat)
    requires initialPages <= MAX_PAGES
    ensures WellFormed(Init(initialPages))
  {
  }

  /** In a well-formed heap the search finds the lowest free block that is large enough. */
  lemma FirstFitAt(bs: seq<Block>, n: u32, i: nat)
    requires forall j :: 0 <= j < |bs| ==> GoodBlock(bs[j])
    requires i <= |bs| && (forall j :: 0 <= j < i ==> !(bs[j].status == Free && n <= bs[j].size))
    requires i < |bs| ==> bs[i].status == Free && n <= bs[i].size
    ensures FirstFit(bs, n, 0) == i
  {
    assert forall j :: 0 <= j < |bs| ==> GoodBlock(bs[j]) && bs[j].status != Unused;
    FirstFitIs(bs, n, i);
  }

  lemma ReuseWellFormed(h: Heap, i: nat, n: u32)
    requires WellFormed(h) && i < |h.blocks| && Fits(h.blocks[i], n)
    ensures var (cs, k) := Carve(h.blocks, i, n);
            k < |cs| && WellFormed(h.(blocks := Activate(cs, k, n)))
  {
    var bs := h.blocks;
    CarveReplaces(bs, i, n);
    var (cs, k) := Carve(bs, i, n);
    var ds := Activate(cs, k, n);
    assert GoodBlock(bs[i]);
    forall j | 0 <= j < |ds| ensures GoodBlock(ds[j]) {
      if !(i <= j <= k) {
        assert Kept(bs, ds, i, k, if j < i then j else j - (k - i));
      }
    }
  }

  lemma BumpPosition(bs: seq<Block>, b: Block)
    ensures Position(bs + [b]) == Position(bs) + HEADER + b.size
  {
    AddrSameSizes(bs, bs + [b], |bs|);
  }

  lemma AppendWellFormed(h: Heap, n: u32)
    requires WellFormed(h) && Position(h.blocks) + HEADER + n + ROOT_SIZE <= h.length
    ensures WellFormed(h.(blocks := h.blocks + [Block(Active, n, n)]))
  {
    BumpPosition(h.blocks, Block(Active, n, n));
  }

  /** For a 32-bit size the arithmetic neither wraps nor truncates, and the pages asked for suffice. */
  lemma GrowthSuffices(h: Heap, n: u32)
    requires Sane(h)
    ensures var left := h.length - Position(h.blocks) - ROOT_SIZE;
            GrowthFor(h, n) == if left <= n + HEADER then Some(NumPages(n + HEADER - left)) else None
    ensures var g := GrowthFor(h, n);
            Position(h.blocks) + HEADER + n + ROOT_SIZE <= h.length + PAGE_SIZE * if g.Some? then g.value else 0
  {
  }

  /** Where the search does not wrap, neither does the step from any zero header it reads in full. */
  lemma StepDoesNotWrap(h: Heap, p: nat, past: nat)
    requires Sane(h) && !WalkWraps(h, p)
    requires var a := End(h.blocks) + HEADER * past; a < BLOCKS + p && a + 8 <= PAGE_SIZE * h.pages
    ensures End(h.blocks) + HEADER * past + HEADER < U32_LIMIT
  {
  }

  lemma AllocWellFormed(h: Heap, n: u64, cap: nat, granted: bool)
    requires WellFormed(h) && cap <= MAX_PAGES
    ensures WellFormed(Alloc(h, n, cap, granted).0)
    ensures h.pages <= cap ==> Alloc(h, n, cap, granted).0.pages <= cap
  {
    if n != 0 {
      var m := n % U32_LIMIT;
      var i := FirstFit(h.blocks, m, 0);
      if i < |h.blocks| {
        ReuseWellFormed(h, i, m);
      } else if n < U32_LIMIT {
        GrowthSuffices(h, n);
        BumpPosition(h.blocks, Block(Active, n, n));
      }
    }
  }

  lemma FreedWellFormed(h: Heap, i: nat)
    requires WellFormed(h) && i < |h.blocks|
    ensures WellFormed(h.(blocks := h.blocks[i := h.blocks[i].(status := Free)]))
  {
    AddrSameSizes(h.blocks, h.blocks[i := h.blocks[i].(status := Free)], |h.blocks|);
  }

  lemma FreeWellFormed(h: Heap, p: u64)
    requires WellFormed(h)
    ensures WellFormed(FreeHandle(h, p).0)
  {
    if p != 0 {
      match FindBlock(h, p)
      case At(i) => FreedWellFormed(h, i);
      case _ =>
    }
  }
}
