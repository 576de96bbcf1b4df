/** How far memory grows, when allocation fails, and what a reset forgets. */
module KernelGrowth {
  import opened KernelHeap
  import opened Wrappers
  import opened LinearMemory
  import opened LittleEndian
  import opened HeapLayout
  import opened HeapInvariant
  import opened KernelRuns

  /** The least length the kernel can have that is at least `x`. */
  function Cover(x: nat): nat
  {
    if x <= FIRST_LENGTH then FIRST_LENGTH else FIRST_LENGTH + PAGE_SIZE * NumPages(x - FIRST_LENGTH)
  }

  function Max(a: nat, b: nat): nat
  {
    if a < b then b else a
  }

  lemma CoverIsLeast(x: nat, k: nat)
    ensures x <= Cover(x)
    ensures (Cover(x) - FIRST_LENGTH) % PAGE_SIZE == 0
    ensures x <= FIRST_LENGTH + PAGE_SIZE * k ==> Cover(x) <= FIRST_LENGTH + PAGE_SIZE * k
  {
  }

  lemma CoverOfMax(x: nat, y: nat)
    ensures Cover(Max(x, y)) == Max(Cover(x), Cover(y))
  {
  }

  /** `length` counts the pages added since initialisation. */
  ghost predicate Grown(h: Heap, base: nat)
  {
    base <= h.pages && h.length == FIRST_LENGTH + PAGE_SIZE * (h.pages - base)
  }

  /** The position a new block of `n` bytes needs, with the root record. */
  function Need(h: Heap, n: nat): nat
  {
    Position(h.blocks) + HEADER + n + ROOT_SIZE
  }

  /** Even the full cap is too low for `n` more bytes. */
  predicate TooBig(h: Heap, n: nat, cap: nat, base: nat)
    requires base <= cap
  {
    FIRST_LENGTH + PAGE_SIZE * (cap - base) < Need(h, n)
  }

  /** Serving `n` bytes takes growth, and the environment refuses it. */
  predicate Denied(h: Heap, n: nat, granted: bool)
  {
    !granted && h.length <= Need(h, n)
  }

  /**
   The bump path fails exactly when the cap is too low for the new position, whatever has grown before,
   or the environment refuses to grow memory.
   */
  lemma BumpOutcome(h: Heap, n: u32, cap: nat, granted: bool, base: nat)
    requires WellFormed(h) && Grown(h, base) && h.pages <= cap && 1 <= n
    requires forall i :: 0 <= i < |h.blocks| ==> !(h.blocks[i].status == Free && n <= h.blocks[i].size)
    ensures var (h', p) := Alloc(h, n, cap, granted);
            && (p == 0 <==> TooBig(h, n, cap, base) || Denied(h, n, granted))
            && (p != 0 ==> Grown(h', base) && h'.length == Max(h.length, Cover(Need(h, n)))
                           && h' == h.(blocks := h.blocks + [Block(Active, n, n)], pages := h'.pages, length := h'.length)
                           && Position(h'.blocks) + ROOT_SIZE == Need(h, n))
  {
    BumpPosition(h.blocks, Block(Active, n, n));
    FirstFitAt(h.blocks, n, |h.blocks|);
    BumpShape(h, n, cap, granted);
    if h.length <= Need(h, n) {
      PagesForNeed(h, n, cap, base);
    } else {
      NoPagesForNeed(h, n, cap, base);
    }
  }

  lemma NoPagesForNeed(h: Heap, n: u32, cap: nat, base: nat)
    requires Sane(h) && Grown(h, base) && h.pages <= cap && Need(h, n) < h.length
    ensures GrowthFor(h, n).None? && !TooBig(h, n, cap, base) && Cover(Need(h, n)) <= h.length
  {
  }

  lemma BumpShape(h: Heap, n: u32, cap: nat, granted: bool)
    requires Sane(h) && 1 <= n && FirstFit(h.blocks, n, 0) == |h.blocks|
    ensures var g := GrowthFor(h, n);
            var (h', p) := Alloc(h, n, cap, granted);
            var extra := if g.Some? then g.value else 0;
            && (p == 0 <==> Refused(h, g, cap, granted))
            && (p != 0 ==> h' == h.(blocks := h.blocks + [Block(Active, n, n)],
                                    pages := h.pages + extra, length := h.length + PAGE_SIZE * extra))
  {
  }

  /** What is asked for reaches the cover of the need, and exceeds the cap exactly when the need does. */
  lemma PagesForNeed(h: Heap, n: u32, cap: nat, base: nat)
    requires Sane(h) && Grown(h, base) && h.pages <= cap && h.length <= Need(h, n)
    ensures var g := GrowthFor(h, n);
            && g.Some?
            && (h.pages + g.value <= cap <==> !TooBig(h, n, cap, base))
            && h.length + PAGE_SIZE * g.value == Cover(Need(h, n)) >= h.length
  {
    GrowthSuffices(h, n);
    NumPagesIsCeiling(Need(h, n) - h.length);
    GrowthReachesCover(h, Need(h, n), base);
  }

  lemma GrowthReachesCover(h: Heap, need: nat, base: nat)
    requires Grown(h, base) && h.length <= need
    ensures h.length + PAGE_SIZE * NumPages(need - h.length) == Cover(need)
  {
  }

  lemma ReuseKeepsPosition(h: Heap, n: u64, cap: nat, granted: bool)
    requires WellFormed(h) && 1 <= n && FirstFit(h.blocks, n % U32_LIMIT, 0) < |h.blocks|
    ensures var (h', p) := Alloc(h, n, cap, granted);
            && p != 0 && Position(h'.blocks) == Position(h.blocks)
            && h' == h.(blocks := h'.blocks)
  {
    CarveReplaces(h.blocks, FirstFit(h.blocks, n % U32_LIMIT, 0), n % U32_LIMIT);
  }

  /** Exactly when `alloc` fails; a failure leaves every field, header and page as it was. */
  lemma AllocFailsExactly(h: Heap, n: u64, cap: nat, granted: bool, base: nat)
    requires WellFormed(h) && Grown(h, base) && h.pages <= cap && !Overruns(h, n, cap, granted)
    ensures var (h', p) := Alloc(h, n, cap, granted);
            var none := forall i :: 0 <= i < |h.blocks| ==>
                          !(h.blocks[i].status == Free && n % 0x1_0000_0000 <= h.blocks[i].size);
            && (p == 0 <==> n == 0 || (none && (0x1_0000_0000 <= n || TooBig(h, n, cap, base) || Denied(h, n, granted))))
            && (p == 0 ==> h' == h)
  {
    var i := FirstFit(h.blocks, n % U32_LIMIT, 0);
    assert i < |h.blocks| ==> GoodBlock(h.blocks[i]);
    if 1 <= n < U32_LIMIT && FirstFit(h.blocks, n, 0) == |h.blocks| {
      BumpOutcome(h, n, cap, granted, base);
    }
  }

  /** Up to the point where the page count no longer fits 32 bits, a request that is too big is refused. */
  lemma NoOverrun(h: Heap, n: u64, cap: nat, granted: bool)
    requires WellFormed(h) && h.pages <= cap <= MAX_PAGES && n <= 65536 * 0xFFFF_FFFF - 12
    ensures !Overruns(h, n, cap, granted)
  {
  }

  /** Beyond it the count may come out too small: 2^48 bytes ask a fresh kernel for no page at all. */
  lemma OverrunExists()
    ensures WellFormed(Init(1))
    ensures var n := 0x1_0000_0000_0000;
            GrowthFor(Init(1), n) == Some(0) && Overruns(Init(1), n, 1, true)
  {
  }

  /** Where the block taken out of block `i` lies. */
  lemma ReusedInside(bs: seq<Block>, i: nat, n: u32)
    requires i < |bs| && bs[i].status == Free && n <= bs[i].size
    ensures var (cs, k) := Carve(bs, i, n);
            k < |cs| && Handle(bs, i) <= Addr(cs, k) + HEADER && Addr(cs, k) + HEADER + n <= Addr(bs, i + 1)
  {
    CarveReplaces(bs, i, n);
    var (cs, k) := Carve(bs, i, n);
    if i < k {
      assert cs[i].size == bs[i].size - n - HEADER;
      assert Addr(cs, k) == Addr(cs, i) + HEADER + cs[i].size;
    }
  }

  /** Block `i` is the lowest that can serve `n` bytes, and the allocation at `p` lies inside it. */
  ghost predicate ServedBy(bs: seq<Block>, i: nat, n: nat, p: nat)
  {
    && i < |bs| && bs[i].status == Free && n <= bs[i].size
    && (forall j :: 0 <= j < i ==> !(bs[j].status == Free && n <= bs[j].size))
    && Handle(bs, i) <= p && p + n <= Addr(bs, i + 1)
  }

  /**
   First fit: a block is reused whenever one fits, it is the lowest that does, and the new block lies
   inside it. The position moves only when nothing fits. Sizes are those that reach the headers.
   */
  lemma AllocFirstFit(h: Heap, n: u64, cap: nat, granted: bool)
    requires WellFormed(h) && 1 <= n && Alloc(h, n, cap, granted).1 != 0
    ensures var (h', p) := Alloc(h, n, cap, granted);
            var m := n % U32_LIMIT;
            if exists i :: 0 <= i < |h.blocks| && h.blocks[i].status == Free && m <= h.blocks[i].size then
              Position(h'.blocks) == Position(h.blocks) && exists i: nat :: ServedBy(h.blocks, i, m, p)
            else n == m && p == End(h.blocks) + HEADER && Position(h'.blocks) == Position(h.blocks) + HEADER + n
  {
    var bs, m := h.blocks, n % U32_LIMIT;
    var i := FirstFit(bs, m, 0);
    if i < |bs| {
      ReuseKeepsPosition(h, n, cap, granted);
      assert GoodBlock(bs[i]);
      ReusedInside(bs, i, m);
      assert ServedBy(bs, i, m, Alloc(h, n, cap, granted).1);
    } else {
      BumpPosition(bs, Block(Active, m, m));
    }
  }

  // ----- Exact growth over a run -----

  /** The highest position the bump pointer has ever had. */
  function Peak(h: Heap, ops: seq<Op>, cap: nat): nat
    requires WellFormed(h) && h.pages <= cap <= MAX_PAGES
  {
    if ops == [] then Position(h.blocks) else
    Max(Peak(h, ops[..|ops| - 1], cap), Position(Run(h, ops, cap).blocks))
  }

  /** `length` is the least that covers `peak`, which the position has not passed. */
  ghost predicate Exact(h: Heap, base: nat, peak: nat)
  {
    Grown(h, base) && Position(h.blocks) <= peak && h.length == Cover(peak + ROOT_SIZE)
  }

  lemma AllocGrows(h: Heap, n: u64, cap: nat, granted: bool, base: nat, peak: nat)
    requires WellFormed(h) && h.pages <= cap && Exact(h, base, peak)
    ensures var h' := Alloc(h, n, cap, granted).0; Exact(h', base, Max(peak, Position(h'.blocks)))
  {
    if n != 0 {
      if FirstFit(h.blocks, n % U32_LIMIT, 0) < |h.blocks| {
        ReuseKeepsPosition(h, n, cap, granted);
      } else if n < U32_LIMIT {
        BumpOutcome(h, n, cap, granted, base);
        CoverOfMax(peak + ROOT_SIZE, Need(h, n));
      }
    }
  }

  lemma StepGrows(h: Heap, op: Op, cap: nat, base: nat, peak: nat)
    requires WellFormed(h) && h.pages <= cap <= MAX_PAGES && Exact(h, base, peak)
    ensures var h' := Step(h, op, cap); Exact(h', base, Max(peak, Position(h'.blocks)))
  {
    match op
    case Allocate(n, granted) => AllocGrows(h, n, cap, granted, base, peak);
    case Release(p) =>
      if p != 0 && FindBlock(h, p).At? {
        var i := FindBlock(h, p).index;
        AddrSameSizes(h.blocks, FreeAt(h, i, p).blocks, |h.blocks|);
      }
    case _ =>
  }

  lemma {:induction false} RunGrows(h: Heap, ops: seq<Op>, cap: nat, base: nat)
    requires WellFormed(h) && h.pages <= cap <= MAX_PAGES && Exact(h, base, Position(h.blocks))
    ensures Exact(Run(h, ops, cap), base, Peak(h, ops, cap))
    decreases |ops|
  {
    if ops != [] {
      var n := |ops| - 1;
      RunGrows(h, ops[..n], cap, base);
      StepGrows(Run(h, ops[..n], cap), ops[n], cap, base, Peak(h, ops[..n], cap));
    }
  }

  /** In every reachable state `length` is the least length that covers the highest position ever reached. */
  lemma GrowthIsExact(initialPages: nat, ops: seq<Op>, cap: nat)
    requires Init(initialPages).pages <= cap <= MAX_PAGES
    ensures WellFormed(Init(initialPages))
    ensures Exact(Run(Init(initialPages), ops, cap), Init(initialPages).pages, Peak(Init(initialPages), ops, cap))
  {
    InitWellFormed(initialPages);
    RunGrows(Init(initialPages), ops, cap, Init(initialPages).pages);
  }

  // ----- Reset -----

  /** Two heaps with the same blocks; memory has grown further for `r`. */
  ghost predicate Shadows(f: Heap, r: Heap, base: nat)
  {
    f.blocks == r.blocks && Grown(f, base) && Grown(r, base) && f.pages <= r.pages
  }

  /** The environment does not refuse growth that this call asks for. */
  predicate Unrefused(h: Heap, op: Op)
    requires Sane(h)
  {
    match op
    case Allocate(n, granted) =>
      || n == 0 || granted || Position(h.blocks) + 76 + n < h.length
      || (exists i :: 0 <= i < |h.blocks| && h.blocks[i].status == Free && n % 0x1_0000_0000 <= h.blocks[i].size)
    case _ => true
  }

  lemma BumpShadow(f: Heap, r: Heap, n: u32, granted: bool, cap: nat, base: nat)
    requires WellFormed(f) && WellFormed(r) && Shadows(f, r, base) && r.pages <= cap
    requires 1 <= n && FirstFit(f.blocks, n, 0) == |f.blocks| && !Denied(f, n, granted)
    ensures var ((f', p), (r', q)) := (Alloc(f, n, cap, granted), Alloc(r, n, cap, granted));
            p == q && Shadows(f', r', base)
  {
    BumpOutcome(f, n, cap, granted, base);
    BumpOutcome(r, n, cap, granted, base);
  }

  lemma ReuseShadow(f: Heap, r: Heap, n: u64, granted: bool, cap: nat, base: nat)
    requires WellFormed(f) && WellFormed(r) && Shadows(f, r, base)
    requires n != 0 && FirstFit(f.blocks, n % U32_LIMIT, 0) < |f.blocks|
    ensures var ((f', p), (r', q)) := (Alloc(f, n, cap, granted), Alloc(r, n, cap, granted));
            p == q && Shadows(f', r', base)
  {
  }

  lemma AllocShadow(f: Heap, r: Heap, n: u64, granted: bool, cap: nat, base: nat)
    requires WellFormed(f) && WellFormed(r) && Shadows(f, r, base)
    requires f.pages <= r.pages <= cap <= MAX_PAGES && Unrefused(f, Allocate(n, granted))
    ensures var ((f', p), (r', q)) := (Alloc(f, n, cap, granted), Alloc(r, n, cap, granted));
            p == q && Shadows(f', r', base)
  {
    if n != 0 && FirstFit(f.blocks, n % U32_LIMIT, 0) < |f.blocks| {
      ReuseShadow(f, r, n, granted, cap, base);
    } else if 1 <= n < U32_LIMIT {
      GrowthSuffices(f, n);
      BumpShadow(f, r, n, granted, cap, base);
    }
  }

  /** The same answer, or a trap in one of the two. */
  ghost predicate Agree(a: Outcome, b: Outcome)
  {
    a == b || a == Trap || b == Trap
  }

  lemma FreeShadow(f: Heap, r: Heap, p: u64, base: nat)
    requires WellFormed(f) && WellFormed(r) && Shadows(f, r, base) && Settled(f, p) && Settled(r, p)
    ensures Shadows(FreeHandle(f, p).0, FreeHandle(r, p).0, base)
    ensures Agree(FreeHandle(f, p).1, FreeHandle(r, p).1)
  {
    FindLive(f, p);
    FindLive(r, p);
  }

  /** An `Allocate` is answered alike; any other call too, unless one of the two traps. */
  ghost predicate SameAnswer(f: Heap, r: Heap, op: Op, cap: nat)
    requires Sane(f) && Sane(r)
  {
    var a, b := Answer(f, op, cap), Answer(r, op, cap);
    Agree(a, b) && (op.Allocate? ==> a == b)
  }

  lemma StepShadow(f: Heap, r: Heap, op: Op, cap: nat, base: nat)
    requires WellFormed(f) && WellFormed(r) && Shadows(f, r, base)
    requires f.pages <= r.pages <= cap <= MAX_PAGES && Unrefused(f, op)
    requires InContract(f, op, cap) && InContract(r, op, cap)
    ensures Shadows(Step(f, op, cap), Step(r, op, cap), base)
    ensures SameAnswer(f, r, op, cap)
  {
    match op
    case Allocate(n, granted) => AllocShadow(f, r, n, granted, cap, base);
    case Release(p) => FreeShadow(f, r, p, base);
    case Measure(p) =>
      LengthIsLookup(f, p);
      LengthIsLookup(r, p);
    case _ =>
  }

  ghost predicate CallUnrefused(h: Heap, ops: seq<Op>, cap: nat, k: nat)
    requires WellFormed(h) && h.pages <= cap <= MAX_PAGES
  {
    k < |ops| && Unrefused(Run(h, ops[..k], cap), ops[k])
  }

  /** No growth the run asks for is refused by the environment; the cap may refuse it. */
  ghost predicate RunUnrefused(h: Heap, ops: seq<Op>, cap: nat)
    requires WellFormed(h) && h.pages <= cap <= MAX_PAGES
  {
    forall k :: 0 <= k < |ops| ==> CallUnrefused(h, ops, cap, k)
  }

  lemma UnrefusedPrefix(h: Heap, ops: seq<Op>, cap: nat, n: nat)
    requires WellFormed(h) && h.pages <= cap <= MAX_PAGES && RunUnrefused(h, ops, cap) && n <= |ops|
    ensures RunUnrefused(h, ops[..n], cap)
  {
    forall k | 0 <= k < n ensures CallUnrefused(h, ops[..n], cap, k) {
      assert CallUnrefused(h, ops, cap, k);
      assert ops[..n][..k] == ops[..k];
    }
  }

  /** Every call of the run is answered alike by both heaps. */
  ghost predicate SameAnswers(f: Heap, r: Heap, ops: seq<Op>, cap: nat)
    requires WellFormed(f) && WellFormed(r) && f.pages <= cap <= MAX_PAGES && r.pages <= cap
  {
    ops == [] ||
    var n := |ops| - 1;
    SameAnswers(f, r, ops[..n], cap) && SameAnswer(Run(f, ops[..n], cap), Run(r, ops[..n], cap), ops[n], cap)
  }

  lemma {:induction false} ShadowRun(f: Heap, r: Heap, ops: seq<Op>, cap: nat, base: nat)
    requires WellFormed(f) && WellFormed(r) && Shadows(f, r, base)
    requires r.pages <= cap <= MAX_PAGES && RunUnrefused(f, ops, cap)
    requires RunInContract(f, ops, cap) && RunInContract(r, ops, cap)
    ensures Shadows(Run(f, ops, cap), Run(r, ops, cap), base)
    ensures SameAnswers(f, r, ops, cap)
    decreases |ops|
  {
    if ops != [] {
      var n := |ops| - 1;
      UnrefusedPrefix(f, ops, cap, n);
      ContractOfPrefix(f, ops, cap, n);
      ContractOfPrefix(r, ops, cap, n);
      assert CallUnrefused(f, ops, cap, n) && CallInContract(f, ops, cap, n) && CallInContract(r, ops, cap, n);
      ShadowRun(f, r, ops[..n], cap, base);
      StepShadow(Run(f, ops[..n], cap), Run(r, ops[..n], cap), ops[n], cap, base);
    }
  }

  /**
   A reset forgets the whole history: whatever ran before it, every later run gets the offsets, the
   failures and the lengths a fresh kernel would give, though the pages already grown are kept. A fresh
   kernel may have to grow where the used one does not, so its requests for pages must not be refused
   by the environment below the cap.
   */
  lemma ResetForgetsHistory(initialPages: nat, history: seq<Op>, ops: seq<Op>, cap: nat, used: Heap)
    requires Init(initialPages).pages <= cap <= MAX_PAGES && WellFormed(Init(initialPages))
    requires used == Reset(Run(Init(initialPages), history, cap))
    requires RunUnrefused(Init(initialPages), ops, cap)
    requires RunInContract(Init(initialPages), ops, cap)
    requires WellFormed(used) && used.pages <= cap && RunInContract(used, ops, cap)
    ensures var first := Init(initialPages);
            && SameAnswers(first, used, ops, cap)
            && Run(first, ops, cap).blocks == Run(used, ops, cap).blocks
  {
    GrowthIsExact(initialPages, history, cap);
    ShadowRun(Init(initialPages), used, ops, cap, Init(initialPages).pages);
  }
}
