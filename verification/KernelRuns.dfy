/** Runs of kernel calls on the abstract heap, and what one call does to handles and boundaries. */
module KernelRuns {
  import opened KernelHeap
  import opened Wrappers
  import opened LinearMemory
  import opened LittleEndian
  import opened HeapLayout
  import opened HeapInvariant

  datatype Op =
    | Allocate(n: u64, granted: bool)
    | Release(p: u64)
    | Measure(p: u64)
    | MeasureFast(p: u64)
    | Clear
    | SetInput(h: u64, len: u64)
    | SetOutput(h: u64, len: u64)
    | SetError(h: u64)
    | Write(h: u64, i: nat, x: byte)
    | WriteWord(h: u64, i: nat, word: u64)
    | Read(h: u64, i: nat)
    | ReadWord(h: u64, i: nat)
    | InputByte(offset: u64)
    | InputWord(offset: u64)

  /** The heap after one call; stores touch only data bytes, loads and queries nothing. */
  function Step(h: Heap, op: Op, cap: nat): Heap
    requires Sane(h)
  {
    match op
    case Allocate(n, granted) => Alloc(h, n, cap, granted).0
    case Release(p) => FreeHandle(h, p).0
    case Clear => Reset(h)
    case SetInput(p, len) => InputSet(h, p, len)
    case SetOutput(p, len) => OutputSet(h, p, len)
    case SetError(p) => ErrorSet(h, p)
    case _ => h
  }

  /** The answer is in the bytes, not in the abstract heap. */
  predicate FromBytes(op: Op)
  {
    op.MeasureFast? || op.Read? || op.ReadWord? || op.InputByte? || op.InputWord?
  }

  /** What a call returns, unless the answer is in the bytes. */
  function Answer(h: Heap, op: Op, cap: nat): Outcome
    requires Sane(h)
  {
    match op
    case Allocate(n, granted) => if Overruns(h, n, cap, granted) then Astray else Value(Alloc(h, n, cap, granted).1)
    case Release(p) => FreeHandle(h, p).1
    case Measure(p) => Length(h, p)
    case _ => Value(0)
  }

  /** The heap after a run, last call last. */
  function Run(h: Heap, ops: seq<Op>, cap: nat): (r: Heap)
    requires WellFormed(h) && h.pages <= cap <= MAX_PAGES
    ensures WellFormed(r) && r.pages <= cap
  {
    if ops == [] then h else
    var before := Run(h, ops[..|ops| - 1], cap);
    StepWellFormed(before, ops[|ops| - 1], cap);
    Step(before, ops[|ops| - 1], cap)
  }

  lemma StepWellFormed(h: Heap, op: Op, cap: nat)
    requires WellFormed(h) && h.pages <= cap <= MAX_PAGES
    ensures WellFormed(Step(h, op, cap)) && Step(h, op, cap).pages <= cap
  {
    match op
    case Allocate(n, granted) => AllocWellFormed(h, n, cap, granted);
    case Release(p) => FreeWellFormed(h, p);
    case _ =>
  }

  // ----- Contract -----

  /**
   What the model needs to be able to follow a call: no overrun, no search that wraps around, and loads
   and stores that name an allocation stay inside it.
   */
  predicate InContract(h: Heap, op: Op, cap: nat)
    requires Sane(h)
  {
    match op
    case Allocate(n, granted) => !Overruns(h, n, cap, granted)
    case Release(p) => Settled(h, p)
    case Measure(p) => Settled(h, p)
    case Write(q, i, _) => InsideLive(h.blocks, q, i, 1)
    case WriteWord(q, i, _) => InsideLive(h.blocks, q, i, 8)
    case Read(q, i) => InsideLive(h.blocks, q, i, 1)
    case ReadWord(q, i) => InsideLive(h.blocks, q, i, 8)
    case _ => true
  }

  predicate InsideLive(bs: seq<Block>, q: nat, i: nat, n: nat)
  {
    Lookup(bs, q).Some? && i + n <= Lookup(bs, q).value
  }

  ghost predicate CallInContract(h: Heap, ops: seq<Op>, cap: nat, k: nat)
    requires WellFormed(h) && h.pages <= cap <= MAX_PAGES
  {
    k < |ops| && InContract(Run(h, ops[..k], cap), ops[k], cap)
  }

  ghost predicate RunInContract(h: Heap, ops: seq<Op>, cap: nat)
    requires WellFormed(h) && h.pages <= cap <= MAX_PAGES
  {
    forall k :: 0 <= k < |ops| ==> CallInContract(h, ops, cap, k)
  }

  lemma ContractOfPrefix(h: Heap, ops: seq<Op>, cap: nat, n: nat)
    requires WellFormed(h) && h.pages <= cap <= MAX_PAGES && RunInContract(h, ops, cap) && n <= |ops|
    ensures RunInContract(h, ops[..n], cap)
  {
    forall k | 0 <= k < n ensures CallInContract(h, ops[..n], cap, k) {
      assert CallInContract(h, ops, cap, k);
      assert ops[..n][..k] == ops[..k];
    }
  }

  /** A search wraps around in no memory of fewer than 65536 pages, and none for a live handle. */
  lemma SettledBelowTop(h: Heap, p: nat)
    requires h.pages < MAX_PAGES || Lookup(h.blocks, p).Some?
    ensures Settled(h, p)
  {
  }

  // ----- One call -----

  /**
   A successful `alloc` adds one handle that was not live, with the size asked for truncated to 32
   bits; a failed one changes nothing at all.
   */
  lemma AllocHandles(h: Heap, n: u64, cap: nat, granted: bool, p: nat)
    requires WellFormed(h)
    ensures var (h', q) := Alloc(h, n, cap, granted);
            if q == 0 then h' == h
            else Lookup(h.blocks, q) == None &&
                 Lookup(h'.blocks, p) == (if p == q then Some(n % U32_LIMIT) else Lookup(h.blocks, p))
  {
    if n != 0 {
      var m := n % U32_LIMIT;
      var i := FirstFit(h.blocks, m, 0);
      var q := Alloc(h, n, cap, granted).1;
      if i < |h.blocks| {
        LookupReuse(h.blocks, i, m, p);
        LookupReuse(h.blocks, i, m, q);
      } else if n < U32_LIMIT {
        LookupBump(h.blocks, n, p);
        LookupBump(h.blocks, n, End(h.blocks) + HEADER);
      }
    }
  }

  /** The handle of a successful `alloc(n)` has length n exactly when n is below 2^32. */
  lemma AllocLengthExact(h: Heap, n: u64, cap: nat, granted: bool)
    requires WellFormed(h) && h.pages <= cap <= MAX_PAGES && Alloc(h, n, cap, granted).1 != 0
    ensures var (h', q) := Alloc(h, n, cap, granted);
            Length(h', q) == Value(n) <==> n < U32_LIMIT
  {
    var (h', q) := Alloc(h, n, cap, granted);
    AllocHandles(h, n, cap, granted, q);
    AllocWellFormed(h, n, cap, granted);
    LengthIsLookup(h', q);
  }

  /**
   `free` removes exactly the handle it is given and does nothing otherwise; freeing what is not live
   returns normally except when the search walks out of memory, or around it.
   */
  lemma FreeHandles(h: Heap, q: u64, p: nat)
    requires WellFormed(h)
    ensures Lookup(FreeHandle(h, q).0.blocks, p) == (if p == q then None else Lookup(h.blocks, p))
    ensures Lookup(h.blocks, q) == None ==> FreeHandle(h, q).0 == h
    ensures FreeHandle(h, q).1 == if Lookup(h.blocks, q) == None then Missed(h, q) else Value(0)
  {
    FindLive(h, q);
    if q != 0 && FindBlock(h, q).At? {
      LookupFreed(h.blocks, FindBlock(h, q).index, q, p);
    } else if q == 0 {
      NoNullHandle(h.blocks);
    }
  }

  /** How a search for a handle that is not live ends. */
  function Missed(h: Heap, p: nat): Outcome
  {
    if p == 0 || !InBoundsFast(h, p) then Value(0)
    else if WalkWraps(h, p) then Astray
    else if WalkTraps(h, p) then Trap
    else Value(0)
  }

  lemma NoNullHandle(bs: seq<Block>)
    ensures Lookup(bs, 0) == None
  {
  }

  /** The walk finds exactly the live handles: the fast bounds check never hides one. */
  lemma FindLive(h: Heap, p: nat)
    requires Sane(h)
    ensures FindBlock(h, p).At? <==> Lookup(h.blocks, p).Some?
    ensures FindBlock(h, p).At? ==>
              var i := FindBlock(h, p).index;
              LiveAt(h.blocks, i, p) && Lookup(h.blocks, p) == Some(h.blocks[i].used)
  {
    var i := IndexOf(h.blocks, p, 0);
    if i < |h.blocks| && i + 1 < |h.blocks| {
      AddrIncreasing(h.blocks, i + 1, |h.blocks|);
    }
  }

  /** `length` is the handle map; off the map it is 0, unless the search leaves memory. */
  lemma LengthIsLookup(h: Heap, p: nat)
    requires WellFormed(h)
    ensures Length(h, p) == if Lookup(h.blocks, p) == None then Missed(h, p) else Value(Lookup(h.blocks, p).value)
  {
    FindLive(h, p);
    NoNullHandle(h.blocks);
  }

  // ----- Boundaries -----

  ghost predicate HandleAt(bs: seq<Block>, i: nat, p: nat)
  {
    i < |bs| && Handle(bs, i) == p
  }

  /** Some block, live or not, has its data at `p`. */
  ghost predicate Boundary(bs: seq<Block>, p: nat)
  {
    exists i: nat :: HandleAt(bs, i, p)
  }

  lemma ReplacesKeepsBoundary(bs: seq<Block>, ds: seq<Block>, i: nat, k: nat, p: nat)
    requires Replaces(bs, ds, i, k) && Boundary(bs, p)
    ensures Boundary(ds, p)
  {
    var t: nat :| HandleAt(bs, t, p);
    if t == i {
      assert HandleAt(ds, i, p);
    } else {
      assert Kept(bs, ds, i, k, t);
      assert HandleAt(ds, if t < i then t else t + (k - i), p);
    }
  }

  lemma AppendKeepsBoundary(bs: seq<Block>, b: Block, p: nat)
    requires Boundary(bs, p)
    ensures Boundary(bs + [b], p)
  {
    var t: nat :| HandleAt(bs, t, p);
    AddrSameSizes(bs, bs + [b], t);
    assert HandleAt(bs + [b], t, p);
  }

  lemma AllocKeepsBoundary(h: Heap, n: u64, cap: nat, granted: bool, p: nat)
    requires WellFormed(h) && Boundary(h.blocks, p)
    ensures Boundary(Alloc(h, n, cap, granted).0.blocks, p)
  {
    if n != 0 {
      var m := n % U32_LIMIT;
      var i := FirstFit(h.blocks, m, 0);
      if i < |h.blocks| {
        CarveReplaces(h.blocks, i, m);
        ReplacesKeepsBoundary(h.blocks, Alloc(h, n, cap, granted).0.blocks, i, Carve(h.blocks, i, m).1, p);
      } else if n < U32_LIMIT {
        AppendKeepsBoundary(h.blocks, Block(Active, n, n), p);
      }
    }
  }

  /** No call but `reset` removes a block boundary. */
  lemma StepKeepsBoundary(h: Heap, op: Op, cap: nat, p: nat)
    requires WellFormed(h) && Boundary(h.blocks, p) && !op.Clear?
    ensures Boundary(Step(h, op, cap).blocks, p)
  {
    match op
    case Allocate(n, granted) => AllocKeepsBoundary(h, n, cap, granted, p);
    case Release(q) =>
      if q != 0 && FindBlock(h, q).At? {
        var i := FindBlock(h, q).index;
        ResizeNothing(h.blocks, i, h.blocks[i].(status := Free));
        ReplacesKeepsBoundary(h.blocks, FreeAt(h, i, q).blocks, i, i, p);
      }
    case _ =>
  }

  lemma LookupAtBoundary(bs: seq<Block>, i: nat)
    requires i < |bs|
    ensures Lookup(bs, Handle(bs, i)) == if bs[i].status == Active then Some(bs[i].used) else None
  {
    var p := Handle(bs, i);
    if bs[i].status == Active {
      LookupLive(bs, i, p);
    } else {
      forall j | 0 <= j < |bs| ensures !LiveAt(bs, j, p) {
        if j < i {
          AddrIncreasing(bs, j, i);
        } else if i < j {
          AddrIncreasing(bs, i, j);
        }
      }
      LookupDead(bs, p);
    }
  }

  lemma LiveIsBoundary(bs: seq<Block>, p: nat)
    requires Lookup(bs, p).Some?
    ensures Boundary(bs, p)
  {
    assert HandleAt(bs, IndexOf(bs, p, 0), p);
  }
}
