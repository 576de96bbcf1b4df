/** What holds in every reachable heap: isolation, bounded waste, stable boundaries, a fresh input. */
module KernelSafety {
  import opened KernelHeap
  import opened Wrappers
  import opened LinearMemory
  import opened LittleEndian
  import opened HeapLayout
  import opened HeapInvariant
  import opened HeapBytes
  import opened HeapPayload
  import opened KernelRuns
  import opened KernelView

  // ----- Isolation -----

  /** Two live allocations never overlap; a whole header separates them. */
  lemma LiveRangesDisjoint(h: Heap, p: nat, q: nat)
    requires WellFormed(h) && p != q
    requires Lookup(h.blocks, p).Some? && Lookup(h.blocks, q).Some?
    ensures var u, w := Lookup(h.blocks, p).value, Lookup(h.blocks, q).value;
            p + u + HEADER <= q || q + w + HEADER <= p
  {
    var i, j := IndexOf(h.blocks, p, 0), IndexOf(h.blocks, q, 0);
    assert GoodBlock(h.blocks[i]) && GoodBlock(h.blocks[j]);
    if i < j {
      AddrIncreasing(h.blocks, i, j);
    } else {
      AddrIncreasing(h.blocks, j, i);
    }
  }

  /** Stores inside one live allocation leave the bytes of every other alone. */
  lemma StoreIsolated(m: seq<byte>, m': seq<byte>, h: Heap, p: nat, q: nat, lo: nat, hi: nat)
    requires Represents(m, h) && WellFormed(h) && p != q
    requires Lookup(h.blocks, p).Some? && Lookup(h.blocks, q).Some?
    requires p <= lo <= hi <= p + Lookup(h.blocks, p).value && SameOutside(m, m', lo, hi)
    ensures Represents(m', h)
    ensures var w := Lookup(h.blocks, q).value; q + w <= |m| && m'[q..q + w] == m[q..q + w]
  {
    LiveInData(h, p, lo, hi);
    DataWritten(m, m', h, lo, hi);
    LiveRangesDisjoint(h, p, q);
    LiveRange(h, q);
  }

  lemma LiveInData(h: Heap, p: nat, lo: nat, hi: nat)
    requires WellFormed(h) && Lookup(h.blocks, p).Some?
    requires p <= lo && hi <= p + Lookup(h.blocks, p).value
    ensures InData(h.blocks, lo, hi)
  {
    var i := IndexOf(h.blocks, p, 0);
    assert GoodBlock(h.blocks[i]);
    assert Within(h.blocks, i, lo, hi);
  }

  /** A stored word reads back as its little-endian bytes, and as itself. */
  lemma StoredWordBytes(m: seq<byte>, m': seq<byte>, r: Outcome, p: nat, x: u64, i: nat)
    requires ROOT_SIZE <= p && p + 8 <= |m| <= U32_LIMIT && i < 8 && PutU64(m, p, x) == (m', r)
    ensures r == Value(0) && SameOutside(m, m', p, p + 8)
    ensures ReadByte(m', p + i) == Value(x / Pow256(i) % 256) && ReadU64(m', p) == Value(x)
  {
    PutsWordInside(m, p, x);
    StoredByte(m, m', p, x, i);
    StoredWord(m, m', p, x);
    ReadsInside(m', p + i);
    ReadsWordInside(m', p);
  }

  lemma StoredWord(m: seq<byte>, m': seq<byte>, p: nat, x: u64)
    requires p + 8 <= |m| && m' == Store(m, p, 8, x)
    ensures |m'| == |m| && Load(m', p, 8) == x
  {
    WordSizes();
    LoadStored(m, p, 8, x);
  }

  lemma ReadsInside(m: seq<byte>, a: nat)
    requires ROOT_SIZE <= a < |m| <= U32_LIMIT
    ensures ReadByte(m, a) == Value(m[a])
  {
  }

  lemma ReadsWordInside(m: seq<byte>, a: nat)
    requires ROOT_SIZE <= a && a + 8 <= |m| <= U32_LIMIT
    ensures ReadU64(m, a) == Value(Load(m, a, 8))
  {
  }

  lemma StoredByte(m: seq<byte>, m': seq<byte>, p: nat, x: u64, i: nat)
    requires p + 8 <= |m| && i < 8 && m' == Store(m, p, 8, x)
    ensures |m'| == |m| && m'[p + i] == x / Pow256(i) % 256
  {
    EncodedByte(x, 8, i);
    assert Store(m, p, 8, x)[p + i] == Encode(x, 8)[i];
  }

  lemma PutsInside(m: seq<byte>, a: nat, x: byte)
    requires ROOT_SIZE <= a < |m| <= U32_LIMIT
    ensures PutByte(m, a, x) == (m[a := x], Value(0))
  {
  }

  lemma PutsWordInside(m: seq<byte>, a: nat, x: u64)
    requires ROOT_SIZE <= a && a + 8 <= |m| <= U32_LIMIT
    ensures PutU64(m, a, x) == (Store(m, a, 8, x), Value(0))
  {
  }

  /**
   The inclusive bound of the fast check lets exactly one byte address and one word address through to a
   trap, for stores as for loads. In a memory of 65536 pages the byte address wraps around to 0 instead.
   */
  lemma AccessTrapsExactly(m: seq<byte>, p: u64, x: byte, w: u64)
    requires ROOT_SIZE <= |m| <= U32_LIMIT
    ensures ReadByte(m, p) == Trap <==> p == |m| < U32_LIMIT
    ensures PutByte(m, p, x).1 == Trap <==> p == |m| < U32_LIMIT
    ensures ReadU64(m, p) == Trap <==> p + 7 == |m|
    ensures PutU64(m, p, w).1 == Trap <==> p + 7 == |m|
    ensures |m| == U32_LIMIT ==> ReadByte(m, |m|) == Value(m[0]) && PutByte(m, |m|, x) == (m[0 := x], Value(0))
  {
  }

  // ----- Misses -----

  /** A query with enough memory above it, 72 bytes or 77 at 65536 pages, never traps. */
  lemma LengthSafeBelow(h: Heap, p: nat)
    requires WellFormed(h) && p + (if h.pages == MAX_PAGES then 77 else 72) <= PAGE_SIZE * h.pages
    ensures Settled(h, p)
    ensures Length(h, p) == Value(if Lookup(h.blocks, p).Some? then Lookup(h.blocks, p).value else 0)
  {
  }

  /** Two live blocks, the last of one byte, that leave no slack between position and length. */
  const FULL_BLOCKS := [Block(Active, 65383, 65383), Block(Active, 1, 1)]
  const FULL := Heap(FULL_BLOCKS, 1, FIRST_LENGTH, 0, 0, 0, 0, 0)

  /** Two allocations in a fresh kernel of one page reach that heap. */
  lemma FullIsReachable()
    ensures WellFormed(Init(1)) && WellFormed(FULL)
    ensures Run(Init(1), [Allocate(65383, true), Allocate(1, true)], 1) == FULL
  {
    InitWellFormed(1);
    var h1 := Heap([FULL_BLOCKS[0]], 1, FIRST_LENGTH, 0, 0, 0, 0, 0);
    assert Alloc(Init(1), 65383, 1, true) == (h1, 77) by {
      assert [] + [FULL_BLOCKS[0]] == [FULL_BLOCKS[0]];
    }
    AllocWellFormed(Init(1), 65383, 1, true);
    SecondAlloc(h1);
    AllocWellFormed(h1, 1, 1, true);
    var ops := [Allocate(65383, true), Allocate(1, true)];
    assert ops[..1] == [Allocate(65383, true)] && ops[..1][..0] == [];
  }

  lemma SecondAlloc(h1: Heap)
    requires h1 == Heap([FULL_BLOCKS[0]], 1, FIRST_LENGTH, 0, 0, 0, 0, 0) && Sane(h1)
    ensures Alloc(h1, 1, 1, true) == (FULL, 65472)
  {
    assert Addr(h1.blocks, 1) == 65460;
    assert FirstFit(h1.blocks, 1, 0) == 1;
    assert GrowthFor(h1, 1) == Some(0);
    assert h1.blocks + [Block(Active, 1, 1)] == FULL_BLOCKS;
  }

  /** Freeing twice is not always a no-op: near the end of memory the second walk reads outside it. */
  lemma DoubleFreeCanTrap()
    ensures FreeHandle(FULL, 65472).1 == Value(0)
    ensures FreeHandle(FreeHandle(FULL, 65472).0, 65472).1 == Trap
  {
  }

  // ----- Headers walked as bytes -----

  /** Following the size fields from `a` reaches exactly `end`, through Active and Free headers only. */
  ghost predicate Tiles(m: seq<byte>, a: nat, end: nat)
    decreases end - a
  {
    if a == end then true else
    && a + HEADER <= end <= |m|
    && (m[a] == StatusByte(Active) || m[a] == StatusByte(Free))
    && Tiles(m, a + HEADER + Load(m, a + 4, 4), end)
  }

  lemma {:induction false} TilesFrom(m: seq<byte>, h: Heap, i: nat)
    requires Represents(m, h) && WellFormed(h) && i <= |h.blocks|
    ensures Tiles(m, Addr(h.blocks, i), End(h.blocks))
    decreases |h.blocks| - i
  {
    if i < |h.blocks| {
      assert BlockAt(m, h.blocks, i) && GoodBlock(h.blocks[i]);
      AddrIncreasing(h.blocks, i, |h.blocks|);
      TilesFrom(m, h, i + 1);
    }
  }

  /**
   Read off the bytes alone: the headers tile memory from the first block to the position in the root
   record, the Unused branch of the search never fires, and everything above is zero.
   */
  lemma HeadersTileMemory(m: seq<byte>, h: Heap)
    requires Represents(m, h) && WellFormed(h)
    ensures Tiles(m, BLOCKS, BLOCKS + Load(m, RootAddr(POSITION), 8))
    ensures ZeroFrom(m, BLOCKS + Load(m, RootAddr(POSITION), 8))
  {
    TilesFrom(m, h, 0);
    assert RootField(h, POSITION) == Position(h.blocks);
  }

  // ----- Wasted bytes -----

  function Wasted(bs: seq<Block>): int
  {
    if bs == [] then 0 else
    var b := bs[|bs| - 1];
    Wasted(bs[..|bs| - 1]) + if b.status == Active then b.size - b.used else 0
  }

  function LiveCount(bs: seq<Block>): nat
  {
    if bs == [] then 0 else
    LiveCount(bs[..|bs| - 1]) + if bs[|bs| - 1].status == Active then 1 else 0
  }

  /** Live blocks waste at most 127 bytes each. */
  lemma {:induction false} WasteBounded(bs: seq<Block>)
    requires forall i :: 0 <= i < |bs| ==> GoodBlock(bs[i])
    ensures 0 <= Wasted(bs) <= 127 * LiveCount(bs)
  {
    if bs != [] {
      WasteBounded(bs[..|bs| - 1]);
      assert GoodBlock(bs[|bs| - 1]);
    }
  }

  /** In every reachable heap. */
  lemma ReachableWaste(h: Heap, ops: seq<Op>, cap: nat)
    requires WellFormed(h) && h.pages <= cap <= MAX_PAGES
    ensures var bs := Run(h, ops, cap).blocks; 0 <= Wasted(bs) <= 127 * LiveCount(bs)
  {
    WasteBounded(Run(h, ops, cap).blocks);
  }

  // ----- Fragmentation -----

  ghost predicate SizesAtLeast(bs: seq<Block>, k: nat)
  {
    forall i :: 0 <= i < |bs| ==> k <= bs[i].size
  }

  predicate AsksAtLeast(op: Op, k: nat)
  {
    op.Allocate? ==> op.n == 0 || k <= op.n % U32_LIMIT
  }

  lemma StepKeepsSizes(h: Heap, op: Op, cap: nat, k: nat)
    requires WellFormed(h) && SizesAtLeast(h.blocks, k) && AsksAtLeast(op, k) && k <= SPLIT_EXCESS - HEADER
    ensures SizesAtLeast(Step(h, op, cap).blocks, k)
  {
  }

  lemma {:induction false} SizesFillPosition(bs: seq<Block>, i: nat, k: nat)
    requires i <= |bs| && SizesAtLeast(bs, k)
    ensures BLOCKS + (HEADER + k) * i <= Addr(bs, i)
  {
    if i > 0 {
      SizesFillPosition(bs, i - 1, k);
    }
  }

  /**
   Splitting leaves no fragments smaller than the requests: when none of a run asks for fewer than `k`
   bytes, up to 116, every block at its end has `k` bytes, and so headers are few.
   */
  lemma {:induction false} FragmentsBounded(initialPages: nat, ops: seq<Op>, cap: nat, k: nat)
    requires Init(initialPages).pages <= cap <= MAX_PAGES && WellFormed(Init(initialPages))
    requires k <= 116 && forall j :: 0 <= j < |ops| ==> AsksAtLeast(ops[j], k)
    ensures var bs := Run(Init(initialPages), ops, cap).blocks;
            SizesAtLeast(bs, k) && (k + 12) * |bs| <= Position(bs)
    decreases |ops|
  {
    if ops != [] {
      var n := |ops| - 1;
      FragmentsBounded(initialPages, ops[..n], cap, k);
      StepKeepsSizes(Run(Init(initialPages), ops[..n], cap), ops[n], cap, k);
    }
    var bs := Run(Init(initialPages), ops, cap).blocks;
    SizesFillPosition(bs, |bs|, k);
  }

  // ----- The fast length query -----

  /** The one-read length agrees with the walk wherever there is a header; a miss by the walk means 0. */
  lemma FastLengthAtBoundary(m: seq<byte>, h: Heap, p: nat)
    requires WellFormed(h) && Represents(m, h) && Boundary(h.blocks, p)
    ensures Length(h, p) == if Lookup(h.blocks, p).Some? then Value(HeaderLength(m, p)) else Missed(h, p)
    ensures HeaderLength(m, p) == if Lookup(h.blocks, p).Some? then Lookup(h.blocks, p).value else 0
  {
    var i: nat :| HandleAt(h.blocks, i, p);
    HeaderLengthAtBlock(m, h, i);
    LookupAtBoundary(h.blocks, i);
    LengthIsLookup(h, p);
  }

  /** In particular at every handle `alloc` has returned since the last reset, even a freed one. */
  lemma FastLengthRefinesSlow(m: seq<byte>, h: Heap, v: View, ops: seq<Op>, cap: nat, rs: seq<Outcome>, p: nat)
    requires WellFormed(h) && h.pages <= cap <= MAX_PAGES && Sees(h, v)
    requires RunInContract(h, ops, cap) && AnswersOf(h, ops, cap, rs)
    requires Represents(m, Run(h, ops, cap)) && p in Observed(v, ops, rs).issued
    ensures var h' := Run(h, ops, cap);
            var cells := Observed(v, ops, rs).cells;
            && Length(h', p) == (if p in cells then Value(HeaderLength(m, p)) else Missed(h', p))
            && HeaderLength(m, p) == if p in cells then cells[p].len else 0
  {
    RunRefinesHandleMap(h, v, ops, cap, rs);
    FastLengthAtBoundary(m, Run(h, ops, cap), p);
  }

  // ----- Input -----

  ghost predicate InputFresh(h: Heap)
  {
    0 < h.inputLength ==> Lookup(h.blocks, h.inputOffset) == Some(h.inputLength)
  }

  /**
   The documented use of `input_set`: a live handle with its own length. Calls that set nothing or an
   empty range do no harm.
   */
  predicate InputDocumented(h: Heap, op: Op)
  {
    op.SetInput? && RangeInBounds(h, op.h, op.len) && 0 < op.len ==> Lookup(h.blocks, op.h) == Some(op.len)
  }

  /** Exactly the documented calls keep the input fresh. */
  lemma StepKeepsInput(h: Heap, op: Op, cap: nat)
    requires WellFormed(h) && InputFresh(h)
    ensures InputFresh(Step(h, op, cap)) <==> InputDocumented(h, op)
  {
    match op
    case Allocate(n, granted) => AllocHandles(h, n, cap, granted, h.inputOffset);
    case Release(p) => FreeHandles(h, p, h.inputOffset);
    case _ =>
  }

  ghost predicate RunDocumented(h: Heap, ops: seq<Op>, cap: nat)
    requires WellFormed(h) && h.pages <= cap <= MAX_PAGES
  {
    ops == [] ||
    var n := |ops| - 1;
    RunDocumented(h, ops[..n], cap) && InputDocumented(Run(h, ops[..n], cap), ops[n])
  }

  /** A non-empty input always is a live allocation of that very length. */
  lemma {:induction false} InputNeverStale(h: Heap, ops: seq<Op>, cap: nat)
    requires WellFormed(h) && h.pages <= cap <= MAX_PAGES && InputFresh(h) && RunDocumented(h, ops, cap)
    ensures InputFresh(Run(h, ops, cap))
    decreases |ops|
  {
    if ops != [] {
      var n := |ops| - 1;
      InputNeverStale(h, ops[..n], cap);
      StepKeepsInput(Run(h, ops[..n], cap), ops[n], cap);
    }
  }

  lemma StepKeepsEmptyInput(h: Heap, op: Op, cap: nat)
    requires WellFormed(h) && h.inputLength == 0 && !op.SetInput?
    ensures Step(h, op, cap).inputLength == 0
  {
  }

  ghost predicate NoInputSet(ops: seq<Op>)
  {
    ops == [] || (NoInputSet(ops[..|ops| - 1]) && !ops[|ops| - 1].SetInput?)
  }

  /** Once the input block is freed the input stays empty, whoever gets the block next, until it is set again. */
  lemma {:induction false} FreedInputStaysEmpty(h: Heap, p: u64, ops: seq<Op>, cap: nat)
    requires WellFormed(h) && h.pages <= cap <= MAX_PAGES && NoInputSet(ops)
    requires p == h.inputOffset && Lookup(h.blocks, p).Some?
    ensures WellFormed(FreeHandle(h, p).0)
    ensures Run(FreeHandle(h, p).0, ops, cap).inputLength == 0
    decreases |ops|
  {
    FreeWellFormed(h, p);
    if ops == [] {
      FindLive(h, p);
      NoNullHandle(h.blocks);
    } else {
      var n := |ops| - 1;
      FreedInputStaysEmpty(h, p, ops[..n], cap);
      StepKeepsEmptyInput(Run(FreeHandle(h, p).0, ops[..n], cap), ops[n], cap);
    }
  }

  /**
   With an empty input every byte load gives 0, and every word load whose end does not wrap to 0 does;
   the one that does wrap reads in front of the handle set last, or traps when none was.
   */
  lemma EmptyInputLoads(m: seq<byte>, h: Heap, offset: u64)
    requires h.inputLength == 0
    ensures ReadInputByte(m, h, offset) == Value(0)
    ensures offset + 8 != U64_LIMIT ==> ReadInputU64(m, h, offset) == Value(0)
    ensures offset + 8 == U64_LIMIT && h.inputOffset == 0 && |m| < U32_LIMIT ==> ReadInputU64(m, h, offset) == Trap
  {
  }

  /** Loads inside a fresh input give the bytes and the little-endian words of the input block. */
  lemma InputLoads(m: seq<byte>, h: Heap, offset: u64)
    requires Represents(m, h) && WellFormed(h) && InputFresh(h) && offset < h.inputLength
    ensures h.inputOffset + h.inputLength <= |m|
    ensures ReadInputByte(m, h, offset) == Value(m[h.inputOffset + offset])
    ensures offset + 8 <= h.inputLength ==> ReadInputU64(m, h, offset) == Value(Load(m, h.inputOffset + offset, 8))
    ensures offset + 8 > h.inputLength ==> ReadInputU64(m, h, offset) == Value(0)
  {
    LiveRange(h, h.inputOffset);
  }

  /**
   Past the end of a fresh input: the word check computes its end in wrapping arithmetic, so the eight
   topmost offsets, as far as the input is long enough, read the header in front of the input instead
   of giving 0.
   */
  lemma InputWordPastEnd(m: seq<byte>, h: Heap, offset: u64)
    requires Represents(m, h) && WellFormed(h) && InputFresh(h) && 0 < h.inputLength < offset + 8
    ensures 8 <= h.inputOffset && h.inputOffset + 8 <= |m|
    ensures ReadInputU64(m, h, offset) ==
            if U64_LIMIT <= offset + 8 <= U64_LIMIT + h.inputLength
            then Value(Load(m, h.inputOffset + offset - U64_LIMIT, 8)) else Value(0)
  {
    LiveRange(h, h.inputOffset);
    if U64_LIMIT <= offset + 8 {
      WrapsOnce(h.inputOffset, offset);
    }
  }

  lemma WrapsOnce(p: nat, offset: u64)
    requires 8 <= p < U32_LIMIT && U64_LIMIT <= offset + 8
    ensures (p + offset) % U32_LIMIT == p + offset - U64_LIMIT
  {
  }

  /** One such word, for every fresh non-empty input, is its block's size and used fields: never 0. */
  lemma InputWordReadsHeader(m: seq<byte>, h: Heap)
    requires Represents(m, h) && WellFormed(h) && InputFresh(h) && 0 < h.inputLength
    ensures var b := h.blocks[IndexOf(h.blocks, h.inputOffset, 0)];
            ReadInputU64(m, h, U64_LIMIT - 8) == Value(b.size + U32_LIMIT * h.inputLength)
  {
    var i := IndexOf(h.blocks, h.inputOffset, 0);
    InputWordPastEnd(m, h, U64_LIMIT - 8);
    assert BlockAt(m, h.blocks, i);
    LoadHalves(m, h.inputOffset - 8);
  }

  /** A live handle with its length is accepted by every setter. */
  lemma LiveHandleAccepted(h: Heap, p: u64)
    requires WellFormed(h) && Lookup(h.blocks, p).Some?
    ensures var u := Lookup(h.blocks, p).value;
            && InputSet(h, p, u) == h.(inputOffset := p, inputLength := u)
            && OutputSet(h, p, u) == h.(outputOffset := p, outputLength := u)
            && ErrorSet(h, p) == h.(error := p)
  {
    LiveRange(h, p);
  }
}
