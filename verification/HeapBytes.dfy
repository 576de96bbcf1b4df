/**
 How linear memory represents the heap: the root record at address 1, then a header in front of
 every block, then zero bytes. Each lemma carries the representation across one kind of write.
 */
module HeapBytes {
  import opened KernelHeap
  import opened LinearMemory
  import opened LittleEndian
  import opened HeapLayout

  const INITIALIZED := 1
  const POSITION := 0
  const LENGTH := 1
  const ERROR := 2
  const INPUT_OFFSET := 3
  const INPUT_LENGTH := 4
  const OUTPUT_OFFSET := 5
  const OUTPUT_LENGTH := 6
  const ROOT_FIELDS := 7

  /** Address of a u64 field of the root record. */
  function RootAddr(f: nat): nat
  {
    9 + 8 * f
  }

  function RootField(h: Heap, f: nat): nat
    requires f < ROOT_FIELDS
  {
    match f
    case 0 => Position(h.blocks)
    case 1 => h.length
    case 2 => h.error
    case 3 => h.inputOffset
    case 4 => h.inputLength
    case 5 => h.outputOffset
    case _ => h.outputLength
  }

  /** The heap after root field `f` other than the position is set to `v`. */
  function SetRoot(h: Heap, f: nat, v: u64): Heap
  {
    match f
    case 1 => h.(length := v)
    case 2 => h.(error := v)
    case 3 => h.(inputOffset := v)
    case 4 => h.(inputLength := v)
    case 5 => h.(outputOffset := v)
    case _ => h.(outputLength := v)
  }

  function StatusByte(s: Status): byte
  {
    match s
    case Unused => 0
    case Active => 1
    case Free => 2
  }

  ghost predicate HeaderAt(m: seq<byte>, a: nat, b: Block)
  {
    && a + HEADER <= |m|
    && m[a] == StatusByte(b.status)
    && Load(m, a + 4, 4) == b.size
    && Load(m, a + 8, 4) == b.used
  }

  ghost predicate BlockAt(m: seq<byte>, bs: seq<Block>, i: nat)
  {
    i < |bs| && HeaderAt(m, Addr(bs, i), bs[i])
  }

  ghost predicate RootAt(m: seq<byte>, h: Heap)
  {
    && BLOCKS <= |m|
    && m[INITIALIZED] == 1
    && forall f: nat :: f < ROOT_FIELDS ==> Load(m, RootAddr(f), 8) == RootField(h, f)
  }

  ghost predicate HeadersAt(m: seq<byte>, bs: seq<Block>)
  {
    forall i :: 0 <= i < |bs| ==> BlockAt(m, bs, i)
  }

  ghost predicate ZeroFrom(m: seq<byte>, a: nat)
  {
    forall i :: a <= i < |m| ==> m[i] == 0
  }

  ghost predicate Represents(m: seq<byte>, h: Heap)
  {
    && |m| == PAGE_SIZE * h.pages
    && Sane(h)
    && RootAt(m, h)
    && HeadersAt(m, h.blocks)
    && ZeroFrom(m, End(h.blocks))
  }

  /** Where everything is: the fields of the root record at address 1, and the three fields of each header. */
  lemma LayoutExactly(m: seq<byte>, h: Heap, i: nat)
    requires Represents(m, h)
    ensures |m| == 65536 * h.pages && m[1] == 1 && Addr(h.blocks, 0) == 65
    ensures Load(m, 9, 8) == Position(h.blocks) && Load(m, 17, 8) == h.length && Load(m, 25, 8) == h.error
    ensures Load(m, 33, 8) == h.inputOffset && Load(m, 41, 8) == h.inputLength
    ensures Load(m, 49, 8) == h.outputOffset && Load(m, 57, 8) == h.outputLength
    ensures i < |h.blocks| ==>
              var a, b := Addr(h.blocks, i), h.blocks[i];
              && a + 12 <= |m| && Addr(h.blocks, i + 1) == a + 12 + b.size
              && m[a] == (match b.status case Unused => 0 case Active => 1 case Free => 2)
              && Load(m, a + 4, 4) == b.size && Load(m, a + 8, 4) == b.used
  {
    assert forall f: nat :: f < ROOT_FIELDS ==> Load(m, RootAddr(f), 8) == RootField(h, f);
    assert RootAddr(0) == 9 && RootAddr(1) == 17 && RootAddr(2) == 25 && RootAddr(3) == 33;
    assert RootAddr(4) == 41 && RootAddr(5) == 49 && RootAddr(6) == 57;
    if i < |h.blocks| {
      assert BlockAt(m, h.blocks, i);
    }
  }

  // ----- Headers -----

  lemma HeaderFrame(m: seq<byte>, m': seq<byte>, lo: nat, hi: nat, a: nat, b: Block)
    requires SameOutside(m, m', lo, hi) && HeaderAt(m, a, b)
    requires a + HEADER <= lo || hi <= a
    ensures HeaderAt(m', a, b)
  {
    LoadFrame(m, m', lo, hi, a + 4, 4);
    LoadFrame(m, m', lo, hi, a + 8, 4);
  }

  lemma StatusWritten(m: seq<byte>, m': seq<byte>, a: nat, b: Block, s: Status)
    requires HeaderAt(m, a, b) && WroteByte(m, m', a, StatusByte(s))
    ensures HeaderAt(m', a, b.(status := s))
  {
    LoadFrame(m, m', a, a + 1, a + 4, 4);
    LoadFrame(m, m', a, a + 1, a + 8, 4);
  }

  lemma UsedWritten(m: seq<byte>, m': seq<byte>, a: nat, b: Block, n: u32)
    requires HeaderAt(m, a, b) && Wrote(m, m', a + 8, 4, n)
    ensures HeaderAt(m', a, b.(used := n))
  {
    LoadFrame(m, m', a + 8, a + 12, a + 4, 4);
  }

  lemma SizeWritten(m: seq<byte>, m': seq<byte>, a: nat, b: Block, n: u32)
    requires HeaderAt(m, a, b) && Wrote(m, m', a + 4, 4, n)
    ensures HeaderAt(m', a, b.(size := n))
  {
    LoadFrame(m, m', a + 4, a + 8, a + 8, 4);
  }

  /** Writing size, used and status makes a header out of any bytes. */
  lemma HeaderWritten(m: seq<byte>, m1: seq<byte>, m2: seq<byte>, m3: seq<byte>, a: nat, b: Block)
    requires a + HEADER <= |m|
    requires Wrote(m, m1, a + 4, 4, b.size) && Wrote(m1, m2, a + 8, 4, b.used)
    requires WroteByte(m2, m3, a, StatusByte(b.status))
    ensures HeaderAt(m3, a, b) && SameOutside(m, m3, a, a + HEADER)
  {
    LoadFrame(m1, m2, a + 8, a + 12, a + 4, 4);
    LoadFrame(m2, m3, a, a + 1, a + 4, 4);
    LoadFrame(m2, m3, a, a + 1, a + 8, 4);
  }

  /** The same with the status first, the order of the bump path. */
  lemma HeaderWrittenStatusFirst(m: seq<byte>, m1: seq<byte>, m2: seq<byte>, m3: seq<byte>, a: nat, b: Block)
    requires a + HEADER <= |m|
    requires WroteByte(m, m1, a, StatusByte(b.status))
    requires Wrote(m1, m2, a + 4, 4, b.size) && Wrote(m2, m3, a + 8, 4, b.used)
    ensures HeaderAt(m3, a, b) && SameOutside(m, m3, a, a + HEADER)
  {
    LoadFrame(m2, m3, a + 8, a + 12, a + 4, 4);
  }

  // ----- Root record -----

  /** A write to one field of the root record leaves the six others alone. */
  lemma RootWord(m: seq<byte>, m': seq<byte>, f: nat, v: u64, g: nat)
    requires BLOCKS <= |m| && f < ROOT_FIELDS && g < ROOT_FIELDS && Wrote(m, m', RootAddr(f), 8, v)
    ensures Load(m', RootAddr(g), 8) == (if g == f then v else Load(m, RootAddr(g), 8))
  {
    if g != f {
      LoadFrame(m, m', RootAddr(f), RootAddr(f) + 8, RootAddr(g), 8);
    }
  }

  lemma RootFrame(m: seq<byte>, m': seq<byte>, h: Heap, lo: nat, hi: nat)
    requires RootAt(m, h) && SameOutside(m, m', lo, hi) && BLOCKS <= lo
    ensures RootAt(m', h)
  {
    forall f: nat | f < ROOT_FIELDS ensures Load(m', RootAddr(f), 8) == RootField(h, f) {
      LoadFrame(m, m', lo, hi, RootAddr(f), 8);
    }
  }

  lemma HeadersFrame(m: seq<byte>, m': seq<byte>, bs: seq<Block>, lo: nat, hi: nat)
    requires HeadersAt(m, bs) && SameOutside(m, m', lo, hi)
    requires hi <= BLOCKS || End(bs) <= lo
    ensures HeadersAt(m', bs)
  {
    forall i | 0 <= i < |bs| ensures BlockAt(m', bs, i) {
      assert BlockAt(m, bs, i);
      AddrIncreasing(bs, i, |bs|);
      HeaderFrame(m, m', lo, hi, Addr(bs, i), bs[i]);
    }
  }

  lemma RootWritten(m: seq<byte>, m': seq<byte>, h: Heap, f: nat, v: u64)
    requires Represents(m, h) && POSITION < f < ROOT_FIELDS && Sane(SetRoot(h, f, v))
    requires Wrote(m, m', RootAddr(f), 8, v)
    ensures Represents(m', SetRoot(h, f, v))
  {
    var h' := SetRoot(h, f, v);
    forall g: nat | g < ROOT_FIELDS ensures Load(m', RootAddr(g), 8) == RootField(h', g) {
      RootWord(m, m', f, v, g);
    }
    HeadersFrame(m, m', h.blocks, RootAddr(f), RootAddr(f) + 8);
  }

  // ----- Blocks -----

  /** The header of a block other than `i` survives writes inside the extent of block `i`. */
  lemma NeighbourFrame(m: seq<byte>, m': seq<byte>, bs: seq<Block>, i: nat, t: nat)
    requires HeadersAt(m, bs) && i < |bs| && t < |bs| && t != i
    requires SameOutside(m, m', Addr(bs, i), Addr(bs, i + 1))
    ensures BlockAt(m', bs, t)
  {
    assert BlockAt(m, bs, t);
    if t < i {
      AddrIncreasing(bs, t, i);
    } else if i + 1 < t {
      AddrIncreasing(bs, i + 1, t);
    }
    HeaderFrame(m, m', Addr(bs, i), Addr(bs, i + 1), Addr(bs, t), bs[t]);
  }

  lemma HeaderMoved(m: seq<byte>, m': seq<byte>, bs: seq<Block>, ds: seq<Block>, i: nat, k: nat, t: nat)
    requires HeadersAt(m, bs) && Replaces(bs, ds, i, k) && t < |bs| && t != i
    requires SameOutside(m, m', Addr(bs, i), Addr(bs, i + 1))
    ensures var j := if t < i then t else t + (k - i);
            BlockAt(m', ds, j)
  {
    NeighbourFrame(m, m', bs, i, t);
    assert Kept(bs, ds, i, k, t);
  }

  lemma HeadersRewritten(m: seq<byte>, m': seq<byte>, bs: seq<Block>, ds: seq<Block>, i: nat, k: nat)
    requires HeadersAt(m, bs) && Replaces(bs, ds, i, k)
    requires SameOutside(m, m', Addr(bs, i), Addr(bs, i + 1))
    requires forall j :: i <= j <= k ==> BlockAt(m', ds, j)
    ensures HeadersAt(m', ds)
  {
    forall j | 0 <= j < |ds| && !(i <= j <= k) ensures BlockAt(m', ds, j) {
      HeaderMoved(m, m', bs, ds, i, k, if j < i then j else j - (k - i));
    }
  }

  lemma SaneReplaced(h: Heap, ds: seq<Block>, i: nat, k: nat)
    requires Sane(h) && Replaces(h.blocks, ds, i, k)
    ensures Sane(h.(blocks := ds)) && End(ds) == End(h.blocks)
  {
  }

  /** The record of a heap that differs only in blocks with the same end. */
  lemma RootSameEnd(m: seq<byte>, h: Heap, ds: seq<Block>)
    requires RootAt(m, h) && End(ds) == End(h.blocks)
    ensures RootAt(m, h.(blocks := ds))
  {
  }

  /** Writes inside the extent of block `i` that leave headers for the blocks now standing there. */
  lemma BlockRewritten(m: seq<byte>, m': seq<byte>, h: Heap, ds: seq<Block>, i: nat, k: nat)
    requires Represents(m, h) && Replaces(h.blocks, ds, i, k)
    requires SameOutside(m, m', Addr(h.blocks, i), Addr(h.blocks, i + 1))
    requires forall j :: i <= j <= k ==> BlockAt(m', ds, j)
    ensures Represents(m', h.(blocks := ds))
  {
    var bs := h.blocks;
    assert HeadersAt(m', ds) by {
      HeadersRewritten(m, m', bs, ds, i, k);
    }
    SaneReplaced(h, ds, i, k);
    assert RootAt(m', h.(blocks := ds)) by {
      RootFrame(m, m', h, Addr(bs, i), Addr(bs, i + 1));
      RootSameEnd(m', h, ds);
    }
    assert ZeroFrom(m', End(bs)) by {
      if i + 1 < |bs| {
        AddrIncreasing(bs, i + 1, |bs|);
      }
    }
  }

  /** Both headers of a split, as the representation of the carved heap. */
  lemma BlockSplit(m: seq<byte>, m': seq<byte>, h: Heap, i: nat, n: u32, a: nat, rest: u32)
    requires Represents(m, h) && i < |h.blocks| && Splits(h.blocks[i], n)
    requires a == Addr(h.blocks, i) && rest == h.blocks[i].size - n - HEADER
    requires SameOutside(m, m', a, Addr(h.blocks, i + 1))
    requires HeaderAt(m', a, Block(Free, rest, 0)) && HeaderAt(m', a + HEADER + rest, Block(Free, n, 0))
    ensures Represents(m', h.(blocks := Carve(h.blocks, i, n).0))
  {
    CarveReplaces(h.blocks, i, n);
    var (cs, k) := Carve(h.blocks, i, n);
    CarvedBlocksAt(m', h.blocks, i, n, a, rest);
    BlockRewritten(m, m', h, cs, i, k);
  }

  lemma CarvedBlocksAt(m: seq<byte>, bs: seq<Block>, i: nat, n: u32, a: nat, rest: u32)
    requires i < |bs| && Splits(bs[i], n) && a == Addr(bs, i) && rest == bs[i].size - n - HEADER
    requires HeaderAt(m, a, Block(Free, rest, 0)) && HeaderAt(m, a + HEADER + rest, Block(Free, n, 0))
    ensures var cs := Carve(bs, i, n).0;
            BlockAt(m, cs, i) && BlockAt(m, cs, i + 1)
  {
    var cs := Carve(bs, i, n).0;
    assert cs[i] == Block(Free, rest, 0) && cs[i + 1] == Block(Free, n, 0);
    AddrSameSizes(bs, cs, i);
    assert Addr(cs, i + 1) == Addr(cs, i) + HEADER + cs[i].size;
  }

  lemma HeadersAppended(m: seq<byte>, bs: seq<Block>, b: Block)
    requires HeadersAt(m, bs) && HeaderAt(m, End(bs), b)
    ensures HeadersAt(m, bs + [b])
  {
    var ds := bs + [b];
    forall j | 0 <= j < |ds| ensures BlockAt(m, ds, j) {
      AddrSameSizes(bs, ds, j);
      assert j < |bs| ==> BlockAt(m, bs, j);
    }
  }

  lemma RootAppended(m: seq<byte>, m1: seq<byte>, m': seq<byte>, h: Heap, h': Heap, lo: nat, hi: nat)
    requires RootAt(m, h) && BLOCKS <= lo && Position(h'.blocks) < U64_LIMIT && h' == h.(blocks := h'.blocks)
    requires Wrote(m, m1, RootAddr(POSITION), 8, Position(h'.blocks)) && SameOutside(m1, m', lo, hi)
    ensures RootAt(m', h')
  {
    forall f: nat | f < ROOT_FIELDS ensures Load(m', RootAddr(f), 8) == RootField(h', f) {
      RootWord(m, m1, POSITION, Position(h'.blocks), f);
      LoadFrame(m1, m', lo, hi, RootAddr(f), 8);
    }
  }

  /** A block appended at the bump position, after the root record has been told. */
  lemma BlockAppended(m: seq<byte>, m1: seq<byte>, m': seq<byte>, h: Heap, b: Block)
    requires Represents(m, h) && Sane(h.(blocks := h.blocks + [b]))
    requires End(h.blocks) + HEADER <= End(h.blocks + [b])
    requires Wrote(m, m1, RootAddr(POSITION), 8, Position(h.blocks + [b]))
    requires SameOutside(m1, m', End(h.blocks), End(h.blocks) + HEADER) && HeaderAt(m', End(h.blocks), b)
    ensures Represents(m', h.(blocks := h.blocks + [b]))
  {
    var h' := h.(blocks := h.blocks + [b]);
    var lo := End(h.blocks);
    assert HeadersAt(m', h'.blocks) by {
      HeadersFrame(m, m1, h.blocks, RootAddr(POSITION), RootAddr(POSITION) + 8);
      HeadersFrame(m1, m', h.blocks, lo, lo + HEADER);
      HeadersAppended(m', h.blocks, b);
    }
    RootAppended(m, m1, m', h, h', lo, lo + HEADER);
  }

  lemma LoadExtended(m: seq<byte>, m': seq<byte>, a: nat, k: nat)
    requires m <= m' && a + k <= |m|
    ensures Load(m', a, k) == Load(m, a, k)
  {
    assert m'[a..a + k] == m[a..a + k];
  }

  /** Growing memory appends zero bytes. */
  lemma MemoryGrown(m: seq<byte>, m': seq<byte>, h: Heap, extra: nat)
    requires Represents(m, h) && h.pages + extra <= MAX_PAGES
    requires |m'| == |m| + PAGE_SIZE * extra && m <= m'
    requires ZeroFrom(m', |m|)
    ensures Represents(m', h.(pages := h.pages + extra))
  {
    var h' := h.(pages := h.pages + extra);
    assert RootAt(m', h') by {
      forall f: nat | f < ROOT_FIELDS ensures Load(m', RootAddr(f), 8) == RootField(h', f) {
        LoadExtended(m, m', RootAddr(f), 8);
      }
    }
    forall i | 0 <= i < |h.blocks| ensures BlockAt(m', h.blocks, i) {
      var a := Addr(h.blocks, i);
      assert BlockAt(m, h.blocks, i);
      LoadExtended(m, m', a + 4, 4);
      LoadExtended(m, m', a + 8, 4);
    }
  }

  /** Zeroing the block area and the position leaves an empty heap. */
  lemma BlocksCleared(m: seq<byte>, m1: seq<byte>, m': seq<byte>, h: Heap)
    requires Represents(m, h)
    requires Wrote(m, m1, RootAddr(POSITION), 8, 0) && SameOutside(m1, m', BLOCKS, End(h.blocks))
    requires forall a :: BLOCKS <= a < End(h.blocks) ==> m'[a] == 0
    ensures Represents(m', h.(blocks := []))
  {
    var h' := h.(blocks := []);
    forall f: nat | f < ROOT_FIELDS ensures Load(m', RootAddr(f), 8) == RootField(h', f) {
      RootWord(m, m1, POSITION, 0, f);
      LoadFrame(m1, m', BLOCKS, End(h.blocks), RootAddr(f), 8);
    }
  }

  // ----- Whole updates -----

  lemma ExtentInMemory(m: seq<byte>, h: Heap, i: nat)
    requires Represents(m, h) && i < |h.blocks|
    ensures Addr(h.blocks, i + 1) == Addr(h.blocks, i) + HEADER + h.blocks[i].size
    ensures Addr(h.blocks, i + 1) <= End(h.blocks) < |m|
    ensures h.blocks[i].size < U32_LIMIT
  {
    AddrIncreasing(h.blocks, i, |h.blocks|);
  }

  lemma SplitRoom(m: seq<byte>, h: Heap, i: nat, n: u32)
    requires Represents(m, h) && i < |h.blocks| && Splits(h.blocks[i], n)
    ensures var a, rest := Addr(h.blocks, i), h.blocks[i].size - n - HEADER;
            var (cs, k) := Carve(h.blocks, i, n);
            && h.blocks[i].size < U32_LIMIT && a + HEADER + rest + HEADER + n == Addr(h.blocks, i + 1) <= |m|
            && k < |cs| && Addr(cs, k) == a + HEADER + rest
  {
    ExtentInMemory(m, h, i);
    CarveReplaces(h.blocks, i, n);
    var (cs, k) := Carve(h.blocks, i, n);
    assert cs[i].size == h.blocks[i].size - n - HEADER;
    assert Addr(cs, k) == Addr(cs, i) + HEADER + cs[i].size;
  }

  lemma ActiveStep(m: seq<byte>, m1: seq<byte>, m': seq<byte>, h: Heap, k: nat, n: u32)
    requires Represents(m, h) && k < |h.blocks|
    requires Wrote(m, m1, Addr(h.blocks, k) + 8, 4, n) && WroteByte(m1, m', Addr(h.blocks, k), StatusByte(Active))
    ensures Represents(m', h.(blocks := Activate(h.blocks, k, n)))
    ensures SameOutside(m, m', Addr(h.blocks, k), Handle(h.blocks, k))
  {
    var a, b := Addr(h.blocks, k), h.blocks[k];
    assert BlockAt(m, h.blocks, k);
    UsedWritten(m, m1, a, b, n);
    StatusWritten(m1, m', a, b.(used := n), Active);
    HeaderReplaced(m, m', h, k, Block(Active, b.size, n));
  }

  lemma FreeStep(m: seq<byte>, m': seq<byte>, h: Heap, i: nat)
    requires Represents(m, h) && i < |h.blocks| && WroteByte(m, m', Addr(h.blocks, i), StatusByte(Free))
    ensures Represents(m', h.(blocks := h.blocks[i := h.blocks[i].(status := Free)]))
  {
    assert BlockAt(m, h.blocks, i);
    StatusWritten(m, m', Addr(h.blocks, i), h.blocks[i], Free);
    HeaderReplaced(m, m', h, i, h.blocks[i].(status := Free));
  }

  /** A header rewritten in place, with the size kept. */
  lemma HeaderReplaced(m: seq<byte>, m': seq<byte>, h: Heap, i: nat, b: Block)
    requires Represents(m, h) && i < |h.blocks| && b.size == h.blocks[i].size
    requires SameOutside(m, m', Addr(h.blocks, i), Handle(h.blocks, i)) && HeaderAt(m', Addr(h.blocks, i), b)
    ensures Represents(m', h.(blocks := h.blocks[i := b]))
  {
    var ds := h.blocks[i := b];
    ResizeNothing(h.blocks, i, b);
    assert BlockAt(m', ds, i);
    BlockRewritten(m, m', h, ds, i, i);
  }

  /** First use of the kernel: the fields of an empty heap over zeroed memory. */
  lemma InitStep(m: seq<byte>, m': seq<byte>, initialPages: nat)
    requires initialPages <= MAX_PAGES && |m| == PAGE_SIZE * Init(initialPages).pages
    requires ZeroFrom(m, 0) && SameOutside(m, m', 0, BLOCKS) && m'[INITIALIZED] == 1
    requires forall f: nat :: f < ROOT_FIELDS ==> Load(m', RootAddr(f), 8) == if f == LENGTH then FIRST_LENGTH else 0
    ensures Represents(m', Init(initialPages))
  {
  }

  // ----- Data -----

  /** `[lo, hi)` lies inside the data of block `i`. */
  predicate Within(bs: seq<Block>, i: nat, lo: nat, hi: nat)
  {
    i < |bs| && Handle(bs, i) <= lo && hi <= Addr(bs, i + 1)
  }

  ghost predicate InData(bs: seq<Block>, lo: nat, hi: nat)
  {
    exists i: nat :: Within(bs, i, lo, hi)
  }

  /** Writing only data bytes keeps the representation, whatever is written. */
  lemma DataWritten(m: seq<byte>, m': seq<byte>, h: Heap, lo: nat, hi: nat)
    requires Represents(m, h) && InData(h.blocks, lo, hi) && SameOutside(m, m', lo, hi)
    ensures Represents(m', h)
  {
    var bs := h.blocks;
    var i: nat :| Within(bs, i, lo, hi);
    ExtentInMemory(m, h, i);
    assert SameOutside(m, m', Addr(bs, i), Addr(bs, i + 1));
    ResizeNothing(bs, i, bs[i]);
    assert bs[i := bs[i]] == bs;
    assert BlockAt(m, bs, i);
    HeaderFrame(m, m', lo, hi, Addr(bs, i), bs[i]);
    assert BlockAt(m', bs, i);
    BlockRewritten(m, m', h, bs, i, i);
  }

  // ----- The fast length query -----

  /** `length_unsafe` trusts whatever bytes stand in front of `p`. */
  function HeaderLength(m: seq<byte>, p: nat): nat
  {
    if !(ROOT_SIZE <= p <= |m|) then 0
    else if m[p - HEADER] != StatusByte(Active) then 0
    else Load(m, p - 4, 4)
  }

  lemma HeaderLengthAtBlock(m: seq<byte>, h: Heap, i: nat)
    requires Represents(m, h) && i < |h.blocks|
    ensures HeaderLength(m, Handle(h.blocks, i)) == if h.blocks[i].status == Active then h.blocks[i].used else 0
  {
    ExtentInMemory(m, h, i);
    assert BlockAt(m, h.blocks, i);
  }

  // ----- Bounds-checked access to raw memory -----

  /** `pointer_in_bounds_fast`: the upper bound is inclusive. Addresses are then truncated to 32 bits. */
  predicate FastBounds(m: seq<byte>, p: nat)
  {
    ROOT_SIZE <= p <= |m|
  }

  function ReadByte(m: seq<byte>, p: nat): Outcome
  {
    var a := p % U32_LIMIT;
    if !FastBounds(m, p) then Value(0) else if a < |m| then Value(m[a]) else Trap
  }

  /** The address of the last byte is a wrapping u64. */
  function ReadU64(m: seq<byte>, p: nat): Outcome
  {
    if !FastBounds(m, (p + 7) % U64_LIMIT) then Value(0) else if p + 8 <= |m| then Value(Load(m, p, 8)) else Trap
  }

  function PutByte(m: seq<byte>, p: nat, x: byte): (seq<byte>, Outcome)
  {
    var a := p % U32_LIMIT;
    if !FastBounds(m, p) then (m, Value(0)) else if a < |m| then (m[a := x], Value(0)) else (m, Trap)
  }

  function PutU64(m: seq<byte>, p: nat, x: nat): (seq<byte>, Outcome)
  {
    if !FastBounds(m, (p + 7) % U64_LIMIT) then (m, Value(0))
    else if p + 8 <= |m| then (Store(m, p, 8, x), Value(0)) else (m, Trap)
  }

  function ReadInputByte(m: seq<byte>, h: Heap, offset: nat): Outcome
  {
    var p := (h.inputOffset + offset) % U32_LIMIT;
    if h.inputLength <= offset then Value(0) else if p < |m| then Value(m[p]) else Trap
  }

  function ReadInputU64(m: seq<byte>, h: Heap, offset: nat): Outcome
  {
    var p := (h.inputOffset + offset) % U32_LIMIT;
    if h.inputLength < (offset + 8) % U64_LIMIT then Value(0) else if p + 8 <= |m| then Value(Load(m, p, 8)) else Trap
  }
}
