/** A client runs calls against the real bytes; everything it reads is what it last wrote. */
module KernelClient {
  import opened KernelHeap
  import opened Wrappers
  import opened LinearMemory
  import opened LittleEndian
  import opened HeapInvariant
  import opened HeapBytes
  import opened HeapPayload
  import opened KernelRuns
  import opened KernelView
  import opened KernelGrowth
  import opened KernelEffects
  import opened KernelSafety
  import opened Kernel

  ghost predicate CellMirrored(m: seq<byte>, p: nat, c: Cell)
  {
    forall i :: i in c.bytes ==> i < c.len && p + i < |m| && m[p + i] == c.bytes[i]
  }

  /** The client's record is right: its handles are the live ones and memory holds what it wrote. */
  ghost predicate Mirrors(m: seq<byte>, h: Heap, v: View)
  {
    && Sees(h, v)
    && forall p: nat :: p in v.cells ==> CellMirrored(m, p, v.cells[p])
  }

  lemma CellKept(m: seq<byte>, m': seq<byte>, h: Heap, p: nat, c: Cell)
    requires WellFormed(h) && |m| == PAGE_SIZE * h.pages && |m| <= |m'| && LiveDataKept(m, m', h.blocks)
    requires Lookup(h.blocks, p) == Some(c.len) && CellMirrored(m, p, c)
    ensures CellMirrored(m', p, c)
  {
  }

  /** A call that keeps live data keeps every cell it does not forget or create. */
  lemma MirrorsKept(m: seq<byte>, m': seq<byte>, h: Heap, h': Heap, v: View, v': View)
    requires WellFormed(h) && |m| == PAGE_SIZE * h.pages && |m| <= |m'|
    requires Mirrors(m, h, v) && LiveDataKept(m, m', h.blocks) && Sees(h', v')
    requires forall p :: p in v'.cells ==> v'.cells[p].bytes == map[] || (p in v.cells && v'.cells[p] == v.cells[p])
    ensures Mirrors(m', h', v')
  {
    forall p: nat | p in v'.cells && v'.cells[p].bytes != map[] ensures CellMirrored(m', p, v'.cells[p]) {
      CellKept(m, m', h, p, v.cells[p]);
    }
  }

  // ----- Calls that change the heap -----

  lemma HeapCallObserved(m: seq<byte>, m': seq<byte>, h: Heap, v: View, op: Op, cap: nat, r: Outcome)
    requires Represents(m, h) && WellFormed(h) && Mirrors(m, h, v) && |m| <= |m'|
    requires LiveDataKept(m, m', h.blocks) && r == Answer(h, op, cap) && InContract(h, op, cap)
    requires op.Allocate? || op.Release? || op.Measure?
    ensures Mirrors(m', Step(h, op, cap), Observe(v, op, r)) && Entitled(v, op, r)
  {
    StepObserved(h, v, op, cap, r);
    MirrorsKept(m, m', h, Step(h, op, cap), v, Observe(v, op, r));
  }

  method CallHeap(k: Kernel, op: Op, ghost v: View) returns (r: Outcome)
    requires k.Valid() && Mirrors(k.mem[..], k.heap, v) && InContract(k.heap, op, k.cap)
    requires op.Allocate? || op.Release? || op.Measure?
    modifies k, k.mem
    ensures k.Valid() && (k.mem == old(k.mem) || fresh(k.mem))
    ensures k.heap == Step(old(k.heap), op, k.cap) && r == Answer(old(k.heap), op, k.cap)
    ensures Mirrors(k.mem[..], k.heap, Observe(v, op, r)) && Entitled(v, op, r)
  {
    ghost var m, h := k.mem[..], k.heap;
    match op {
      case Allocate(n, granted) =>
        var p := k.Alloc(n, granted);
        r := Value(p);
      case Release(p) =>
        r := k.Free(p);
      case Measure(p) =>
        r := k.Length(p);
        OutsideBlocksKept(m, m, h.blocks, 0, 0);
    }
    assert k.heap == Step(h, op, k.cap) && |m| <= |k.mem[..]|;
    HeapCallObserved(m, k.mem[..], h, v, op, k.cap, r);
  }

  // ----- Calls that set fields of the root record -----

  lemma RootCallObserved(m: seq<byte>, m': seq<byte>, h: Heap, v: View, op: Op, cap: nat)
    requires Represents(m, h) && WellFormed(h) && Mirrors(m, h, v)
    requires SameOutside(m, m', RootAddr(0), BLOCKS)
    requires op.SetInput? || op.SetOutput? || op.SetError?
    ensures Mirrors(m', Step(h, op, cap), Observe(v, op, Value(0)))
  {
    StepObserved(h, v, op, cap, Value(0));
    OutsideBlocksKept(m, m', h.blocks, RootAddr(0), BLOCKS);
    MirrorsKept(m, m', h, Step(h, op, cap), v, Observe(v, op, Value(0)));
  }

  method CallRoot(k: Kernel, op: Op, ghost v: View)
    requires k.Valid() && Mirrors(k.mem[..], k.heap, v)
    requires op.SetInput? || op.SetOutput? || op.SetError?
    modifies k, k.mem
    ensures k.Valid() && k.mem == old(k.mem)
    ensures k.heap == Step(old(k.heap), op, k.cap)
    ensures Mirrors(k.mem[..], k.heap, Observe(v, op, Value(0)))
  {
    ghost var m, h := k.mem[..], k.heap;
    match op {
      case SetInput(p, len) => k.InputSet(p, len);
      case SetOutput(p, len) => k.OutputSet(p, len);
      case SetError(p) => k.ErrorSet(p);
    }
    RootCallObserved(m, k.mem[..], h, v, op, k.cap);
  }

  // ----- Stores -----

  /** A write inside live block `q` leaves the cells of every other handle alone. */
  lemma OtherCellKept(m: seq<byte>, m': seq<byte>, h: Heap, q: nat, lo: nat, hi: nat, p: nat, c: Cell)
    requires WellFormed(h) && p != q && SameOutside(m, m', lo, hi)
    requires Lookup(h.blocks, q).Some? && q <= lo && hi <= q + Lookup(h.blocks, q).value
    requires Lookup(h.blocks, p) == Some(c.len) && CellMirrored(m, p, c)
    ensures CellMirrored(m', p, c)
  {
    LiveRangesDisjoint(h, p, q);
  }

  lemma SeesRewritten(h: Heap, v: View, q: nat, c: Cell)
    requires Sees(h, v) && q in v.cells && c.len == v.cells[q].len
    ensures Sees(h, v.(cells := v.cells[q := c]))
  {
  }

  lemma MirrorsWritten(m: seq<byte>, m': seq<byte>, h: Heap, v: View, q: nat, lo: nat, hi: nat, c: Cell)
    requires WellFormed(h) && Mirrors(m, h, v) && q in v.cells && c.len == v.cells[q].len
    requires SameOutside(m, m', lo, hi) && q <= lo && hi <= q + c.len && CellMirrored(m', q, c)
    ensures Mirrors(m', h, v.(cells := v.cells[q := c]))
  {
    SeesRewritten(h, v, q, c);
    forall p: nat | p in v.cells && p != q ensures CellMirrored(m', p, v.cells[p]) {
      OtherCellKept(m, m', h, q, lo, hi, p, v.cells[p]);
    }
  }

  lemma WordMirrored(m: seq<byte>, q: nat, i: nat, word: nat, c: Cell)
    requires q + i + 8 <= |m| && i + 8 <= c.len && CellMirrored(m, q, c)
    ensures CellMirrored(Store(m, q + i, 8, word), q, PutWord(c, i, word))
  {
  }

  /** Where client data lie: inside the data of a block, below the bump position. */
  lemma CellAddress(h: Heap, q: nat, i: nat, n: nat)
    requires WellFormed(h) && InsideLive(h.blocks, q, i, n)
    ensures ROOT_SIZE <= q && q + i + n < PAGE_SIZE * h.pages <= U32_LIMIT
    ensures InData(h.blocks, q + i, q + i + n)
  {
    LiveRange(h, q);
    LiveInData(h, q, q + i, q + i + n);
  }

  lemma ByteObserved(m: seq<byte>, h: Heap, v: View, q: u64, i: nat, x: byte)
    requires Represents(m, h) && WellFormed(h) && Mirrors(m, h, v) && InsideLive(h.blocks, q, i, 1)
    ensures q + i < |m|
    ensures Mirrors(m[q + i := x], h, ByteWritten(v, q, i, x))
  {
    CellAddress(h, q, i, 1);
    var c := v.cells[q];
    MirrorsWritten(m, m[q + i := x], h, v, q, q + i, q + i + 1, c.(bytes := c.bytes[i := x]));
  }

  lemma WordObserved(m: seq<byte>, h: Heap, v: View, q: u64, i: nat, word: u64)
    requires Represents(m, h) && WellFormed(h) && Mirrors(m, h, v) && InsideLive(h.blocks, q, i, 8)
    ensures q + i + 8 <= |m|
    ensures Mirrors(Store(m, q + i, 8, word), h, WordWritten(v, q, i, word))
  {
    CellAddress(h, q, i, 8);
    var c := v.cells[q];
    WordMirrored(m, q, i, word, c);
    MirrorsWritten(m, Store(m, q + i, 8, word), h, v, q, q + i, q + i + 8, PutWord(c, i, word));
  }

  method StoreByteInside(k: Kernel, q: u64, i: nat, x: byte)
    requires k.Valid() && InsideLive(k.heap.blocks, q, i, 1)
    modifies k.mem
    ensures k.Valid() && q + i < k.mem.Length && k.mem[..] == old(k.mem[..])[q + i := x]
  {
    CellAddress(k.heap, q, i, 1);
    PutsInside(k.mem[..], q + i, x);
    var r := k.StoreU8(q + i, x);
  }

  method StoreWordInside(k: Kernel, q: u64, i: nat, word: u64)
    requires k.Valid() && InsideLive(k.heap.blocks, q, i, 8)
    modifies k.mem
    ensures k.Valid() && q + i + 8 <= k.mem.Length && k.mem[..] == Store(old(k.mem[..]), q + i, 8, word)
  {
    CellAddress(k.heap, q, i, 8);
    PutsWordInside(k.mem[..], q + i, word);
    var r := k.StoreU64(q + i, word);
  }

  method WriteCell(k: Kernel, q: u64, i: nat, x: byte, ghost v: View)
    requires k.Valid() && Mirrors(k.mem[..], k.heap, v) && InsideLive(k.heap.blocks, q, i, 1)
    modifies k.mem
    ensures k.Valid() && k.heap == old(k.heap)
    ensures q in v.cells && Mirrors(k.mem[..], k.heap, ByteWritten(v, q, i, x))
  {
    ByteObserved(k.mem[..], k.heap, v, q, i, x);
    StoreByteInside(k, q, i, x);
  }

  method WriteWordCell(k: Kernel, q: u64, i: nat, word: u64, ghost v: View)
    requires k.Valid() && Mirrors(k.mem[..], k.heap, v) && InsideLive(k.heap.blocks, q, i, 8)
    modifies k.mem
    ensures k.Valid() && k.heap == old(k.heap)
    ensures q in v.cells && Mirrors(k.mem[..], k.heap, WordWritten(v, q, i, word))
  {
    WordObserved(k.mem[..], k.heap, v, q, i, word);
    StoreWordInside(k, q, i, word);
  }

  // ----- Loads -----

  lemma ByteSeen(m: seq<byte>, h: Heap, v: View, q: u64, i: nat)
    requires Represents(m, h) && WellFormed(h) && Mirrors(m, h, v) && InsideLive(h.blocks, q, i, 1)
    ensures q + i < U64_LIMIT && Entitled(v, Read(q, i), ReadByte(m, q + i))
  {
    CellAddress(h, q, i, 1);
    ReadsInside(m, q + i);
  }

  lemma WordSeen(m: seq<byte>, h: Heap, v: View, q: u64, i: nat)
    requires Represents(m, h) && WellFormed(h) && Mirrors(m, h, v) && InsideLive(h.blocks, q, i, 8)
    ensures q + i < U64_LIMIT && Entitled(v, ReadWord(q, i), ReadU64(m, q + i))
  {
    CellAddress(h, q, i, 8);
    ReadsWordInside(m, q + i);
    if Known(v.cells[q], i) {
      KnownWord(m, q, i, v.cells[q]);
    }
  }

  lemma KnownWord(m: seq<byte>, q: nat, i: nat, c: Cell)
    requires CellMirrored(m, q, c) && Known(c, i)
    ensures q + i + 8 <= |m| && Load(m, q + i, 8) == WordOf(c, i)
  {
    assert i + 7 in c.bytes;
    assert m[q + i..q + i + 8] == seq(8, j requires 0 <= j < 8 => c.bytes[i + j]);
  }

  method ReadByteCell(k: Kernel, q: u64, i: nat, ghost v: View) returns (r: Outcome)
    requires k.Valid() && Mirrors(k.mem[..], k.heap, v) && InsideLive(k.heap.blocks, q, i, 1)
    ensures Entitled(v, Read(q, i), r)
  {
    ByteSeen(k.mem[..], k.heap, v, q, i);
    r := k.LoadU8(q + i);
  }

  method ReadWordCell(k: Kernel, q: u64, i: nat, ghost v: View) returns (r: Outcome)
    requires k.Valid() && Mirrors(k.mem[..], k.heap, v) && InsideLive(k.heap.blocks, q, i, 8)
    ensures Entitled(v, ReadWord(q, i), r)
  {
    WordSeen(k.mem[..], k.heap, v, q, i);
    r := k.LoadU64(q + i);
  }

  lemma InputByteSeen(m: seq<byte>, h: Heap, v: View, o: u64)
    requires Represents(m, h) && WellFormed(h) && Mirrors(m, h, v)
    ensures InputByteEntitled(v, o, ReadInputByte(m, h, o))
  {
  }

  lemma InputWordSeen(m: seq<byte>, h: Heap, v: View, o: u64)
    requires Represents(m, h) && WellFormed(h) && Mirrors(m, h, v)
    ensures InputWordEntitled(v, o, ReadInputU64(m, h, o))
  {
    if h.inputLength == 0 {
      EmptyInputLoads(m, h, o);
    } else if v.input.InputAt? && o + 8 <= h.inputLength {
      InputLoads(m, h, o);
      var c := v.cells[v.input.h];
      if Known(c, o) {
        KnownWord(m, v.input.h, o, c);
      }
    }
  }

  method ReadInput(k: Kernel, op: Op, ghost v: View) returns (r: Outcome)
    requires k.Valid() && Mirrors(k.mem[..], k.heap, v) && (op.InputByte? || op.InputWord?)
    ensures Entitled(v, op, r)
  {
    match op {
      case InputByte(o) =>
        r := k.InputLoadU8(o);
        InputByteSeen(k.mem[..], k.heap, v, o);
      case InputWord(o) =>
        r := k.InputLoadU64(o);
        InputWordSeen(k.mem[..], k.heap, v, o);
    }
  }

  method MeasureFastCell(k: Kernel, p: u64, ghost v: View) returns (r: Outcome)
    requires k.Valid() && Mirrors(k.mem[..], k.heap, v)
    ensures Entitled(v, MeasureFast(p), r)
  {
    var n := k.LengthUnsafe(p);
    if p in v.cells {
      LiveIsBoundary(k.heap.blocks, p);
    }
    if Boundary(k.heap.blocks, p) {
      FastLengthAtBoundary(k.mem[..], k.heap, p);
    }
    r := Value(n);
  }

  // ----- Whole runs -----

  method CallBytes(k: Kernel, op: Op, ghost v: View) returns (r: Outcome)
    requires k.Valid() && Mirrors(k.mem[..], k.heap, v) && InContract(k.heap, op, k.cap) && FromBytes(op)
    ensures Entitled(v, op, r)
  {
    if op.MeasureFast? {
      r := MeasureFastCell(k, op.p, v);
    } else if op.Read? {
      r := ReadByteCell(k, op.h, op.i, v);
    } else if op.ReadWord? {
      r := ReadWordCell(k, op.h, op.i, v);
    } else {
      r := ReadInput(k, op, v);
    }
  }

  /** One call, with its effect on the bytes hidden behind the record. */
  method Call(k: Kernel, op: Op, ghost v: View) returns (r: Outcome)
    requires k.Valid() && Mirrors(k.mem[..], k.heap, v) && InContract(k.heap, op, k.cap)
    modifies k, k.mem
    ensures k.Valid() && (k.mem == old(k.mem) || fresh(k.mem))
    ensures k.heap == Step(old(k.heap), op, k.cap)
    ensures FromBytes(op) || r == Answer(old(k.heap), op, k.cap)
    ensures Mirrors(k.mem[..], k.heap, Observe(v, op, r)) && Entitled(v, op, r)
  {
    if FromBytes(op) {
      r := CallBytes(k, op, v);
    } else if op.Allocate? || op.Release? || op.Measure? {
      r := CallHeap(k, op, v);
    } else {
      r := Value(0);
      if op.Clear? {
        k.Reset();
      } else if op.Write? {
        WriteCell(k, op.h, op.i, op.x, v);
      } else if op.WriteWord? {
        WriteWordCell(k, op.h, op.i, op.word, v);
      } else {
        CallRoot(k, op, v);
      }
    }
  }

  /** A run so far: the heap, the answers and the record fit together. */
  ghost predicate RunSoFar(h: Heap, ops: seq<Op>, cap: nat, v: View, rs: seq<Outcome>, h': Heap, v': View)
    requires WellFormed(h) && h.pages <= cap <= MAX_PAGES
  {
    && |rs| == |ops| && AnswersOf(h, ops, cap, rs) && AllEntitled(v, ops, rs, true)
    && h' == Run(h, ops, cap) && v' == Observed(v, ops, rs)
  }

  lemma RunOneMore(h: Heap, ops: seq<Op>, n: nat, cap: nat, v: View, rs: seq<Outcome>, h': Heap, v': View, r: Outcome)
    requires WellFormed(h) && h.pages <= cap <= MAX_PAGES && n < |ops|
    requires RunSoFar(h, ops[..n], cap, v, rs, h', v')
    requires FromBytes(ops[n]) || r == Answer(h', ops[n], cap)
    requires Entitled(v', ops[n], r)
    ensures RunSoFar(h, ops[..n + 1], cap, v, rs + [r], Step(h', ops[n], cap), Observe(v', ops[n], r))
  {
    assert ops[..n + 1][..n] == ops[..n] && (rs + [r])[..n] == rs;
  }

  /**
   Any run in contract, against the bytes: the kernel ends in the state the abstract run predicts,
   every answer is one the client was entitled to (a read gives the byte last written), and the record
   built from the answers is still right at the end.
   */
  method Execute(k: Kernel, ops: seq<Op>, ghost v: View) returns (rs: seq<Outcome>)
    requires k.Valid() && Mirrors(k.mem[..], k.heap, v) && RunInContract(k.heap, ops, k.cap)
    modifies k, k.mem
    ensures k.Valid() && |rs| == |ops|
    ensures RunSoFar(old(k.heap), ops, k.cap, v, rs, k.heap, Observed(v, ops, rs))
    ensures Mirrors(k.mem[..], k.heap, Observed(v, ops, rs))
  {
    rs := [];
    ghost var h, cap, v' := k.heap, k.cap, v;
    var n := 0;
    while n < |ops|
      invariant 0 <= n <= |ops|
      invariant k.Valid() && (k.mem == old(k.mem) || fresh(k.mem))
      invariant RunSoFar(h, ops[..n], cap, v, rs, k.heap, v')
      invariant Mirrors(k.mem[..], k.heap, v')
    {
      assert CallInContract(h, ops, cap, n);
      ghost var h' := k.heap;
      var r := Call(k, ops[n], v');
      RunOneMore(h, ops, n, cap, v, rs, h', v', r);
      v' := Observe(v', ops[n], r);
      rs := rs + [r];
      n := n + 1;
    }
    assert ops[..n] == ops;
  }

  /** What every reachable kernel looks like, read off its bytes where bytes can tell. */
  ghost predicate Reached(m: seq<byte>, h: Heap, base: nat, peak: nat)
  {
    && Represents(m, h) && WellFormed(h)
    && Tiles(m, BLOCKS, BLOCKS + Load(m, RootAddr(POSITION), 8))
    && ZeroFrom(m, BLOCKS + Load(m, RootAddr(POSITION), 8))
    && Exact(h, base, peak)
  }

  lemma RunReaches(m: seq<byte>, initialPages: nat, ops: seq<Op>, cap: nat)
    requires Init(initialPages).pages <= cap <= MAX_PAGES && WellFormed(Init(initialPages))
    requires Represents(m, Run(Init(initialPages), ops, cap))
    ensures Reached(m, Run(Init(initialPages), ops, cap), Init(initialPages).pages, Peak(Init(initialPages), ops, cap))
  {
    HeadersTileMemory(m, Run(Init(initialPages), ops, cap));
    GrowthIsExact(initialPages, ops, cap);
  }

  /**
   From the first call on: a fresh kernel, any run in contract, and at its end headers that tile the
   block area, a length that exactly covers the highest position, the error, input and output announced
   last, an input that is live or empty if `input_set` was used as documented, and answers a client without prior knowledge was entitled to.
   */
  method ExecuteFresh(initialPages: nat, cap: nat, ops: seq<Op>) returns (k: Kernel, rs: seq<Outcome>)
    requires initialPages <= cap && 1 <= cap <= MAX_PAGES
    requires WellFormed(Init(initialPages)) && RunInContract(Init(initialPages), ops, cap)
    ensures k.Valid() && k.cap == cap && |rs| == |ops|
    ensures AllEntitled(NOTHING, ops, rs, true) && Mirrors(k.mem[..], k.heap, Observed(NOTHING, ops, rs))
    ensures Reached(k.mem[..], k.heap, Init(initialPages).pages, Peak(Init(initialPages), ops, cap))
    ensures AnnouncedBy(k.heap) == LastAnnounced(Init(initialPages), ops, cap)
    ensures RunDocumented(Init(initialPages), ops, cap) ==> InputFresh(k.heap)
  {
    k := new Kernel(initialPages, cap);
    rs := Execute(k, ops, NOTHING);
    RunReaches(k.mem[..], initialPages, ops, cap);
    AnnouncedIsLast(Init(initialPages), ops, cap);
    if RunDocumented(Init(initialPages), ops, cap) {
      InputNeverStale(Init(initialPages), ops, cap);
    }
  }
}
