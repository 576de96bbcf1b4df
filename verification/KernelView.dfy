/** What a client can conclude from the kernel's answers alone, and that the kernel lives up to it. */
module KernelView {
  import opened KernelHeap
  import opened Wrappers
  import opened LinearMemory
  import opened LittleEndian
  import opened HeapInvariant
  import opened HeapPayload
  import opened KernelRuns

  /** A live allocation: its length, and the bytes written to it so far. */
  datatype Cell = Cell(len: nat, bytes: map<nat, byte>)

  /** The input: empty, a live allocation, or not known after an `input_set` off the client's record. */
  datatype InputView = Empty | InputAt(h: nat) | Unclear

  /** The client's record: live cells, every handle issued since the last reset, and the input. */
  datatype View = View(cells: map<nat, Cell>, issued: set<nat>, input: InputView)

  const NOTHING := View(map[], {}, Empty)

  ghost predicate Known(c: Cell, i: nat)
  {
    forall j :: i <= j < i + 8 ==> j in c.bytes
  }

  /** The little-endian word at `i` of a cell. */
  ghost function WordOf(c: Cell, i: nat): nat
    requires Known(c, i)
  {
    Decode(seq(8, j requires 0 <= j < 8 => c.bytes[i + j]))
  }

  /** The places of a word at `i`. */
  function Places(i: nat): set<nat>
  {
    {i, i + 1, i + 2, i + 3, i + 4, i + 5, i + 6, i + 7}
  }

  function PutWord(c: Cell, i: nat, word: nat): Cell
  {
    c.(bytes := c.bytes + map j | j in Places(i) :: Encode(word, 8)[j - i])
  }

  function ByteWritten(v: View, p: nat, i: nat, x: byte): View
    requires p in v.cells
  {
    v.(cells := v.cells[p := v.cells[p].(bytes := v.cells[p].bytes[i := x])])
  }

  function WordWritten(v: View, p: nat, i: nat, word: nat): View
    requires p in v.cells
  {
    v.(cells := v.cells[p := PutWord(v.cells[p], i, word)])
  }

  /** What a client may conclude from a call and its answer. */
  function Observe(v: View, op: Op, r: Outcome): View
  {
    match op
    case Allocate(n, _) =>
      if r.Value? && r.value != 0 then
        v.(cells := v.cells[r.value := Cell(n % U32_LIMIT, map[])], issued := v.issued + {r.value})
      else v
    case Release(p) => v.(cells := v.cells - {p}, input := if v.input == InputAt(p) then Empty else v.input)
    case Clear => NOTHING
    case SetInput(p, len) =>
      if p == 0 then v
      else v.(input := if p in v.cells && v.cells[p].len == len then InputAt(p) else Unclear)
    case Write(p, i, x) =>
      if p in v.cells then ByteWritten(v, p, i, x) else v
    case WriteWord(p, i, word) =>
      if p in v.cells then WordWritten(v, p, i, word) else v
    case _ => v
  }

  /** The answers a client is entitled to, given its record. */
  ghost predicate Entitled(v: View, op: Op, r: Outcome)
  {
    match op
    case Allocate(n, _) => r.Value? && r.value !in v.cells && (n == 0 ==> r.value == 0)
    case Release(p) => r == Value(0) || (p !in v.cells && r == Trap)
    case Measure(p) => if p in v.cells then r == Value(v.cells[p].len) else r == Value(0) || r == Trap
    case MeasureFast(p) =>
      r.Value? && (p in v.cells ==> r.value == v.cells[p].len) && (p in v.issued && p !in v.cells ==> r.value == 0)
    case Read(p, i) => p in v.cells && i in v.cells[p].bytes ==> r == Value(v.cells[p].bytes[i])
    case ReadWord(p, i) => p in v.cells && Known(v.cells[p], i) ==> r == Value(WordOf(v.cells[p], i))
    case InputByte(o) => InputByteEntitled(v, o, r)
    case InputWord(o) => InputWordEntitled(v, o, r)
    case _ => r == Value(0)
  }

  ghost predicate InputByteEntitled(v: View, o: nat, r: Outcome)
  {
    match v.input
    case Unclear => true
    case Empty => r == Value(0)
    case InputAt(p) =>
      p in v.cells ==>
        var c := v.cells[p];
        (c.len <= o ==> r == Value(0)) && (o < c.len && o in c.bytes ==> r == Value(c.bytes[o]))
  }

  /** Words are claimed where the end of the word does not wrap around 2^64. */
  ghost predicate InputWordEntitled(v: View, o: nat, r: Outcome)
  {
    o + 8 < U64_LIMIT ==>
    match v.input
    case Unclear => true
    case Empty => r == Value(0)
    case InputAt(p) =>
      p in v.cells ==>
        var c := v.cells[p];
        (c.len < o + 8 ==> r == Value(0)) && (o + 8 <= c.len && Known(c, o) ==> r == Value(WordOf(c, o)))
  }

  // ----- When a record is right -----

  ghost predicate SameHandles(bs: seq<Block>, cells: map<nat, Cell>)
  {
    && (forall p: nat :: p in cells <==> Lookup(bs, p).Some?)
    && (forall p: nat :: p in cells ==> Lookup(bs, p) == Some(cells[p].len))
  }

  ghost predicate AllBoundaries(bs: seq<Block>, issued: set<nat>)
  {
    forall p :: p in issued ==> Boundary(bs, p)
  }

  ghost predicate InputSeen(h: Heap, v: View)
  {
    match v.input
    case Unclear => true
    case Empty => h.inputLength == 0
    case InputAt(p) => p in v.cells && h.inputOffset == p && h.inputLength == v.cells[p].len
  }

  ghost predicate Sees(h: Heap, v: View)
  {
    SameHandles(h.blocks, v.cells) && AllBoundaries(h.blocks, v.issued) && InputSeen(h, v)
  }

  // ----- One call -----

  lemma AllocObserved(h: Heap, v: View, n: u64, cap: nat, granted: bool)
    requires WellFormed(h) && Sees(h, v)
    ensures var (h', q) := Alloc(h, n, cap, granted);
            var v' := Observe(v, Allocate(n, granted), Value(q));
            SameHandles(h'.blocks, v'.cells) && Entitled(v, Allocate(n, granted), Value(q))
  {
    var (h', q) := Alloc(h, n, cap, granted);
    forall p: nat
      ensures Lookup(h'.blocks, p) == (if q != 0 && p == q then Some(n % U32_LIMIT) else Lookup(h.blocks, p))
    {
      AllocHandles(h, n, cap, granted, p);
    }
    AllocHandles(h, n, cap, granted, 0);
    NoNullHandle(h.blocks);
  }

  lemma AllocIssued(h: Heap, v: View, n: u64, cap: nat, granted: bool)
    requires WellFormed(h) && AllBoundaries(h.blocks, v.issued)
    ensures var (h', q) := Alloc(h, n, cap, granted);
            AllBoundaries(h'.blocks, v.issued) && (q != 0 ==> Boundary(h'.blocks, q))
  {
    var (h', q) := Alloc(h, n, cap, granted);
    forall p | p in v.issued ensures Boundary(h'.blocks, p) {
      AllocKeepsBoundary(h, n, cap, granted, p);
    }
    AllocHandles(h, n, cap, granted, q);
    if q != 0 {
      LiveIsBoundary(h'.blocks, q);
    }
  }

  lemma AllocSeen(h: Heap, v: View, n: u64, cap: nat, granted: bool)
    requires WellFormed(h) && Sees(h, v)
    ensures var (h', q) := Alloc(h, n, cap, granted); Sees(h', Observe(v, Allocate(n, granted), Value(q)))
    ensures Entitled(v, Allocate(n, granted), Value(Alloc(h, n, cap, granted).1))
  {
    AllocObserved(h, v, n, cap, granted);
    AllocIssued(h, v, n, cap, granted);
  }

  lemma FreeSeen(h: Heap, v: View, q: u64, cap: nat)
    requires WellFormed(h) && Sees(h, v) && Settled(h, q)
    ensures var (h', r) := FreeHandle(h, q); Sees(h', Observe(v, Release(q), r)) && Entitled(v, Release(q), r)
  {
    var (h', r) := FreeHandle(h, q);
    forall p: nat ensures Lookup(h'.blocks, p) == (if p == q then None else Lookup(h.blocks, p)) {
      FreeHandles(h, q, p);
    }
    FreeHandles(h, q, q);
    forall p | p in v.issued ensures Boundary(h'.blocks, p) {
      StepKeepsBoundary(h, Release(q), cap, p);
    }
    FindLive(h, q);
    NoNullHandle(h.blocks);
  }

  lemma InputSeenSet(h: Heap, v: View, p: u64, len: u64)
    requires WellFormed(h) && Sees(h, v)
    ensures Sees(InputSet(h, p, len), Observe(v, SetInput(p, len), Value(0)))
  {
    if p in v.cells && v.cells[p].len == len {
      LiveRange(h, p);
    }
  }

  lemma WriteSeen(h: Heap, v: View, op: Op)
    requires Sees(h, v) && (op.Write? || op.WriteWord?)
    ensures Sees(h, Observe(v, op, Value(0)))
  {
  }

  lemma StepObserved(h: Heap, v: View, op: Op, cap: nat, r: Outcome)
    requires WellFormed(h) && Sees(h, v) && InContract(h, op, cap)
    requires FromBytes(op) || r == Answer(h, op, cap)
    ensures Sees(Step(h, op, cap), Observe(v, op, r))
    ensures !FromBytes(op) ==> Entitled(v, op, r)
  {
    match op
    case Allocate(n, granted) => AllocSeen(h, v, n, cap, granted);
    case Release(q) => FreeSeen(h, v, q, cap);
    case Measure(p) => LengthIsLookup(h, p);
    case SetInput(p, len) => InputSeenSet(h, v, p, len);
    case Write(_, _, _) => WriteSeen(h, v, op);
    case WriteWord(_, _, _) => WriteSeen(h, v, op);
    case _ =>
  }

  // ----- Whole runs -----

  function Observed(v: View, ops: seq<Op>, rs: seq<Outcome>): View
    requires |ops| == |rs|
  {
    if ops == [] then v else
    var n := |ops| - 1;
    Observe(Observed(v, ops[..n], rs[..n]), ops[n], rs[n])
  }

  /** `rs` are the answers of a run; those that lie in the bytes are left open. */
  ghost predicate AnswersOf(h: Heap, ops: seq<Op>, cap: nat, rs: seq<Outcome>)
    requires WellFormed(h) && h.pages <= cap <= MAX_PAGES
  {
    |rs| == |ops| &&
    (ops == [] ||
     var n := |ops| - 1;
     AnswersOf(h, ops[..n], cap, rs[..n]) &&
     (FromBytes(ops[n]) || rs[n] == Answer(Run(h, ops[..n], cap), ops[n], cap)))
  }

  /** Every answer, those from the bytes included when `withBytes`, is one the client was entitled to at that point. */
  ghost predicate AllEntitled(v: View, ops: seq<Op>, rs: seq<Outcome>, withBytes: bool)
    requires |ops| == |rs|
  {
    ops == [] ||
    var n := |ops| - 1;
    AllEntitled(v, ops[..n], rs[..n], withBytes) &&
    ((FromBytes(ops[n]) && !withBytes) || Entitled(Observed(v, ops[..n], rs[..n]), ops[n], rs[n]))
  }

  /**
   The allocator refines the client's record: after every run, the live handles are those tracked from
   the answers alone, each with the size asked for, every issued handle still is a block boundary, and
   the input is what the client set last and has not freed.
   */
  lemma {:induction false} RunRefinesHandleMap(h: Heap, v: View, ops: seq<Op>, cap: nat, rs: seq<Outcome>)
    requires WellFormed(h) && h.pages <= cap <= MAX_PAGES && Sees(h, v)
    requires RunInContract(h, ops, cap) && AnswersOf(h, ops, cap, rs)
    ensures Sees(Run(h, ops, cap), Observed(v, ops, rs))
    ensures AllEntitled(v, ops, rs, false)
    decreases |ops|
  {
    if ops != [] {
      var n := |ops| - 1;
      ContractOfPrefix(h, ops, cap, n);
      assert CallInContract(h, ops, cap, n);
      RunRefinesHandleMap(h, v, ops[..n], cap, rs[..n]);
      StepObserved(Run(h, ops[..n], cap), Observed(v, ops[..n], rs[..n]), ops[n], cap, rs[n]);
    }
  }
}
