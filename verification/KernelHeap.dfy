/**
 The kernel allocator, seen as a list of blocks and the fields of its root record.

 The blocks tile the address range that starts at `BLOCKS`: block `i` has its header at
 `Addr(blocks, i)` and its data `HEADER` bytes later, which is also the handle that clients hold.
 */
module KernelHeap {
  import opened LittleEndian
  import opened LinearMemory
  import opened Wrappers

  const ROOT_SIZE := 64
  const BLOCKS := 65
  const HEADER := 12
  const SPLIT_EXCESS := 128
  const FIRST_LENGTH := PAGE_SIZE - ROOT_SIZE

  type u32 = x: int | 0 <= x < U32_LIMIT
  type u64 = x: int | 0 <= x < U64_LIMIT

  /**
   What a call into the kernel gives back: a value, or a WebAssembly trap. `Astray` stands for a search
   whose pointer wrapped around 2^32 and goes on over the root record, and for an allocation beyond
   memory: nothing is claimed of these.
   */
  datatype Outcome = Value(value: nat) | Trap | Astray

  datatype Status = Unused | Active | Free

  datatype Block = Block(status: Status, size: nat, used: u32)

  datatype Heap = Heap(
    blocks: seq<Block>,
    pages: nat,
    length: nat,
    error: u64,
    inputOffset: u64,
    inputLength: u64,
    outputOffset: u64,
    outputLength: u64)

  // ----- Layout -----

  function Addr(bs: seq<Block>, i: nat): (a: nat)
    requires i <= |bs|
    ensures BLOCKS + HEADER * i <= a
  {
    if i == 0 then BLOCKS else Addr(bs, i - 1) + HEADER + bs[i - 1].size
  }

  function End(bs: seq<Block>): nat
  {
    Addr(bs, |bs|)
  }

  function Position(bs: seq<Block>): nat
  {
    End(bs) - BLOCKS
  }

  function Handle(bs: seq<Block>, i: nat): nat
    requires i < |bs|
  {
    Addr(bs, i) + HEADER
  }

  /** What the representation and its address arithmetic rely on. */
  ghost predicate Sane(h: Heap)
  {
    && Position(h.blocks) + ROOT_SIZE <= h.length
    && h.length + ROOT_SIZE <= PAGE_SIZE * h.pages
    && h.pages <= MAX_PAGES
  }

  function Init(initialPages: nat): Heap
  {
    Heap([], if initialPages == 0 then 1 else initialPages, FIRST_LENGTH, 0, 0, 0, 0, 0)
  }

  // ----- Allocation -----

  function NumPages(nbytes: nat): nat
  {
    if nbytes % PAGE_SIZE != 0 then nbytes / PAGE_SIZE + 1 else nbytes / PAGE_SIZE
  }

  predicate Fits(b: Block, n: nat)
  {
    b.status == Unused || (b.status == Free && n <= b.size)
  }

  /** The first block at or after `i` that can be reused for `n` bytes, or `|bs|`. */
  function FirstFit(bs: seq<Block>, n: nat, i: nat): (r: nat)
    requires i <= |bs|
    ensures i <= r <= |bs|
    ensures forall j :: i <= j < r ==> !Fits(bs[j], n)
    ensures r < |bs| ==> Fits(bs[r], n)
    decreases |bs| - i
  {
    if i == |bs| || Fits(bs[i], n) then i else FirstFit(bs, n, i + 1)
  }

  lemma FirstFitIs(bs: seq<Block>, n: nat, i: nat)
    requires i <= |bs| && (forall j :: 0 <= j < i ==> !Fits(bs[j], n))
    requires i < |bs| ==> Fits(bs[i], n)
    ensures FirstFit(bs, n, 0) == i
  {
  }

  predicate Splits(b: Block, n: nat)
  {
    b.status == Free && n + SPLIT_EXCESS <= b.size
  }

  /** Cut the requested bytes off the tail of block `i` when the excess is large: the blocks, and the one to use. */
  function Carve(bs: seq<Block>, i: nat, n: nat): (seq<Block>, nat)
    requires i < |bs|
  {
    if Splits(bs[i], n) then
      (bs[..i] + [Block(Free, bs[i].size - n - HEADER, 0), Block(Free, n, 0)] + bs[i + 1..], i + 1)
    else
      (bs, i)
  }

  function Activate(bs: seq<Block>, i: nat, n: u32): seq<Block>
    requires i < |bs|
  {
    bs[i := Block(Active, bs[i].size, n)]
  }

  /**
   Pages the bump path asks for, or `None` when the bytes left suffice. The sum of request and header
   is a wrapping u64 and the page count is truncated to 32 bits.
   */
  function GrowthFor(h: Heap, n: u64): Option<nat>
    requires Position(h.blocks) + ROOT_SIZE <= h.length
  {
    var left := h.length - Position(h.blocks) - ROOT_SIZE;
    var needed := (n + HEADER) % U64_LIMIT;
    if left <= needed then Some(NumPages(needed - left) % U32_LIMIT) else None
  }

  /** The pages asked for, if any, are refused by the environment or exceed the cap. */
  predicate Refused(h: Heap, growth: Option<nat>, cap: nat, granted: bool)
  {
    growth.Some? && !(granted && h.pages + growth.value <= cap)
  }

  /** No block fits, yet a request of 2^32 bytes or more gets past the growth check. */
  predicate Overruns(h: Heap, n: u64, cap: nat, granted: bool)
    requires Sane(h)
  {
    && U32_LIMIT <= n
    && FirstFit(h.blocks, n % U32_LIMIT, 0) == |h.blocks|
    && !Refused(h, GrowthFor(h, n), cap, granted)
  }

  /**
   Kernel `alloc`: the heap afterwards and the handle, or 0. Memory may grow to `cap` pages, if the
   environment has `granted` it. Blocks record the size truncated to 32 bits. An overrun would put the
   position outside memory; it is not modelled, and nothing happens here.
   */
  function Alloc(h: Heap, n: u64, cap: nat, granted: bool): (Heap, nat)
    requires Sane(h)
  {
    if n == 0 then (h, 0) else
    var m := n % U32_LIMIT;
    var i := FirstFit(h.blocks, m, 0);
    if i < |h.blocks| then
      var (bs, k) := Carve(h.blocks, i, m);
      (h.(blocks := Activate(bs, k, m)), Addr(bs, k) + HEADER)
    else
      var g := GrowthFor(h, n);
      if Refused(h, g, cap, granted) || U32_LIMIT <= n then (h, 0)
      else
        var extra := if g.Some? then g.value else 0;
        (h.(blocks := h.blocks + [Block(Active, n, n)],
            pages := h.pages + extra,
            length := h.length + PAGE_SIZE * extra),
         End(h.blocks) + HEADER)
  }

  // ----- Finding, freeing, measuring -----

  predicate InBoundsFast(h: Heap, p: nat)
  {
    ROOT_SIZE <= p <= PAGE_SIZE * h.pages
  }

  predicate InBounds(h: Heap, p: nat)
  {
    BLOCKS <= p < BLOCKS + h.length
  }

  predicate LiveAt(bs: seq<Block>, i: nat, p: nat)
  {
    i < |bs| && bs[i].status == Active && Handle(bs, i) == p
  }

  /** The Active block at or after `i` whose data starts at `p`, or `|bs|`. */
  function IndexOf(bs: seq<Block>, p: nat, i: nat): (r: nat)
    requires i <= |bs|
    ensures i <= r <= |bs|
    ensures forall j :: i <= j < r ==> !LiveAt(bs, j, p)
    ensures r < |bs| ==> LiveAt(bs, r, p)
    decreases |bs| - i
  {
    if i == |bs| || LiveAt(bs, i, p) then i else IndexOf(bs, p, i + 1)
  }

  /** The handle map: the requested size of the live block at handle `p`. */
  function Lookup(bs: seq<Block>, p: nat): Option<nat>
  {
    var i := IndexOf(bs, p, 0);
    if i < |bs| then Some(bs[i].used) else None
  }

  /**
   A search that misses keeps walking, in steps of one header, through the zero bytes above the bump
   position until it passes `BLOCKS + p`. This says when its last header read leaves memory.
   */
  predicate WalkTraps(h: Heap, p: nat)
  {
    var position := Position(h.blocks);
    position < p && PAGE_SIZE * h.pages < BLOCKS + position + HEADER * ((p - position - 1) / HEADER) + 8
  }

  /** In a memory of 65536 pages the step from the topmost header may land on 2^32, which is address 0. */
  predicate WalkWraps(h: Heap, p: nat)
  {
    var end := End(h.blocks);
    h.pages == MAX_PAGES && end + 8 <= U32_LIMIT &&
    var top := end + HEADER * ((U32_LIMIT - 8 - end) / HEADER);
    U32_LIMIT - HEADER <= top < BLOCKS + p
  }

  /** The search for `p` does not wrap around; below 65536 pages none does. */
  predicate Settled(h: Heap, p: nat)
  {
    !InBoundsFast(h, p) || Lookup(h.blocks, p).Some? || !WalkWraps(h, p)
  }

  datatype Search = At(index: nat) | Missing | Trapped | Wrapped

  function FindBlock(h: Heap, p: nat): Search
  {
    if !InBoundsFast(h, p) then Missing else
    var i := IndexOf(h.blocks, p, 0);
    if i < |h.blocks| then At(i)
    else if WalkWraps(h, p) then Wrapped
    else if WalkTraps(h, p) then Trapped
    else Missing
  }

  function FreeAt(h: Heap, i: nat, p: nat): Heap
    requires i < |h.blocks|
  {
    h.(blocks := h.blocks[i := h.blocks[i].(status := Free)],
       inputLength := if p == h.inputOffset then 0 else h.inputLength)
  }

  function FreeHandle(h: Heap, p: nat): (Heap, Outcome)
  {
    if p == 0 then (h, Value(0)) else
    match FindBlock(h, p)
    case At(i) => assert i < |h.blocks|; (FreeAt(h, i, p), Value(0))
    case Missing => (h, Value(0))
    case Trapped => (h, Trap)
    case Wrapped => (h, Astray)
  }

  function Length(h: Heap, p: nat): Outcome
  {
    if p == 0 then Value(0) else
    match FindBlock(h, p)
    case At(i) => assert i < |h.blocks|; Value(h.blocks[i].used)
    case Missing => Value(0)
    case Trapped => Trap
    case Wrapped => Astray
  }

  // ----- Root record -----

  function Reset(h: Heap): Heap
  {
    Heap([], h.pages, h.length, 0, 0, 0, 0, 0)
  }

  /** Both ends of `[p, p + len)` are in bounds; the address of the last byte is a wrapping u64. */
  predicate RangeInBounds(h: Heap, p: u64, len: u64)
  {
    InBounds(h, p) && InBounds(h, (p + len - 1) % U64_LIMIT)
  }

  function InputSet(h: Heap, p: u64, len: u64): Heap
  {
    if RangeInBounds(h, p, len) then h.(inputOffset := p, inputLength := len) else h
  }

  function OutputSet(h: Heap, p: u64, len: u64): Heap
  {
    if RangeInBounds(h, p, len) then h.(outputOffset := p, outputLength := len) else h
  }

  function ErrorSet(h: Heap, p: u64): Heap
  {
    if p == 0 || InBounds(h, p) then h.(error := p) else h
  }
}
