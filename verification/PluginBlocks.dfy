/** Otoroshi's plugin memory as a value: a map of live blocks, an out-of-band free list and a bump position. */
module PluginBlocks {
  import opened LinearMemory

  const BLOCK_SIZE_THRESHOLD := 32
  const COMPACTION_SIZE := 1024
  const USIZE_MAX := 0xFFFF_FFFF_FFFF_FFFF

  type usize = x: int | 0 <= x <= USIZE_MAX

  datatype MemoryBlock = MemoryBlock(offset: nat, length: nat)

  datatype Result = Ok(block: MemoryBlock) | GrowFailed

  datatype Memory = Memory(free: seq<MemoryBlock>, live: map<nat, nat>, position: nat, pages: nat)

  function New(pages: nat): Memory
  {
    Memory([], map[], 1, pages)
  }

  function SaturatingSub(a: nat, b: nat): nat
  {
    if a < b then 0 else a - b
  }

  function SaturatingAdd(a: nat, b: nat): nat
  {
    if USIZE_MAX < a + b then USIZE_MAX else a + b
  }

  predicate Serves(b: MemoryBlock, n: nat)
  {
    b.length == n || BLOCK_SIZE_THRESHOLD <= SaturatingSub(b.length, n)
  }

  /** The first free block at or after `i` that serves `n` bytes, or `|free|`. */
  function FirstServing(free: seq<MemoryBlock>, n: nat, i: nat): (r: nat)
    requires i <= |free|
    ensures i <= r <= |free|
    ensures forall j :: i <= j < r ==> !Serves(free[j], n)
    ensures r < |free| ==> Serves(free[r], n)
    decreases |free| - i
  {
    if i == |free| || Serves(free[i], n) then i else FirstServing(free, n, i + 1)
  }

  lemma FirstServingIs(free: seq<MemoryBlock>, n: nat, i: nat)
    requires i <= |free| && (forall j :: 0 <= j < i ==> !Serves(free[j], n))
    requires i < |free| ==> Serves(free[i], n)
    ensures FirstServing(free, n, 0) == i
  {
  }

  function SwapRemove(s: seq<MemoryBlock>, i: nat): seq<MemoryBlock>
    requires i < |s|
  {
    s[i := s[|s| - 1]][..|s| - 1]
  }

  function Ceiling(x: real): int
  {
    -((-x).Floor)
  }

  /** Pages to request so that `newOffset` bytes are there; at least one. */
  function PagesNeeded(newOffset: nat, size: nat): nat
    requires size <= newOffset
  {
    var bytesNeeded := (newOffset as real - size as real) / PAGE_SIZE as real;
    var pages := Ceiling(bytesNeeded);
    if pages <= 0 then 1 else pages
  }

  function Alloc(m: Memory, n: nat, cap: nat): (Memory, Result)
  {
    var i := FirstServing(m.free, n, 0);
    if i < |m.free| then
      var b := m.free[i];
      if b.length == n then
        (m.(free := SwapRemove(m.free, i), live := m.live[b.offset := n]), Ok(b))
      else
        (m.(free := m.free[i := MemoryBlock(b.offset + n, b.length - n)], live := m.live[b.offset := n]),
         Ok(MemoryBlock(b.offset, n)))
    else
      var newOffset := SaturatingAdd(m.position, n);
      var extra := if PAGE_SIZE * m.pages <= newOffset then PagesNeeded(newOffset, PAGE_SIZE * m.pages) else 0;
      if extra != 0 && cap < m.pages + extra then (m, GrowFailed)
      else
        (m.(live := m.live[m.position := n], position := m.position + n, pages := m.pages + extra),
         Ok(MemoryBlock(m.position, n)))
  }

  function TotalLength(bs: seq<MemoryBlock>): nat
  {
    if bs == [] then 0 else TotalLength(bs[..|bs| - 1]) + bs[|bs| - 1].length
  }

  predicate Adjacent(a: MemoryBlock, b: MemoryBlock)
  {
    a.offset + a.length == b.offset
  }

  function Merge(a: MemoryBlock, b: MemoryBlock): MemoryBlock
  {
    MemoryBlock(a.offset, a.length + b.length)
  }

  /** What the compaction loop keeps of block `i`: the first block, or its union with an adjacent predecessor. */
  function Pieces(bs: seq<MemoryBlock>, i: nat): seq<MemoryBlock>
    requires i < |bs|
  {
    if i == 0 then [bs[0]]
    else if Adjacent(bs[i - 1], bs[i]) then [Merge(bs[i - 1], bs[i])]
    else []
  }

  function Compact(bs: seq<MemoryBlock>): seq<MemoryBlock>
  {
    if bs == [] then [] else Compact(bs[..|bs| - 1]) + Pieces(bs, |bs| - 1)
  }

  function Free(m: Memory, offset: nat): Memory
  {
    if offset !in m.live then m else
    var free := m.free + [MemoryBlock(offset, m.live[offset])];
    m.(live := m.live - {offset}, free := if TotalLength(free) < COMPACTION_SIZE then free else Compact(free))
  }

  function Reset(m: Memory): Memory
  {
    m.(free := [], live := map[], position := 1)
  }
}
