/** Otoroshi's plugin memory as the object whose fields the source updates. */
module CustomMemory {
  import opened Wrappers
  import opened LinearMemory
  import opened PluginBlocks

  class PluginMemory {
    var live: map<nat, nat>
    var free: seq<MemoryBlock>
    var position: nat
    var pages: nat
    const cap: nat

    ghost function State(): Memory
      reads this
    {
      Memory(free, live, position, pages)
    }

    constructor (pages: nat, cap: nat)
      ensures State() == New(pages) && this.cap == cap
    {
      free, live, position := [], map[], 1;
      this.pages := pages;
      this.cap := cap;
    }

    /** Reserve `n` bytes: the first free block that serves, whole or its front, and otherwise the bump position. */
    method Alloc(n: usize) returns (r: Result)
      modifies this
      ensures (State(), r) == PluginBlocks.Alloc(old(State()), n, cap)
    {
      var i := 0;
      while i < |free|
        invariant 0 <= i <= |free| && State() == old(State())
        invariant forall j :: 0 <= j < i ==> !Serves(free[j], n)
      {
        var block := free[i];
        if block.length == n {
          FirstServingIs(free, n, i);
          free := SwapRemove(free, i);
          live := live[block.offset := block.length];
          return Ok(block);
        } else if SaturatingSub(block.length, n) >= BLOCK_SIZE_THRESHOLD {
          FirstServingIs(free, n, i);
          free := free[i := MemoryBlock(block.offset + n, block.length - n)];
          live := live[block.offset := n];
          return Ok(MemoryBlock(block.offset, n));
        }
        i := i + 1;
      }
      FirstServingIs(free, n, i);
      var newOffset := SaturatingAdd(position, n);
      if newOffset >= PAGE_SIZE * pages {
        var pagesNeeded := PagesNeeded(newOffset, PAGE_SIZE * pages);
        if pages + pagesNeeded > cap {
          return GrowFailed;
        }
        pages := pages + pagesNeeded;
      }
      var mem := MemoryBlock(position, n);
      live := live[mem.offset := mem.length];
      position := position + n;
      r := Ok(mem);
    }

    /** Free the block at `offset`, then compact once at least a kilobyte is free. */
    method Free(offset: usize)
      modifies this
      ensures State() == PluginBlocks.Free(old(State()), offset)
    {
      if offset !in live {
        return;
      }
      free := free + [MemoryBlock(offset, live[offset])];
      live := live - {offset};
      var freeSize := FreeSize();
      if freeSize >= COMPACTION_SIZE {
        Compaction();
      }
    }

    method FreeSize() returns (size: nat)
      ensures size == TotalLength(free)
    {
      size := 0;
      var i := 0;
      while i < |free|
        invariant 0 <= i <= |free| && size == TotalLength(free[..i])
      {
        assert free[..i + 1][..i] == free[..i];
        size := size + free[i].length;
        i := i + 1;
      }
      assert free[..i] == free;
    }

    /** The compaction loop: `last` is the previous block of the old list, not the merged one. */
    method Compaction()
      modifies this`free
      ensures free == Compact(old(free))
    {
      var last: Option<MemoryBlock> := None;
      var kept := [];
      var i := 0;
      while i < |free|
        invariant 0 <= i <= |free| && free == old(free)
        invariant last == if i == 0 then None else Some(free[i - 1])
        invariant kept == Compact(free[..i])
      {
        assert free[..i + 1][..i] == free[..i];
        assert Pieces(free[..i + 1], i) == Pieces(free, i);
        var block := free[i];
        match last {
          case None => kept := kept + [block];
          case Some(l) =>
            if l.offset + l.length == block.offset {
              kept := kept + [MemoryBlock(l.offset, l.length + block.length)];
            }
        }
        last := Some(block);
        i := i + 1;
      }
      assert free[..i] == free;
      free := kept;
    }

    method Reset()
      modifies this
      ensures State() == PluginBlocks.Reset(old(State()))
    {
      free := [];
      live := map[];
      position := 1;
    }

    method BlockLength(offs: usize) returns (r: Option<nat>)
      ensures r == if offs in live then Some(live[offs]) else None
    {
      r := if offs in live then Some(live[offs]) else None;
    }

    method AtOffset(offset: usize) returns (r: Option<MemoryBlock>)
      ensures r == if offset in live then Some(MemoryBlock(offset, live[offset])) else None
    {
      var blockLength := BlockLength(offset);
      match blockLength
      case None => r := None;
      case Some(length) => r := Some(MemoryBlock(offset, length));
    }
  }
}
