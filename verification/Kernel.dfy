/**
 The kernel itself: one growable byte array that holds the root record, the block headers and the
 data, walked by address. `heap` is the ghost view of those bytes.
 */
module Kernel {
  import opened KernelHeap
  import opened LinearMemory
  import opened LittleEndian
  import opened HeapLayout
  import opened HeapInvariant
  import opened HeapBytes
  import opened HeapPayload

  /** Where a search by address ends: at a header, nowhere, or in a read outside memory. */
  datatype Probe = Hit(block: nat) | Miss | Fault

  class Kernel {
    var mem: array<byte>
    const cap: nat
    ghost var heap: Heap

    ghost predicate Valid()
      reads this, mem
    {
      && cap <= MAX_PAGES
      && heap.pages <= cap
      && WellFormed(heap)
      && Represents(mem[..], heap)
    }

    /** The first call into the kernel, over zeroed memory. */
    constructor (initialPages: nat, cap: nat)
      requires initialPages <= cap && 1 <= cap <= MAX_PAGES
      ensures Valid() && fresh(mem)
      ensures heap == Init(initialPages) && this.cap == cap
    {
      var pages := if initialPages == 0 then 1 else initialPages;
      this.cap := cap;
      mem := new byte[PAGE_SIZE * pages](_ => 0);
      heap := Init(initialPages);
      new;
      ghost var m := mem[..];
      InitRoot();
      ghost var m1 := mem[..];
      forall a | BLOCKS <= a < BLOCKS + HEADER {
        mem[a] := 0;
      }
      ghost var m' := mem[..];
      assert SameOutside(m1, m', BLOCKS, BLOCKS + HEADER) && SameOutside(m, m', 0, BLOCKS);
      forall f: nat | f < ROOT_FIELDS
        ensures Load(m', RootAddr(f), 8) == if f == LENGTH then FIRST_LENGTH else 0
      {
        LoadFrame(m1, m', BLOCKS, BLOCKS + HEADER, RootAddr(f), 8);
      }
      InitStep(m, m', initialPages);
      InitWellFormed(initialPages);
    }

    /** The flag and the seven fields, in the order they are written. */
    method InitRoot()
      requires BLOCKS <= mem.Length
      modifies mem
      ensures SameOutside(old(mem[..]), mem[..], 0, BLOCKS) && mem[INITIALIZED] == 1
      ensures forall f: nat :: f < ROOT_FIELDS ==>
                Load(mem[..], RootAddr(f), 8) == if f == LENGTH then FIRST_LENGTH else 0
    {
      WriteByte(INITIALIZED, 1);
      ghost var m0 := mem[..];
      WriteU64(RootAddr(INPUT_OFFSET), 0);
      ghost var m1 := mem[..];
      WriteU64(RootAddr(INPUT_LENGTH), 0);
      ghost var m2 := mem[..];
      WriteU64(RootAddr(OUTPUT_OFFSET), 0);
      ghost var m3 := mem[..];
      WriteU64(RootAddr(OUTPUT_LENGTH), 0);
      ghost var m4 := mem[..];
      WriteU64(RootAddr(ERROR), 0);
      ghost var m5 := mem[..];
      WriteU64(RootAddr(LENGTH), FIRST_LENGTH);
      ghost var m6 := mem[..];
      WriteU64(RootAddr(POSITION), 0);
      ghost var m7 := mem[..];
      forall f: nat | f < ROOT_FIELDS
        ensures Load(m7, RootAddr(f), 8) == if f == LENGTH then FIRST_LENGTH else 0
      {
        RootWord(m0, m1, INPUT_OFFSET, 0, f);
        RootWord(m1, m2, INPUT_LENGTH, 0, f);
        RootWord(m2, m3, OUTPUT_OFFSET, 0, f);
        RootWord(m3, m4, OUTPUT_LENGTH, 0, f);
        RootWord(m4, m5, ERROR, 0, f);
        RootWord(m5, m6, LENGTH, FIRST_LENGTH, f);
        RootWord(m6, m7, POSITION, 0, f);
      }
    }

    // ----- Memory access -----

    method WriteWord(a: nat, k: nat, x: nat)
      requires a + k <= mem.Length && x < Pow256(k)
      modifies mem
      ensures Wrote(old(mem[..]), mem[..], a, k, x)
    {
      ghost var m := mem[..];
      forall i | 0 <= i < k {
        mem[a + i] := Encode(x, k)[i];
      }
      assert mem[..] == Store(m, a, k, x);
      StoreWrote(m, a, k, x);
    }

    method WriteU32(a: nat, x: u32)
      requires a + 4 <= mem.Length
      modifies mem
      ensures Wrote(old(mem[..]), mem[..], a, 4, x)
    {
      WordSizes();
      WriteWord(a, 4, x);
    }

    method WriteU64(a: nat, x: u64)
      requires a + 8 <= mem.Length
      modifies mem
      ensures Wrote(old(mem[..]), mem[..], a, 8, x)
    {
      WordSizes();
      WriteWord(a, 8, x);
    }

    method WriteByte(a: nat, v: byte)
      requires a < mem.Length
      modifies mem
      ensures WroteByte(old(mem[..]), mem[..], a, v)
    {
      mem[a] := v;
    }

    method ReadRoot(f: nat) returns (v: nat)
      requires Represents(mem[..], heap) && f < ROOT_FIELDS
      ensures v == RootField(heap, f)
    {
      v := Load(mem[..], RootAddr(f), 8);
    }

    method WriteRoot(f: nat, v: u64)
      requires Valid() && POSITION < f < ROOT_FIELDS
      requires f == LENGTH ==> heap.length <= v && v + ROOT_SIZE <= PAGE_SIZE * heap.pages
      modifies mem, this`heap
      ensures Valid() && heap == SetRoot(old(heap), f, v)
      ensures SameOutside(old(mem[..]), mem[..], RootAddr(f), RootAddr(f) + 8)
    {
      ghost var m := mem[..];
      WriteU64(RootAddr(f), v);
      RootWritten(m, mem[..], heap, f, v);
      heap := SetRoot(heap, f, v);
    }

    /** `memory.grow`: zeroed pages, or failure when the cap is reached or the environment refuses. */
    method MemoryGrow(npages: u32, granted: bool) returns (ok: bool)
      requires Valid()
      modifies this`mem, this`heap
      ensures Valid()
      ensures ok <==> granted && old(heap).pages + npages <= cap
      ensures heap == if ok then old(heap).(pages := old(heap).pages + npages) else old(heap)
      ensures ok ==> fresh(mem) && old(mem[..]) <= mem[..]
      ensures !ok ==> mem == old(mem)
    {
      var size := mem.Length;
      ok := granted && size / PAGE_SIZE + npages <= cap;
      if ok {
        var was := mem;
        var bigger := new byte[size + PAGE_SIZE * npages](
          i requires 0 <= i reads was => if i < was.Length then was[i] else 0);
        MemoryGrown(mem[..], bigger[..], heap, npages);
        mem := bigger;
        heap := heap.(pages := heap.pages + npages);
      }
    }

    // ----- Allocation -----

    /** Walk the headers for a block to reuse, splitting it when it is much too large; 0 when there is none. */
    method FindFreeBlock(n: u32, position: nat) returns (block: nat)
      requires Represents(mem[..], heap) && position == Position(heap.blocks)
      modifies mem, this`heap
      ensures var i := FirstFit(old(heap).blocks, n, 0);
              if i < |old(heap).blocks| then
                var (cs, k) := Carve(old(heap).blocks, i, n);
                && k < |cs| && block == Addr(cs, k)
                && heap == old(heap).(blocks := cs) && Represents(mem[..], heap)
                && SameOutside(old(mem[..]), mem[..], Addr(old(heap).blocks, i), Addr(old(heap).blocks, i + 1))
              else block == 0 && heap == old(heap) && mem[..] == old(mem[..])
    {
      ghost var bs, m, i := heap.blocks, mem[..], 0;
      block := BLOCKS;
      while block < BLOCKS + position
        invariant i <= |bs| && block == Addr(bs, i)
        invariant forall j :: 0 <= j < i ==> !Fits(bs[j], n)
        invariant heap == old(heap) && mem[..] == m
        decreases |bs| - i
      {
        assert BlockAt(m, bs, i);
        var status := mem[block];
        if status == StatusByte(Unused) {
          FirstFitIs(bs, n, i);
          return;
        }
        var size := Load(mem[..], block + 4, 4);
        if status == StatusByte(Status.Free) && n <= size {
          FirstFitIs(bs, n, i);
          if size - n >= SPLIT_EXCESS {
            SplitRoom(m, heap, i, n);
            block := SplitBlock(block, size, n, i);
          }
          return;
        }
        block := block + HEADER + size;
        i := i + 1;
      }
      if i < |bs| {
        AddrIncreasing(bs, i, |bs|);
      }
      FirstFitIs(bs, n, i);
      block := 0;
    }

    method SplitBlock(block: nat, size: nat, n: u32, ghost i: nat) returns (tail: nat)
      requires Represents(mem[..], heap) && i < |heap.blocks| && Splits(heap.blocks[i], n)
      requires block == Addr(heap.blocks, i) && size == heap.blocks[i].size < U32_LIMIT
      requires block + HEADER + size <= mem.Length
      modifies mem, this`heap
      ensures tail == block + size - n
      ensures heap == old(heap).(blocks := Carve(old(heap).blocks, i, n).0) && Represents(mem[..], heap)
      ensures SameOutside(old(mem[..]), mem[..], Addr(old(heap).blocks, i), Addr(old(heap).blocks, i + 1))
    {
      ghost var m, h := mem[..], heap;
      assert BlockAt(m, h.blocks, i);
      tail := WriteSplitHeaders(block, size, n, h.blocks[i]);
      BlockSplit(m, mem[..], h, i, n, block, size - n - HEADER);
      heap := h.(blocks := Carve(h.blocks, i, n).0);
    }

    /** Shrink the block in place and write a header for its last `n` bytes. */
    method WriteSplitHeaders(block: nat, size: nat, n: u32, ghost b: Block) returns (tail: nat)
      requires n + SPLIT_EXCESS <= size < U32_LIMIT && block + HEADER + size <= mem.Length
      requires HeaderAt(mem[..], block, b)
      modifies mem
      ensures tail == block + size - n
      ensures SameOutside(old(mem[..]), mem[..], block, block + HEADER + size)
      ensures HeaderAt(mem[..], block, Block(b.status, size - n - HEADER, 0))
      ensures HeaderAt(mem[..], tail, Block(Status.Free, n, 0))
    {
      ghost var m0 := mem[..];
      var rest := size - n - HEADER;
      WriteU32(block + 4, rest);
      ghost var m1 := mem[..];
      WriteU32(block + 8, 0);
      ghost var m2 := mem[..];
      SizeWritten(m0, m1, block, b, rest);
      UsedWritten(m1, m2, block, b.(size := rest), 0);
      tail := block + HEADER + rest;
      WriteU32(tail + 4, n);
      ghost var m3 := mem[..];
      WriteU32(tail + 8, 0);
      ghost var m4 := mem[..];
      WriteByte(tail, StatusByte(Status.Free));
      HeaderWritten(m2, m3, m4, mem[..], tail, Block(Status.Free, n, 0));
      HeaderFrame(m2, mem[..], tail, tail + HEADER, block, Block(b.status, rest, 0));
    }

    method MarkUsed(block: nat, n: u32, ghost k: nat)
      requires Represents(mem[..], heap) && k < |heap.blocks| && block == Addr(heap.blocks, k)
      modifies mem, this`heap
      ensures heap == old(heap).(blocks := Activate(old(heap).blocks, k, n)) && Represents(mem[..], heap)
      ensures SameOutside(old(mem[..]), mem[..], block, block + HEADER)
    {
      ghost var m := mem[..];
      ExtentInMemory(m, heap, k);
      WriteU32(block + 8, n);
      ghost var m1 := mem[..];
      WriteByte(block, StatusByte(Active));
      ActiveStep(m, m1, mem[..], heap, k, n);
      heap := heap.(blocks := Activate(heap.blocks, k, n));
    }

    /** Take the block `FindFreeBlock` chose. */
    method Reuse(n: u32, position: nat) returns (block: nat)
      requires Valid() && position == Position(heap.blocks)
      modifies mem, this`heap
      ensures Valid()
      ensures var i := FirstFit(old(heap).blocks, n, 0);
              if i < |old(heap).blocks| then
                var (cs, k) := Carve(old(heap).blocks, i, n);
                && k < |cs| && block == Addr(cs, k)
                && heap == old(heap).(blocks := Activate(cs, k, n))
              else block == 0 && heap == old(heap) && mem[..] == old(mem[..])
      ensures LiveDataKept(old(mem[..]), mem[..], old(heap.blocks))
    {
      ghost var m, bs, i := mem[..], heap.blocks, FirstFit(heap.blocks, n, 0);
      if i < |bs| {
        ReuseWellFormed(heap, i, n);
      }
      block := FindFreeBlock(n, position);
      if block != 0 {
        ghost var m1 := mem[..];
        MarkUsed(block, n, Carve(bs, i, n).1);
        ReuseKept(m, m1, mem[..], bs, i, n);
      } else {
        OutsideBlocksKept(m, m, bs, 0, 0);
      }
    }

    /** Make room for `n` more bytes behind the bump position, growing memory when needed. */
    method EnsureRoom(n: u64, position: nat, length: nat, granted: bool) returns (ok: bool)
      requires Valid() && position == Position(heap.blocks) && length == heap.length
      requires U32_LIMIT <= n ==> Refused(heap, GrowthFor(heap, n), cap, granted)
      modifies this, mem
      ensures Valid() && (mem == old(mem) || fresh(mem)) && heap.blocks == old(heap).blocks
      ensures var g := GrowthFor(old(heap), n);
              var extra := if g.Some? then g.value else 0;
              && ok == !Refused(old(heap), g, cap, granted)
              && heap == if ok then old(heap).(pages := old(heap).pages + extra, length := length + PAGE_SIZE * extra)
                         else old(heap)
      ensures LiveDataKept(old(mem[..]), mem[..], old(heap.blocks))
    {
      ghost var m, bs := mem[..], heap.blocks;
      OutsideBlocksKept(m, m, bs, 0, 0);
      var left := length - position - ROOT_SIZE;
      var needed := (n + HEADER) % U64_LIMIT;
      if left <= needed {
        var npages := NumPages(needed - left) % U32_LIMIT;
        ok := MemoryGrow(npages, granted);
        if ok {
          ghost var m1 := mem[..];
          assert LiveDataKept(m, m1, bs) by {
            PrefixKept(m, m1, bs);
          }
          var more := length + PAGE_SIZE * npages;
          WriteRoot(LENGTH, more);
          OutsideBlocksKept(m1, mem[..], bs, RootAddr(LENGTH), RootAddr(LENGTH) + 8);
          KeptTransitive(m, m1, mem[..], bs);
        }
      } else {
        ok := true;
      }
    }

    /** Put a live block of `n` bytes at the bump position. */
    method Append(n: u32, position: nat)
      requires Valid() && position == Position(heap.blocks)
      requires position + HEADER + n + ROOT_SIZE <= heap.length
      modifies mem, this`heap
      ensures Valid()
      ensures heap == old(heap).(blocks := old(heap).blocks + [Block(Active, n, n)])
      ensures LiveDataKept(old(mem[..]), mem[..], old(heap.blocks))
    {
      ghost var m, h := mem[..], heap;
      AppendWellFormed(h, n);
      BumpPosition(h.blocks, Block(Active, n, n));
      ghost var m1 := WriteAppended(n, position);
      BlockAppended(m, m1, mem[..], h, Block(Active, n, n));
      AppendedKept(m, m1, mem[..], h.blocks);
      heap := h.(blocks := h.blocks + [Block(Active, n, n)]);
    }

    /** Move the position, then write the header; `m1` is memory in between. */
    method WriteAppended(n: u32, position: nat) returns (ghost m1: seq<byte>)
      requires BLOCKS + position + HEADER <= mem.Length && position + HEADER + n < U64_LIMIT
      modifies mem
      ensures Wrote(old(mem[..]), m1, RootAddr(POSITION), 8, position + HEADER + n)
      ensures SameOutside(m1, mem[..], BLOCKS + position, BLOCKS + position + HEADER)
      ensures HeaderAt(mem[..], BLOCKS + position, Block(Active, n, n))
    {
      var curr := BLOCKS + position;
      WriteU64(RootAddr(POSITION), position + HEADER + n);
      m1 := mem[..];
      WriteByte(curr, StatusByte(Active));
      ghost var m2 := mem[..];
      WriteU32(curr + 4, n);
      ghost var m3 := mem[..];
      WriteU32(curr + 8, n);
      HeaderWrittenStatusFirst(m1, m2, m3, mem[..], curr, Block(Active, n, n));
    }

    /** The bump path: a new block behind all others, growing memory when needed. */
    method Bump(n: u64, position: nat, length: nat, granted: bool) returns (p: nat)
      requires Valid() && 1 <= n && position == Position(heap.blocks) && length == heap.length
      requires FirstFit(heap.blocks, n % U32_LIMIT, 0) == |heap.blocks|
      requires !Overruns(heap, n, cap, granted)
      modifies this, mem
      ensures Valid() && (mem == old(mem) || fresh(mem))
      ensures (heap, p) == KernelHeap.Alloc(old(heap), n, cap, granted)
      ensures LiveDataKept(old(mem[..]), mem[..], old(heap.blocks))
    {
      ghost var m, h := mem[..], heap;
      var ok := EnsureRoom(n, position, length, granted);
      if !ok {
        return 0;
      }
      GrowthSuffices(h, n);
      ghost var m1 := mem[..];
      Append(n, position);
      KeptTransitive(m, m1, mem[..], h.blocks);
      p := BLOCKS + position + HEADER;
    }

    /** Kernel `alloc`; `granted` is the environment's answer should memory have to grow. */
    method Alloc(n: u64, granted: bool) returns (p: nat)
      requires Valid() && !Overruns(heap, n, cap, granted)
      modifies this, mem
      ensures Valid() && (mem == old(mem) || fresh(mem))
      ensures (heap, p) == KernelHeap.Alloc(old(heap), n, cap, granted)
      ensures LiveDataKept(old(mem[..]), mem[..], old(heap.blocks))
    {
      if n == 0 {
        OutsideBlocksKept(mem[..], mem[..], heap.blocks, 0, 0);
        return 0;
      }
      var position := ReadRoot(POSITION);
      var length := ReadRoot(LENGTH);
      var block := Reuse(n % U32_LIMIT, position);
      if block != 0 {
        return block + HEADER;
      }
      p := Bump(n, position, length, granted);
    }

    // ----- Finding, freeing, measuring -----

    /** Walk the headers until one is the live block at `p` or the walk has passed `BLOCKS + p`. */
    method FindBlock(p: u64) returns (r: Probe)
      requires Valid() && Settled(heap, p)
      ensures match KernelHeap.FindBlock(heap, p)
              case At(i) => i < |heap.blocks| && r == Hit(Addr(heap.blocks, i))
              case Missing => r == Miss
              case _ => r == Fault
    {
      var end := mem.Length;
      if !(ROOT_SIZE <= p <= end) {
        return Miss;
      }
      ghost var i, past := 0, 0;
      var block := BLOCKS;
      while block < BLOCKS + p
        invariant Walked(i, past, p) && block == Visited(i, past)
        decreases BLOCKS + p - block
      {
        if end <= block {
          WalkLeaves(i, past, p);
          return Fault;
        }
        Visit(i, past, p);
        if mem[block] == StatusByte(Active) && block + HEADER == p {
          return Hit(block);
        }
        if end < block + 8 {
          WalkLeaves(i, past, p);
          return Fault;
        }
        block := NextAddress(block);
        i, past := NextVisit(i, past).0, NextVisit(i, past).1;
      }
      WalkEnds(i, past, p);
      return Miss;
    }

    /** `next_ptr`: a 32-bit pointer, read off the size field of the header at `a`. */
    function NextAddress(a: nat): nat
      requires a + 8 <= mem.Length
      reads this, mem
    {
      (a + HEADER + Load(mem[..], a + 4, 4)) % U32_LIMIT
    }

    /** The address a search stands at after `i` blocks and `past` zero headers above them. */
    ghost function Visited(i: nat, past: nat): nat
      requires i <= |heap.blocks|
      reads this
    {
      Addr(heap.blocks, i) + HEADER * past
    }

    /** A search for `p` got this far: nothing found yet, and the last zero header was still in memory. */
    ghost predicate Walked(i: nat, past: nat, p: nat)
      reads this, mem
    {
      && i <= |heap.blocks| && (i < |heap.blocks| ==> past == 0)
      && (forall j :: 0 <= j < i ==> !LiveAt(heap.blocks, j, p))
      && (past > 0 ==> Visited(i, past - 1) < BLOCKS + p && Visited(i, past - 1) + 8 <= mem.Length)
    }

    ghost function NextVisit(i: nat, past: nat): (nat, nat)
      reads this
    {
      if i < |heap.blocks| then (i + 1, past) else (i, past + 1)
    }

    /** One step of the search: the block looked for is here, or the size field leads to the next place. */
    lemma Visit(i: nat, past: nat, p: u64)
      requires Valid() && Walked(i, past, p) && InBoundsFast(heap, p)
      requires Settled(heap, p)
      requires Visited(i, past) < mem.Length && Visited(i, past) < BLOCKS + p
      ensures var a, (i', past') := Visited(i, past), NextVisit(i, past);
              if mem[a] == StatusByte(Active) && a + HEADER == p then
                KernelHeap.FindBlock(heap, p) == At(i) && i < |heap.blocks| && a == Addr(heap.blocks, i)
              else
                a + 8 <= mem.Length ==>
                  Walked(i', past', p) && Visited(i', past') == NextAddress(a)
    {
      if i < |heap.blocks| {
        VisitHeader(i, p);
      } else {
        VisitZero(past, p);
      }
    }

    /** A header inside the tiling: where it leads, and whether it is the block looked for. */
    lemma VisitHeader(i: nat, p: u64)
      requires Valid() && i < |heap.blocks| && InBoundsFast(heap, p) && Walked(i, 0, p)
      ensures var a := Visited(i, 0);
              && a + HEADER <= mem.Length
              && Visited(i + 1, 0) == NextAddress(a)
              && if mem[a] == StatusByte(Active) && a + HEADER == p then KernelHeap.FindBlock(heap, p) == At(i)
                 else Walked(i + 1, 0, p)
    {
      assert BlockAt(mem[..], heap.blocks, i);
      ExtentInMemory(mem[..], heap, i);
      if LiveAt(heap.blocks, i, p) {
        LookupLive(heap.blocks, i, p);
      }
    }

    /** Above the bump position the search reads Unused headers of size 0; the next one is no wrap away. */
    lemma VisitZero(past: nat, p: u64)
      requires Valid() && Walked(|heap.blocks|, past, p) && InBoundsFast(heap, p)
      requires Settled(heap, p)
      requires Visited(|heap.blocks|, past) < mem.Length && Visited(|heap.blocks|, past) < BLOCKS + p
      ensures var a := Visited(|heap.blocks|, past);
              && mem[a] == 0
              && (a + 8 <= mem.Length ==>
                    && Visited(|heap.blocks|, past + 1) == NextAddress(a)
                    && Walked(|heap.blocks|, past + 1, p))
    {
      var a := Visited(|heap.blocks|, past);
      LookupDead(heap.blocks, p);
      if a + 8 <= mem.Length {
        LoadZero(mem[..], a + 4, 4);
        StepDoesNotWrap(heap, p, past);
      }
    }

    lemma WalkLeaves(i: nat, past: nat, p: u64)
      requires Valid() && Walked(i, past, p) && InBoundsFast(heap, p)
      requires Settled(heap, p) && Visited(i, past) < BLOCKS + p && mem.Length < Visited(i, past) + 8
      ensures KernelHeap.FindBlock(heap, p) == Trapped
    {
      if i < |heap.blocks| {
        ExtentInMemory(mem[..], heap, i);
      }
      LookupDead(heap.blocks, p);
      assert past <= (p - Position(heap.blocks) - 1) / HEADER;
    }

    lemma WalkEnds(i: nat, past: nat, p: u64)
      requires Valid() && Walked(i, past, p) && BLOCKS + p <= Visited(i, past)
      requires InBoundsFast(heap, p) && Settled(heap, p)
      ensures KernelHeap.FindBlock(heap, p) == Missing
    {
      var bs := heap.blocks;
      var r := IndexOf(bs, p, 0);
      if i < |bs| {
        AddrIncreasing(bs, i, |bs|);
        if r < |bs| && i < r {
          AddrIncreasing(bs, i, r);
        }
      }
      if Position(bs) < p {
        assert (p - Position(bs) - 1) / HEADER == past - 1;
      }
    }

    /** Kernel `free`. */
    method Free(p: u64) returns (r: Outcome)
      requires Valid() && Settled(heap, p)
      modifies mem, this`heap
      ensures Valid()
      ensures (heap, r) == FreeHandle(old(heap), p)
      ensures LiveDataKept(old(mem[..]), mem[..], old(heap.blocks))
    {
      OutsideBlocksKept(mem[..], mem[..], heap.blocks, 0, 0);
      if p == 0 {
        return Value(0);
      }
      var found := FindBlock(p);
      match found
      case Miss => r := Value(0);
      case Fault => r := Trap;
      case Hit(block) =>
        ghost var h := heap;
        ghost var i := KernelHeap.FindBlock(h, p).index;
        ghost var m := mem[..];
        MarkFree(block, i);
        ghost var m1 := mem[..];
        var inputOffset := ReadRoot(INPUT_OFFSET);
        if p == inputOffset {
          WriteRoot(INPUT_LENGTH, 0);
          OutsideBlocksKept(m1, mem[..], h.blocks, RootAddr(INPUT_LENGTH), RootAddr(INPUT_LENGTH) + 8);
          KeptTransitive(m, m1, mem[..], h.blocks);
        }
        r := Value(0);
    }

    method MarkFree(block: nat, ghost i: nat)
      requires Valid() && i < |heap.blocks| && block == Addr(heap.blocks, i)
      modifies mem, this`heap
      ensures Valid()
      ensures heap == old(heap).(blocks := old(heap).blocks[i := old(heap).blocks[i].(status := Status.Free)])
      ensures LiveDataKept(old(mem[..]), mem[..], old(heap.blocks))
    {
      ghost var h, m := heap, mem[..];
      ExtentInMemory(m, h, i);
      WriteByte(block, StatusByte(Status.Free));
      FreeStep(m, mem[..], h, i);
      HeaderOnlyKept(m, mem[..], h.blocks, i);
      FreedWellFormed(h, i);
      heap := h.(blocks := h.blocks[i := h.blocks[i].(status := Status.Free)]);
    }

    /** Kernel `length`: the slow walk. */
    method Length(p: u64) returns (r: Outcome)
      requires Valid() && Settled(heap, p)
      ensures r == KernelHeap.Length(heap, p)
    {
      if p == 0 {
        return Value(0);
      }
      var found := FindBlock(p);
      match found
      case Miss => r := Value(0);
      case Fault => r := Trap;
      case Hit(block) =>
        ghost var i := KernelHeap.FindBlock(heap, p).index;
        assert BlockAt(mem[..], heap.blocks, i);
        var used := Load(mem[..], block + 8, 4);
        r := Value(used);
    }

    /** Kernel `length_unsafe`: one header read. */
    method LengthUnsafe(p: u64) returns (n: nat)
      requires Valid()
      ensures n == HeaderLength(mem[..], p)
      ensures p < 64 || mem.Length < p ==> n == 0
      ensures 64 <= p <= mem.Length ==> n == if mem[p - 12] == 1 then Load(mem[..], p - 4, 4) else 0
      ensures forall i :: 0 <= i < |heap.blocks| && Handle(heap.blocks, i) == p ==>
                n == if heap.blocks[i].status == Active then heap.blocks[i].used else 0
    {
      forall i | 0 <= i < |heap.blocks| && Handle(heap.blocks, i) == p
        ensures HeaderLength(mem[..], p) == if heap.blocks[i].status == Active then heap.blocks[i].used else 0
      {
        HeaderLengthAtBlock(mem[..], heap, i);
      }
      if p == 0 || !(ROOT_SIZE <= p <= mem.Length) {
        return 0;
      }
      var block := p - HEADER;
      if mem[block] != StatusByte(Active) {
        return 0;
      }
      n := Load(mem[..], block + 8, 4);
    }

    // ----- Root record -----

    /** Kernel `reset`. */
    method Reset()
      requires Valid()
      modifies mem, this`heap
      ensures Valid() && heap == KernelHeap.Reset(old(heap))
    {
      ClearBlocks();
      WriteRoot(ERROR, 0);
      ClearInput();
      ClearOutput();
    }

    method ClearInput()
      requires Valid()
      modifies mem, this`heap
      ensures Valid() && heap == old(heap).(inputOffset := 0, inputLength := 0)
    {
      WriteRoot(INPUT_OFFSET, 0);
      WriteRoot(INPUT_LENGTH, 0);
    }

    method ClearOutput()
      requires Valid()
      modifies mem, this`heap
      ensures Valid() && heap == old(heap).(outputOffset := 0, outputLength := 0)
    {
      WriteRoot(OUTPUT_OFFSET, 0);
      WriteRoot(OUTPUT_LENGTH, 0);
    }

    method ClearBlocks()
      requires Valid()
      modifies mem, this`heap
      ensures Valid() && heap == old(heap).(blocks := [])
    {
      ghost var m, h := mem[..], heap;
      var position := ReadRoot(POSITION);
      WriteU64(RootAddr(POSITION), 0);
      ghost var m1 := mem[..];
      forall a | BLOCKS <= a < BLOCKS + position {
        mem[a] := 0;
      }
      BlocksCleared(m, m1, mem[..], h);
      heap := h.(blocks := []);
    }

    /** `pointer_in_bounds`. */
    method PointerInBounds(p: u64) returns (ok: bool)
      requires Valid()
      ensures ok == InBounds(heap, p)
      ensures ok <==> 65 <= p < 65 + Load(mem[..], RootAddr(LENGTH), 8)
    {
      var length := ReadRoot(LENGTH);
      ok := BLOCKS <= p < BLOCKS + length;
    }

    method BothInBounds(p: u64, len: u64) returns (ok: bool)
      requires Valid()
      ensures ok == RangeInBounds(heap, p, len)
    {
      var first := PointerInBounds(p);
      var last := PointerInBounds((p + len - 1) % U64_LIMIT);
      ok := first && last;
    }

    /** Kernel `input_set`. */
    method InputSet(h: u64, len: u64)
      requires Valid()
      modifies mem, this`heap
      ensures Valid() && heap == KernelHeap.InputSet(old(heap), h, len)
      ensures SameOutside(old(mem[..]), mem[..], RootAddr(0), BLOCKS)
    {
      var ok := BothInBounds(h, len);
      if !ok {
        return;
      }
      WriteRoot(INPUT_OFFSET, h);
      WriteRoot(INPUT_LENGTH, len);
    }

    /** Kernel `output_set`. */
    method OutputSet(p: u64, len: u64)
      requires Valid()
      modifies mem, this`heap
      ensures Valid() && heap == KernelHeap.OutputSet(old(heap), p, len)
      ensures SameOutside(old(mem[..]), mem[..], RootAddr(0), BLOCKS)
    {
      var ok := BothInBounds(p, len);
      if !ok {
        return;
      }
      WriteRoot(OUTPUT_OFFSET, p);
      WriteRoot(OUTPUT_LENGTH, len);
    }

    /** Kernel `error_set`. */
    method ErrorSet(h: u64)
      requires Valid()
      modifies mem, this`heap
      ensures Valid() && heap == KernelHeap.ErrorSet(old(heap), h)
      ensures SameOutside(old(mem[..]), mem[..], RootAddr(0), BLOCKS)
    {
      if h == 0 {
        WriteRoot(ERROR, h);
        return;
      }
      var ok := PointerInBounds(h);
      if !ok {
        return;
      }
      WriteRoot(ERROR, h);
    }

    // ----- Loads and stores -----

    /** Kernel `load_u8`. */
    method LoadU8(p: u64) returns (r: Outcome)
      requires Valid()
      ensures r == ReadByte(mem[..], p)
      ensures 64 <= p < mem.Length ==> r == Value(mem[p])
      ensures p < 64 || mem.Length < p ==> r == Value(0)
    {
      if !(ROOT_SIZE <= p <= mem.Length) {
        return Value(0);
      }
      var a := p % U32_LIMIT;
      if a >= mem.Length {
        return Trap;
      }
      r := Value(mem[a]);
    }

    /** Kernel `load_u64`. */
    method LoadU64(p: u64) returns (r: Outcome)
      requires Valid()
      ensures r == ReadU64(mem[..], p)
      ensures 64 <= p + 7 < mem.Length ==> r == Value(Load(mem[..], p, 8))
      ensures p + 7 < 64 || mem.Length < p + 7 ==> r == Value(0)
    {
      var last := (p + 7) % U64_LIMIT;
      if !(ROOT_SIZE <= last <= mem.Length) {
        return Value(0);
      }
      if mem.Length < p + 8 {
        return Trap;
      }
      r := Value(Load(mem[..], p, 8));
    }

    /** Kernel `store_u8`: keeps the heap when it writes inside the data of some block. */
    method StoreU8(p: u64, x: byte) returns (r: Outcome)
      requires Valid()
      modifies mem
      ensures (mem[..], r) == PutByte(old(mem[..]), p, x)
      ensures 64 <= p < mem.Length ==> mem[..] == old(mem[..])[p := x] && r == Value(0)
      ensures p < 64 || mem.Length < p ==> mem[..] == old(mem[..]) && r == Value(0)
      ensures InData(heap.blocks, p, p + 1) ==> Valid() && r == Value(0)
    {
      ghost var m := mem[..];
      if InData(heap.blocks, p, p + 1) {
        ByteInData(p, x);
      }
      if !(ROOT_SIZE <= p <= mem.Length) {
        return Value(0);
      }
      var a := p % U32_LIMIT;
      if a >= mem.Length {
        return Trap;
      }
      WriteByte(a, x);
      r := Value(0);
      assert mem[..] == m[a := x];
    }

    /** Kernel `store_u64`. */
    method StoreU64(p: u64, x: u64) returns (r: Outcome)
      requires Valid()
      modifies mem
      ensures (mem[..], r) == PutU64(old(mem[..]), p, x)
      ensures 64 <= p + 7 < mem.Length ==> mem[..] == Store(old(mem[..]), p, 8, x) && r == Value(0)
      ensures p + 7 < 64 || mem.Length < p + 7 ==> mem[..] == old(mem[..]) && r == Value(0)
      ensures InData(heap.blocks, p, p + 8) ==> Valid() && r == Value(0)
    {
      ghost var m := mem[..];
      if InData(heap.blocks, p, p + 8) {
        WordInData(p, x);
      }
      var last := (p + 7) % U64_LIMIT;
      if !(ROOT_SIZE <= last <= mem.Length) {
        return Value(0);
      }
      if mem.Length < p + 8 {
        return Trap;
      }
      WriteU64(p, x);
      WroteIsStore(m, mem[..], p, 8, x);
      r := Value(0);
    }

    lemma ByteInData(p: u64, x: byte)
      requires Valid() && InData(heap.blocks, p, p + 1)
      ensures ROOT_SIZE <= p < mem.Length <= U32_LIMIT && Represents(mem[..][p := x], heap)
    {
      DataInMemory(p, p + 1);
      DataWritten(mem[..], mem[..][p := x], heap, p, p + 1);
    }

    lemma WordInData(p: u64, x: u64)
      requires Valid() && InData(heap.blocks, p, p + 8)
      ensures ROOT_SIZE <= p && p + 8 <= mem.Length <= U32_LIMIT && Represents(Store(mem[..], p, 8, x), heap)
    {
      DataInMemory(p, p + 8);
      DataWritten(mem[..], Store(mem[..], p, 8, x), heap, p, p + 8);
    }

    lemma DataInMemory(lo: nat, hi: nat)
      requires Valid() && InData(heap.blocks, lo, hi)
      ensures BLOCKS + HEADER <= lo && hi < mem.Length <= U32_LIMIT
    {
      var i: nat :| Within(heap.blocks, i, lo, hi);
      ExtentInMemory(mem[..], heap, i);
    }

    /** Kernel `input_load_u8`. */
    method InputLoadU8(offset: u64) returns (r: Outcome)
      requires Valid()
      ensures r == ReadInputByte(mem[..], heap, offset)
      ensures heap.inputLength <= offset ==> r == Value(0)
      ensures var a := (heap.inputOffset + offset) % U32_LIMIT;
              offset < heap.inputLength ==> r == if a < mem.Length then Value(mem[a]) else Trap
    {
      var inputLength := ReadRoot(INPUT_LENGTH);
      if inputLength <= offset {
        return Value(0);
      }
      var inputOffset := ReadRoot(INPUT_OFFSET);
      var p := (inputOffset + offset) % U32_LIMIT;
      if mem.Length <= p {
        return Trap;
      }
      r := Value(mem[p]);
    }

    /** Kernel `input_load_u64`. */
    method InputLoadU64(offset: u64) returns (r: Outcome)
      requires Valid()
      ensures r == ReadInputU64(mem[..], heap, offset)
      ensures heap.inputLength < (offset + 8) % U64_LIMIT ==> r == Value(0)
      ensures var a := (heap.inputOffset + offset) % U32_LIMIT;
              (offset + 8) % U64_LIMIT <= heap.inputLength ==>
                r == if a + 8 <= mem.Length then Value(Load(mem[..], a, 8)) else Trap
    {
      var inputLength := ReadRoot(INPUT_LENGTH);
      if inputLength < (offset + 8) % U64_LIMIT {
        return Value(0);
      }
      var inputOffset := ReadRoot(INPUT_OFFSET);
      var p := (inputOffset + offset) % U32_LIMIT;
      if mem.Length < p + 8 {
        return Trap;
      }
      r := Value(Load(mem[..], p, 8));
    }
  }
}
