/** What compaction does to the free list, and exactly when it keeps the partition. */
module PluginCompaction {
  import opened PluginBlocks
  import opened PluginPartition

  /** Block `i` of the old list contributes a block to the new one. */
  predicate Source(bs: seq<MemoryBlock>, i: nat)
  {
    i < |bs| && (i == 0 || Adjacent(bs[i - 1], bs[i]))
  }

  function Piece(bs: seq<MemoryBlock>, i: nat): MemoryBlock
    requires Source(bs, i)
  {
    if i == 0 then bs[0] else Merge(bs[i - 1], bs[i])
  }

  /** Which old blocks the new blocks come from, in order. */
  function Sources(bs: seq<MemoryBlock>): (r: seq<nat>)
    ensures |r| == |Compact(bs)|
  {
    if bs == [] then [] else
    Sources(bs[..|bs| - 1]) + if Source(bs, |bs| - 1) then [|bs| - 1] else []
  }

  lemma {:induction false} SourceOf(bs: seq<MemoryBlock>, k: nat)
    requires k < |Compact(bs)|
    ensures Source(bs, Sources(bs)[k]) && Compact(bs)[k] == Piece(bs, Sources(bs)[k])
  {
    var cs := bs[..|bs| - 1];
    if k < |Compact(cs)| {
      SourceOf(cs, k);
    }
  }

  lemma {:induction false} SourcesIncreasing(bs: seq<MemoryBlock>, j: nat, k: nat)
    requires j < k < |Sources(bs)|
    ensures Sources(bs)[j] < Sources(bs)[k]
  {
    var cs := bs[..|bs| - 1];
    if k < |Sources(cs)| {
      SourcesIncreasing(cs, j, k);
    } else {
      SourceOf(cs, j);
    }
  }

  lemma {:induction false} IndexOfSource(bs: seq<MemoryBlock>, i: nat) returns (k: nat)
    requires Source(bs, i)
    ensures k < |Sources(bs)| && Sources(bs)[k] == i
  {
    var cs := bs[..|bs| - 1];
    if i < |bs| - 1 {
      assert Source(cs, i);
      k := IndexOfSource(cs, i);
    } else {
      k := |Sources(bs)| - 1;
    }
  }

  /** The rebuilt list, block by block: an old block as it was, or its union with the one before it. */
  lemma CompactExactly(bs: seq<MemoryBlock>, k: nat)
    requires k < |Compact(bs)|
    ensures var i := Sources(bs)[k];
            i < |bs| &&
            Compact(bs)[k] ==
            if i == 0 then bs[0] else MemoryBlock(bs[i - 1].offset, bs[i - 1].length + bs[i].length)
  {
    SourceOf(bs, k);
  }

  /** In the old order, these are the first block and every block that starts where the one before it ends. */
  lemma SourcesExactly(bs: seq<MemoryBlock>, i: nat)
    ensures forall j, k :: 0 <= j < k < |Sources(bs)| ==> Sources(bs)[j] < Sources(bs)[k]
    ensures i in Sources(bs) <==>
            i < |bs| && (i == 0 || bs[i - 1].offset + bs[i - 1].length == bs[i].offset)
  {
    forall j, k | 0 <= j < k < |Sources(bs)| ensures Sources(bs)[j] < Sources(bs)[k] {
      SourcesIncreasing(bs, j, k);
    }
    if i in Sources(bs) {
      var k :| 0 <= k < |Sources(bs)| && Sources(bs)[k] == i;
      SourceOf(bs, k);
    }
    if Source(bs, i) {
      var k := IndexOfSource(bs, i);
    }
  }

  // ----- Coverage -----

  lemma PieceCovers(bs: seq<MemoryBlock>, i: nat, x: int)
    requires Source(bs, i) && Covers(Piece(bs, i), x)
    ensures FreeCovers(bs, x)
  {
  }

  /** Compaction is conservative: it makes no byte available that was not free before, whatever the list. */
  lemma CompactionConservative(bs: seq<MemoryBlock>, x: int)
    requires FreeCovers(Compact(bs), x)
    ensures FreeCovers(bs, x)
  {
    var k :| 0 <= k < |Compact(bs)| && Covers(Compact(bs)[k], x);
    SourceOf(bs, k);
    var i := Sources(bs)[k];
    PieceCovers(bs, i, x);
  }

  /** Old block `i` is part of some new block. */
  predicate Retained(bs: seq<MemoryBlock>, i: nat)
  {
    i < |bs| && (Source(bs, i) || (i + 1 < |bs| && Source(bs, i + 1)))
  }

  ghost predicate AllRetained(bs: seq<MemoryBlock>)
  {
    forall i: nat :: i < |bs| ==> Retained(bs, i)
  }

  lemma RetainedCovered(bs: seq<MemoryBlock>, i: nat, x: int)
    requires Retained(bs, i) && Covers(bs[i], x)
    ensures FreeCovers(Compact(bs), x)
  {
    var s := if Source(bs, i) then i else i + 1;
    var k := IndexOfSource(bs, s);
    SourceOf(bs, k);
    assert Covers(Compact(bs)[k], x);
  }

  /** Compaction loses no free byte exactly when every block merges with a neighbour in the list. */
  lemma CompactionComplete(bs: seq<MemoryBlock>)
    requires AllPositive(bs) && PairwiseApart(bs)
    ensures AllRetained(bs) <==> forall x :: FreeCovers(bs, x) ==> FreeCovers(Compact(bs), x)
  {
    if AllRetained(bs) {
      forall x | FreeCovers(bs, x) ensures FreeCovers(Compact(bs), x) {
        var i: nat :| i < |bs| && Covers(bs[i], x);
        RetainedCovered(bs, i, x);
      }
    } else {
      var i: nat :| i < |bs| && !Retained(bs, i);
      assert Covers(bs[i], bs[i].offset);
      assert FreeCovers(bs, bs[i].offset);
      LostBlock(bs, i);
    }
  }

  lemma LostBlock(bs: seq<MemoryBlock>, i: nat)
    requires AllPositive(bs) && PairwiseApart(bs) && i < |bs| && !Retained(bs, i)
    ensures !FreeCovers(Compact(bs), bs[i].offset)
  {
    forall k | 0 <= k < |Compact(bs)| ensures !Covers(Compact(bs)[k], bs[i].offset) {
      SourceOf(bs, k);
      NotInPiece(bs, Sources(bs)[k], i);
    }
  }

  lemma NotInPiece(bs: seq<MemoryBlock>, j: nat, i: nat)
    requires AllPositive(bs) && PairwiseApart(bs) && i < |bs| && !Retained(bs, i) && Source(bs, j)
    ensures !Covers(Piece(bs, j), bs[i].offset)
  {
  }

  // ----- Disjointness -----

  predicate UsedTwice(bs: seq<MemoryBlock>, i: nat)
  {
    Source(bs, i) && Source(bs, i + 1)
  }

  /** No old block goes into two new ones. */
  ghost predicate UsedOnce(bs: seq<MemoryBlock>)
  {
    forall i: nat :: !UsedTwice(bs, i)
  }

  lemma PiecesApart(bs: seq<MemoryBlock>, i: nat, j: nat)
    requires AllPositive(bs) && PairwiseApart(bs) && UsedOnce(bs)
    requires Source(bs, i) && Source(bs, j) && i < j
    ensures Apart(Piece(bs, i), Piece(bs, j))
  {
    assert !UsedTwice(bs, i);
    assert Apart(bs[i], bs[j]) && Apart(bs[i], bs[j - 1]);
    if 0 < i {
      assert Apart(bs[i - 1], bs[j]) && Apart(bs[i - 1], bs[j - 1]);
    }
  }

  lemma CompactedApart(bs: seq<MemoryBlock>, j: nat, k: nat)
    requires AllPositive(bs) && PairwiseApart(bs) && UsedOnce(bs) && j < k < |Compact(bs)|
    ensures Apart(Compact(bs)[j], Compact(bs)[k])
  {
    SourceOf(bs, j);
    SourceOf(bs, k);
    SourcesIncreasing(bs, j, k);
    var a, b := Sources(bs)[j], Sources(bs)[k];
    PiecesApart(bs, a, b);
  }

  lemma CompactedOverlap(bs: seq<MemoryBlock>, i: nat)
    requires AllPositive(bs) && UsedTwice(bs, i)
    ensures !PairwiseApart(Compact(bs))
  {
    var j := IndexOfSource(bs, i);
    var k := IndexOfSource(bs, i + 1);
    SourceOf(bs, j);
    SourceOf(bs, k);
    var x := bs[i].offset;
    assert Covers(Compact(bs)[j], x) && Covers(Compact(bs)[k], x);
    assert !Apart(Compact(bs)[j], Compact(bs)[k]) && !Apart(Compact(bs)[k], Compact(bs)[j]);
  }

  lemma CompactedPositive(bs: seq<MemoryBlock>)
    requires AllPositive(bs)
    ensures AllPositive(Compact(bs))
  {
  }

  /** The rebuilt list is disjoint exactly when no old block went into two new ones. */
  lemma CompactionDisjoint(bs: seq<MemoryBlock>)
    requires AllPositive(bs) && PairwiseApart(bs)
    ensures UsedOnce(bs) <==> PairwiseApart(Compact(bs))
  {
    if UsedOnce(bs) {
      forall j, k | 0 <= j < k < |Compact(bs)| ensures Apart(Compact(bs)[j], Compact(bs)[k]) {
        CompactedApart(bs, j, k);
      }
    } else {
      var i: nat :| UsedTwice(bs, i);
      CompactedOverlap(bs, i);
    }
  }

  // ----- Free, with compaction -----

  /** Blocks still live stay apart from everything on the rebuilt list. */
  lemma LiveApartFromCompacted(m: Memory, p: nat, k: nat)
    requires Partitioned(m) && p in m.live && k < |Compact(m.free)|
    ensures Apart(MemoryBlock(p, m.live[p]), Compact(m.free)[k])
  {
    SourceOf(m.free, k);
    var i := Sources(m.free)[k];
    assert Apart(MemoryBlock(p, m.live[p]), m.free[i]);
    if 0 < i {
      assert Apart(MemoryBlock(p, m.live[p]), m.free[i - 1]);
    }
  }

  /** No byte is both live and free in a partition. */
  lemma LiveNotFree(m: Memory, x: int)
    requires Partitioned(m) && LiveCovers(m.live, x)
    ensures !FreeCovers(m.free, x)
  {
  }

  lemma CompactedPartition(m: Memory)
    requires Partitioned(m)
    ensures Partitioned(m.(free := Compact(m.free))) <==> UsedOnce(m.free) && AllRetained(m.free)
  {
    var bs := m.free;
    var m' := m.(free := Compact(bs));
    CompactedPositive(bs);
    CompactionDisjoint(bs);
    CompactionComplete(bs);
    forall p: nat, k | p in m.live && 0 <= k < |Compact(bs)| ensures Apart(MemoryBlock(p, m.live[p]), Compact(bs)[k]) {
      LiveApartFromCompacted(m, p, k);
    }
    forall x | FreeCovers(Compact(bs), x) ensures FreeCovers(bs, x) {
      CompactionConservative(bs, x);
    }
    if Partitioned(m') {
      forall x | FreeCovers(bs, x) ensures FreeCovers(Compact(bs), x) {
        if LiveCovers(m.live, x) {
          LiveNotFree(m, x);
        }
      }
    }
  }

  /**
   `free` keeps the partition exactly when the free total stays under the threshold, or every block
   on the list merges into exactly one block of the rebuilt list.
   */
  lemma FreePartitionsExactly(m: Memory, offset: nat)
    requires Partitioned(m) && offset in m.live
    ensures var list := m.free + [MemoryBlock(offset, m.live[offset])];
            Partitioned(Free(m, offset)) <==>
            TotalLength(m.free) + m.live[offset] < COMPACTION_SIZE || (UsedOnce(list) && AllRetained(list))
  {
    MovedToFree(m, offset);
    var list := m.free + [MemoryBlock(offset, m.live[offset])];
    assert list[..|m.free|] == m.free;
    var moved := m.(live := m.live - {offset}, free := list);
    CompactedPartition(moved);
    assert Compact(list) == Compact(moved.free);
  }

  /** Whatever compaction does, a free never makes a byte of another live block available. */
  lemma FreeConservative(m: Memory, offset: nat, x: int)
    requires Partitioned(m) && offset in m.live && FreeCovers(Free(m, offset).free, x)
    ensures FreeCovers(m.free, x) || Covers(MemoryBlock(offset, m.live[offset]), x)
    ensures !LiveCovers(Free(m, offset).live, x)
  {
    MovedToFree(m, offset);
    var list := m.free + [MemoryBlock(offset, m.live[offset])];
    var moved := m.(live := m.live - {offset}, free := list);
    if TotalLength(list) >= COMPACTION_SIZE {
      CompactionConservative(list, x);
    }
    FreeCoversAppend(m.free, MemoryBlock(offset, m.live[offset]), x);
    if LiveCovers(moved.live, x) {
      LiveNotFree(moved, x);
    }
  }

  // ----- Runs -----

  /**
   A free is tidy when it stays under the compaction threshold, or when every listed block goes into
   exactly one new block; a request is when it is for at least one byte, or fails.
   */
  ghost predicate Tidy(m: Memory, op: Op, cap: nat)
  {
    match op
    case Reserve(n) => 1 <= n || Alloc(m, n, cap).1.GrowFailed?
    case Release(offset) =>
      offset in m.live ==>
        var list := m.free + [MemoryBlock(offset, m.live[offset])];
        TotalLength(m.free) + m.live[offset] < COMPACTION_SIZE || (UsedOnce(list) && AllRetained(list))
    case Clear => true
  }

  ghost predicate TidyRun(m: Memory, ops: seq<Op>, cap: nat)
  {
    ops == [] ||
    var n := |ops| - 1;
    TidyRun(m, ops[..n], cap) && Tidy(Run(m, ops[..n], cap), ops[n], cap)
  }

  ghost predicate PartitionedThroughout(m: Memory, ops: seq<Op>, cap: nat)
  {
    Partitioned(Run(m, ops, cap)) && (ops == [] || PartitionedThroughout(m, ops[..|ops| - 1], cap))
  }

  /** The block starts at no offset of the client's record and overlaps none of its blocks. */
  ghost predicate NotGiven(given: map<nat, nat>, b: MemoryBlock)
  {
    b.offset !in given && forall p: nat :: p in given ==> Apart(MemoryBlock(p, given[p]), b)
  }

  /** Every request of the run that succeeds gets the bytes it asked for, none of them given out already. */
  ghost predicate FreshThroughout(m: Memory, ops: seq<Op>, cap: nat)
  {
    ops == [] ||
    var n := |ops| - 1;
    FreshThroughout(m, ops[..n], cap) &&
    (ops[n].Reserve? ==>
      var r := Alloc(Run(m, ops[..n], cap), ops[n].n, cap).1;
      r.Ok? ==> r.block.length == ops[n].n && NotGiven(Given(m, ops[..n], cap), r.block))
  }

  lemma StepPartitionsExactly(m: Memory, op: Op, cap: nat)
    requires Partitioned(m) && 1 <= m.position
    ensures Partitioned(Step(m, op, cap)) <==> Tidy(m, op, cap)
    ensures 1 <= Step(m, op, cap).position
  {
    match op
    case Reserve(n) => AllocPartitioned(m, n, cap);
    case Release(offset) =>
      if offset in m.live {
        FreePartitionsExactly(m, offset);
      }
    case Clear =>
  }

  lemma {:induction false} PositionPositive(pages: nat, ops: seq<Op>, cap: nat)
    ensures 1 <= Run(New(pages), ops, cap).position
  {
    if ops != [] {
      PositionPositive(pages, ops[..|ops| - 1], cap);
    }
  }

  /** A run keeps live and free blocks a partition at every point exactly when all its calls are tidy. */
  lemma {:induction false} RunPartitionsExactly(pages: nat, ops: seq<Op>, cap: nat)
    ensures PartitionedThroughout(New(pages), ops, cap) <==> TidyRun(New(pages), ops, cap)
    decreases |ops|
  {
    if ops != [] {
      var n := |ops| - 1;
      RunPartitionsExactly(pages, ops[..n], cap);
      if TidyRun(New(pages), ops[..n], cap) {
        PositionPositive(pages, ops[..n], cap);
        StepPartitionsExactly(Run(New(pages), ops[..n], cap), ops[n], cap);
      }
    }
  }

  /**
   What the partition buys: in such a run no live offset is handed out again and no two blocks a client
   holds overlap, so `block_length` of each is the size of the request that got it.
   */
  lemma {:induction false} TidyRunHandsOutFresh(pages: nat, ops: seq<Op>, cap: nat)
    requires TidyRun(New(pages), ops, cap)
    ensures FreshThroughout(New(pages), ops, cap)
    decreases |ops|
  {
    if ops != [] {
      var n := |ops| - 1;
      TidyRunHandsOutFresh(pages, ops[..n], cap);
      if ops[n].Reserve? {
        RunPartitionsExactly(pages, ops[..n], cap);
        PositionPositive(pages, ops[..n], cap);
        LiveIsGiven(New(pages), ops[..n], cap);
        AllocPartitioned(Run(New(pages), ops[..n], cap), ops[n].n, cap);
      }
    }
  }

  // ----- A run that is not tidy -----

  const FIRST := MemoryBlock(1, 600)
  const SECOND := MemoryBlock(601, 600)
  const BOTH := MemoryBlock(1, 1200)

  lemma CompactTwo()
    ensures TotalLength([FIRST]) == 600 && TotalLength([FIRST, SECOND]) == 1200
    ensures Compact([FIRST, SECOND]) == [FIRST, BOTH]
  {
    assert [FIRST][..0] == [] && [FIRST, SECOND][..1] == [FIRST];
    assert Compact([FIRST]) == [FIRST];
  }

  /** Two adjacent blocks freed in order: the first is on the rebuilt list twice. */
  lemma CompactionDuplicates()
    ensures Free(Free(Memory([], map[1 := 600, 601 := 600], 1201, 1), 1), 601) == Memory([FIRST, BOTH], map[], 1201, 1)
  {
    CompactTwo();
    var m := Memory([], map[1 := 600, 601 := 600], 1201, 1);
    assert m.live - {1} == map[601 := 600];
    assert [] + [FIRST] == [FIRST];
    assert Free(m, 1) == Memory([FIRST], map[601 := 600], 1201, 1);
    assert map[601 := 600] - {601} == map[];
    assert [FIRST] + [SECOND] == [FIRST, SECOND];
  }

  /** Its bytes are then handed out twice: the partition does not survive compaction in general. */
  lemma DuplicateHandedOutTwice()
    ensures var m := Alloc(Alloc(New(1), 600, 1).0, 600, 1).0;
            m == Memory([], map[1 := 600, 601 := 600], 1201, 1)
    ensures var (m5, r5) := Alloc(Memory([FIRST, BOTH], map[], 1201, 1), 600, 1);
            && r5 == Ok(FIRST) && m5 == Memory([BOTH], map[1 := 600], 1201, 1)
            && Alloc(m5, 1200, 1).1 == Ok(BOTH)
  {
  }
}
