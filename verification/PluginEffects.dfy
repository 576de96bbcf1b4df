/** What one call into Otoroshi's plugin memory changes, with the thresholds of 32 and 1024 bytes written out. */
module PluginEffects {
  import opened LinearMemory
  import opened PluginBlocks

  /**
   The first listed block of exactly `n` bytes, or of at least 32 more, serves the request from its
   front. The rest of it stays free, the last block takes the place of one used up, and neither the
   position nor the pages change.
   */
  lemma AllocServes(m: Memory, n: nat, cap: nat, i: nat)
    requires i < |m.free| && (m.free[i].length == n || n + 32 <= m.free[i].length)
    requires forall j :: 0 <= j < i ==> !(m.free[j].length == n || n + 32 <= m.free[j].length)
    ensures var b, last := m.free[i], |m.free| - 1;
            Alloc(m, n, cap) ==
            (m.(live := m.live[b.offset := n],
                free := if b.length == n then m.free[i := m.free[last]][..last]
                        else m.free[i := MemoryBlock(b.offset + n, b.length - n)]),
             Ok(MemoryBlock(b.offset, n)))
  {
    FirstServingIs(m.free, n, i);
  }

  /**
   When there is none, the request is served at the position, growing memory by the fewest pages, or by
   one when it ends exactly at the end of memory; it fails exactly when they exceed the cap.
   */
  lemma AllocMoves(m: Memory, n: nat, cap: nat)
    requires m.pages <= cap <= MAX_PAGES
    requires forall i :: 0 <= i < |m.free| ==> !(m.free[i].length == n || n + 32 <= m.free[i].length)
    ensures var end, size := m.position + n, 65536 * m.pages;
            var k := if end < size then 0 else if end == size then 1 else (end - size + 65535) / 65536;
            Alloc(m, n, cap) ==
            if cap < m.pages + k then (m, GrowFailed)
            else (m.(live := m.live[m.position := n], position := end, pages := m.pages + k),
                  Ok(MemoryBlock(m.position, n)))
  {
    FirstServingIs(m.free, n, |m.free|);
  }

  /** The block goes to the end of the free list, which is compacted from 1024 free bytes on. */
  lemma FreeMoves(m: Memory, offset: nat)
    ensures offset !in m.live ==> Free(m, offset) == m
    ensures offset in m.live ==>
              var list := m.free + [MemoryBlock(offset, m.live[offset])];
              Free(m, offset) ==
              m.(live := m.live - {offset}, free := if TotalLength(list) < 1024 then list else Compact(list))
  {
  }

  /** The free total is the sum of the lengths: nothing for no block, and it adds up over any two lists. */
  lemma {:induction false} TotalLengthAdds(cs: seq<MemoryBlock>, bs: seq<MemoryBlock>, b: MemoryBlock)
    ensures TotalLength([]) == 0 && TotalLength([b]) == b.length
    ensures TotalLength(cs + bs) == TotalLength(cs) + TotalLength(bs)
  {
    assert [b][..0] == [];
    if bs == [] {
      assert cs + bs == cs;
    } else {
      TotalLengthAdds(cs, bs[..|bs| - 1], b);
      assert (cs + bs)[..|cs + bs| - 1] == cs + bs[..|bs| - 1];
    }
  }

  lemma NewAndReset(pages: nat, m: Memory)
    ensures New(pages) == Memory([], map[], 1, pages)
    ensures Reset(m) == Memory([], map[], 1, m.pages)
  {
  }
}
