/** Which writes leave the data of live blocks alone. */
module HeapPayload {
  import opened KernelHeap
  import opened LinearMemory
  import opened LittleEndian
  import opened HeapLayout
  import opened HeapInvariant
  import opened HeapBytes

  /** Every data byte of block `i` is the same in both snapshots. */
  ghost predicate DataKept(m: seq<byte>, m': seq<byte>, bs: seq<Block>, i: nat)
  {
    && i < |bs|
    && |m| <= |m'|
    && forall a :: Handle(bs, i) <= a < Addr(bs, i + 1) && a < |m| ==> m'[a] == m[a]
  }

  ghost predicate LiveDataKept(m: seq<byte>, m': seq<byte>, bs: seq<Block>)
  {
    forall i :: 0 <= i < |bs| && bs[i].status == Active ==> DataKept(m, m', bs, i)
  }

  lemma OutsideBlocksKept(m: seq<byte>, m': seq<byte>, bs: seq<Block>, lo: nat, hi: nat)
    requires SameOutside(m, m', lo, hi)
    requires hi <= BLOCKS || End(bs) <= lo
    ensures LiveDataKept(m, m', bs)
  {
    forall i | 0 <= i < |bs| ensures DataKept(m, m', bs, i) {
      AddrIncreasing(bs, i, |bs|);
      if i + 1 < |bs| {
        AddrIncreasing(bs, i + 1, |bs|);
      }
    }
  }

  lemma PrefixKept(m: seq<byte>, m': seq<byte>, bs: seq<Block>)
    requires m <= m'
    ensures LiveDataKept(m, m', bs)
  {
  }

  lemma IdleBlockKept(m: seq<byte>, m': seq<byte>, bs: seq<Block>, i: nat)
    requires i < |bs| && bs[i].status != Active
    requires SameOutside(m, m', Addr(bs, i), Addr(bs, i + 1))
    ensures LiveDataKept(m, m', bs)
  {
    forall t | 0 <= t < |bs| && t != i ensures DataKept(m, m', bs, t) {
      if t < i {
        AddrIncreasing(bs, t, i);
        assert Addr(bs, t + 1) <= Addr(bs, i);
      } else if i + 1 < t {
        AddrIncreasing(bs, i + 1, t);
      }
    }
  }

  lemma AppendedKept(m: seq<byte>, m1: seq<byte>, m': seq<byte>, bs: seq<Block>)
    requires SameOutside(m, m1, RootAddr(POSITION), BLOCKS) && SameOutside(m1, m', End(bs), End(bs) + HEADER)
    ensures LiveDataKept(m, m', bs)
  {
    OutsideBlocksKept(m, m1, bs, RootAddr(POSITION), BLOCKS);
    OutsideBlocksKept(m1, m', bs, End(bs), End(bs) + HEADER);
    KeptTransitive(m, m1, m', bs);
  }

  /** Carving block `i` and marking the piece to use touch only the extent of block `i`. */
  lemma ReuseKept(m: seq<byte>, m1: seq<byte>, m2: seq<byte>, bs: seq<Block>, i: nat, n: u32)
    requires i < |bs| && bs[i].status != Active
    requires SameOutside(m, m1, Addr(bs, i), Addr(bs, i + 1))
    requires var (cs, k) := Carve(bs, i, n);
             k < |cs| && SameOutside(m1, m2, Addr(cs, k), Addr(cs, k) + HEADER)
    ensures LiveDataKept(m, m2, bs)
  {
    CarveReplaces(bs, i, n);
    var (cs, k) := Carve(bs, i, n);
    assert Addr(bs, i) <= Addr(cs, k) && Addr(cs, k) + HEADER <= Addr(bs, i + 1) by {
      if i < k {
        AddrIncreasing(cs, i, k);
      }
    }
    IdleBlockKept(m, m2, bs, i);
  }

  lemma HeaderOnlyKept(m: seq<byte>, m': seq<byte>, bs: seq<Block>, i: nat)
    requires i < |bs| && SameOutside(m, m', Addr(bs, i), Handle(bs, i))
    ensures LiveDataKept(m, m', bs)
  {
    forall t | 0 <= t < |bs| ensures DataKept(m, m', bs, t) {
      if t < i {
        AddrIncreasing(bs, t, i);
      } else if i < t {
        AddrIncreasing(bs, i, t);
      }
    }
  }

  lemma KeptTransitive(m: seq<byte>, m1: seq<byte>, m2: seq<byte>, bs: seq<Block>)
    requires LiveDataKept(m, m1, bs) && LiveDataKept(m1, m2, bs)
    requires |m| <= |m1| <= |m2|
    ensures LiveDataKept(m, m2, bs)
  {
  }

  /** The bytes a client may use behind a live handle lie inside memory. */
  lemma LiveRange(h: Heap, p: nat)
    requires WellFormed(h) && Lookup(h.blocks, p).Some?
    ensures BLOCKS + HEADER <= p
    ensures p + Lookup(h.blocks, p).value <= End(h.blocks)
    ensures InBounds(h, p) && InBounds(h, p + Lookup(h.blocks, p).value - 1)
    ensures p + Lookup(h.blocks, p).value + ROOT_SIZE - 1 <= PAGE_SIZE * h.pages
  {
    var i := IndexOf(h.blocks, p, 0);
    assert GoodBlock(h.blocks[i]);
    if i + 1 < |h.blocks| {
      AddrIncreasing(h.blocks, i + 1, |h.blocks|);
    }
  }

  /** Kept data, seen through the handle map. */
  lemma PayloadKept(m: seq<byte>, m': seq<byte>, h: Heap, p: nat)
    requires WellFormed(h) && Lookup(h.blocks, p).Some?
    requires |m| == PAGE_SIZE * h.pages && |m| <= |m'|
    requires LiveDataKept(m, m', h.blocks)
    ensures p + Lookup(h.blocks, p).value <= |m|
    ensures var u := Lookup(h.blocks, p).value; m'[p..p + u] == m[p..p + u]
  {
    LiveRange(h, p);
    var i := IndexOf(h.blocks, p, 0);
    assert GoodBlock(h.blocks[i]) && DataKept(m, m', h.blocks, i);
  }

  ghost predicate BytesKept(m: seq<byte>, m': seq<byte>, p: nat, n: nat)
  {
    p + n <= |m| && p + n <= |m'| && m'[p..p + n] == m[p..p + n]
  }

  /** Every live allocation still holds its bytes. */
  ghost predicate LiveBytesKept(m: seq<byte>, m': seq<byte>, bs: seq<Block>)
  {
    forall p: nat :: Lookup(bs, p).Some? ==> BytesKept(m, m', p, Lookup(bs, p).value)
  }

  lemma LiveDataIsBytes(m: seq<byte>, m': seq<byte>, h: Heap)
    requires WellFormed(h) && |m| == PAGE_SIZE * h.pages && |m| <= |m'|
    requires LiveDataKept(m, m', h.blocks)
    ensures LiveBytesKept(m, m', h.blocks)
  {
    forall p: nat | Lookup(h.blocks, p).Some? ensures BytesKept(m, m', p, Lookup(h.blocks, p).value) {
      PayloadKept(m, m', h, p);
    }
  }
}
