/**
 Live and free blocks partition the bytes below the bump position, as long as no compaction runs;
 compaction never invents bytes, and keeps the partition exactly when no old block is used twice or lost.
 */
module PluginPartition {
  import opened PluginBlocks

  predicate Covers(b: MemoryBlock, x: int)
  {
    b.offset <= x < b.offset + b.length
  }

  predicate Apart(a: MemoryBlock, b: MemoryBlock)
  {
    a.offset + a.length <= b.offset || b.offset + b.length <= a.offset
  }

  ghost predicate FreeCovers(free: seq<MemoryBlock>, x: int)
  {
    exists i :: 0 <= i < |free| && Covers(free[i], x)
  }

  ghost predicate LiveCovers(live: map<nat, nat>, x: int)
  {
    exists p: nat :: p in live && Covers(MemoryBlock(p, live[p]), x)
  }

  ghost predicate PairwiseApart(free: seq<MemoryBlock>)
  {
    forall i, j :: 0 <= i < j < |free| ==> Apart(free[i], free[j])
  }

  ghost predicate AllPositive(free: seq<MemoryBlock>)
  {
    forall i :: 0 <= i < |free| ==> 1 <= free[i].length
  }

  /** Live and free blocks are non-empty, pairwise disjoint, and cover exactly `[1, position)`. */
  ghost predicate Partitioned(m: Memory)
  {
    && AllPositive(m.free) && PairwiseApart(m.free)
    && (forall p: nat :: p in m.live ==> 1 <= m.live[p])
    && (forall p: nat, q: nat :: p in m.live && q in m.live && p != q ==>
          Apart(MemoryBlock(p, m.live[p]), MemoryBlock(q, m.live[q])))
    && (forall p: nat, i :: p in m.live && 0 <= i < |m.free| ==> Apart(MemoryBlock(p, m.live[p]), m.free[i]))
    && forall x :: 1 <= x < m.position <==> FreeCovers(m.free, x) || LiveCovers(m.live, x)
  }

  // ----- Coverage of the pieces that change -----

  lemma LiveCoversInsert(live: map<nat, nat>, p: nat, n: nat, x: int)
    requires p !in live
    ensures LiveCovers(live[p := n], x) <==> LiveCovers(live, x) || Covers(MemoryBlock(p, n), x)
  {
    var live' := live[p := n];
    if LiveCovers(live, x) {
      var q: nat :| q in live && Covers(MemoryBlock(q, live[q]), x);
      assert q in live' && live'[q] == live[q];
    }
    if Covers(MemoryBlock(p, n), x) {
      assert p in live' && live'[p] == n;
    }
  }

  lemma LiveCoversRemove(live: map<nat, nat>, p: nat, x: int)
    requires p in live
    ensures LiveCovers(live, x) <==> LiveCovers(live - {p}, x) || Covers(MemoryBlock(p, live[p]), x)
  {
    var live' := live - {p};
    if LiveCovers(live, x) && !Covers(MemoryBlock(p, live[p]), x) {
      var q: nat :| q in live && Covers(MemoryBlock(q, live[q]), x);
      assert q in live' && live'[q] == live[q];
    }
    if LiveCovers(live', x) {
      var q: nat :| q in live' && Covers(MemoryBlock(q, live'[q]), x);
      assert q in live && live'[q] == live[q];
    }
  }

  lemma FreeCoversAppend(free: seq<MemoryBlock>, b: MemoryBlock, x: int)
    ensures FreeCovers(free + [b], x) <==> FreeCovers(free, x) || Covers(b, x)
  {
    var free' := free + [b];
    if FreeCovers(free, x) {
      var i :| 0 <= i < |free| && Covers(free[i], x);
      assert free'[i] == free[i];
    }
    if Covers(b, x) {
      assert free'[|free|] == b;
    }
  }

  lemma FreeCoversSwapRemove(free: seq<MemoryBlock>, i: nat, x: int)
    requires i < |free|
    ensures FreeCovers(free, x) <==> FreeCovers(SwapRemove(free, i), x) || Covers(free[i], x)
  {
    var free', n := SwapRemove(free, i), |free| - 1;
    if FreeCovers(free, x) && !Covers(free[i], x) {
      var j :| 0 <= j < |free| && Covers(free[j], x);
      assert free'[if j == n then i else j] == free[j];
    }
    if FreeCovers(free', x) {
      var j :| 0 <= j < |free'| && Covers(free'[j], x);
      assert free'[j] == free[if j == i then n else j];
    }
  }

  lemma FreeCoversSplit(free: seq<MemoryBlock>, i: nat, n: nat, x: int)
    requires i < |free| && n <= free[i].length
    ensures var b := free[i];
            FreeCovers(free, x) <==>
            FreeCovers(free[i := MemoryBlock(b.offset + n, b.length - n)], x) || Covers(MemoryBlock(b.offset, n), x)
  {
    var b := free[i];
    var free' := free[i := MemoryBlock(b.offset + n, b.length - n)];
    if FreeCovers(free, x) && !Covers(MemoryBlock(b.offset, n), x) {
      var j :| 0 <= j < |free| && Covers(free[j], x);
      assert Covers(free'[j], x);
    }
    if FreeCovers(free', x) {
      var j :| 0 <= j < |free'| && Covers(free'[j], x);
      assert Covers(free[j], x);
    }
  }

  // ----- Allocation -----

  /** The block starts at no live offset and overlaps no live block. */
  ghost predicate NotLive(m: Memory, b: MemoryBlock)
  {
    b.offset !in m.live && forall p: nat :: p in m.live ==> Apart(MemoryBlock(p, m.live[p]), b)
  }

  /** The front of a free block, empty or not, is not live. */
  lemma FreeNotLive(m: Memory, i: nat, n: nat)
    requires Partitioned(m) && i < |m.free| && n <= m.free[i].length
    ensures NotLive(m, MemoryBlock(m.free[i].offset, n))
  {
  }

  lemma ReuseWhole(m: Memory, i: nat, n: nat)
    requires Partitioned(m) && i < |m.free| && m.free[i].length == n
    ensures Partitioned(m.(free := SwapRemove(m.free, i), live := m.live[m.free[i].offset := n]))
  {
    var b := m.free[i];
    FreeNotLive(m, i, n);
    var m' := m.(free := SwapRemove(m.free, i), live := m.live[b.offset := n]);
    forall j | 0 <= j < |m'.free| ensures m'.free[j] == m.free[if j == i then |m.free| - 1 else j] {
    }
    forall x ensures 1 <= x < m'.position <==> FreeCovers(m'.free, x) || LiveCovers(m'.live, x) {
      FreeCoversSwapRemove(m.free, i, x);
      LiveCoversInsert(m.live, b.offset, n, x);
    }
  }

  /** Cutting the front off block `i` keeps the free list disjoint, and apart from the front. */
  lemma FrontCut(m: Memory, i: nat, n: nat)
    requires Partitioned(m) && i < |m.free| && 1 <= n < m.free[i].length
    ensures var b := m.free[i];
            var free' := m.free[i := MemoryBlock(b.offset + n, b.length - n)];
            && AllPositive(free') && PairwiseApart(free')
            && forall j :: 0 <= j < |free'| ==> Apart(MemoryBlock(b.offset, n), free'[j])
  {
  }

  lemma ReuseFront(m: Memory, i: nat, n: nat)
    requires Partitioned(m) && i < |m.free| && 1 <= n < m.free[i].length
    ensures var b := m.free[i];
            Partitioned(m.(free := m.free[i := MemoryBlock(b.offset + n, b.length - n)], live := m.live[b.offset := n]))
  {
    var b := m.free[i];
    FreeNotLive(m, i, n);
    FrontCut(m, i, n);
    var m' := m.(free := m.free[i := MemoryBlock(b.offset + n, b.length - n)], live := m.live[b.offset := n]);
    forall x ensures 1 <= x < m'.position <==> FreeCovers(m'.free, x) || LiveCovers(m'.live, x) {
      FreeCoversSplit(m.free, i, n, x);
      LiveCoversInsert(m.live, b.offset, n, x);
    }
  }

  /** Every block of a partition lies below the position. */
  lemma BelowPosition(m: Memory)
    requires Partitioned(m)
    ensures forall i :: 0 <= i < |m.free| ==> 1 <= m.free[i].offset && m.free[i].offset + m.free[i].length <= m.position
    ensures forall p: nat :: p in m.live ==> 1 <= p && p + m.live[p] <= m.position
  {
    forall i | 0 <= i < |m.free|
      ensures 1 <= m.free[i].offset && m.free[i].offset + m.free[i].length <= m.position
    {
      assert FreeCovers(m.free, m.free[i].offset);
      assert FreeCovers(m.free, m.free[i].offset + m.free[i].length - 1);
    }
    forall p: nat | p in m.live ensures 1 <= p && p + m.live[p] <= m.position {
      assert Covers(MemoryBlock(p, m.live[p]), p) && Covers(MemoryBlock(p, m.live[p]), p + m.live[p] - 1);
      assert LiveCovers(m.live, p) && LiveCovers(m.live, p + m.live[p] - 1);
    }
  }

  lemma BumpBlock(m: Memory, n: nat, pages: nat)
    requires Partitioned(m) && 1 <= m.position
    ensures NotLive(m, MemoryBlock(m.position, n))
    ensures 1 <= n ==> Partitioned(m.(live := m.live[m.position := n], position := m.position + n, pages := pages))
  {
    BelowPosition(m);
    var m' := m.(live := m.live[m.position := n], position := m.position + n, pages := pages);
    forall x ensures 1 <= x < m'.position <==> FreeCovers(m'.free, x) || LiveCovers(m'.live, x) {
      LiveCoversInsert(m.live, m.position, n, x);
    }
  }

  /**
   A successful allocation hands out `n` bytes that were not live and records them; a failed one changes
   nothing. The partition is kept exactly when this leaves no empty block live.
   */
  lemma AllocPartitioned(m: Memory, n: nat, cap: nat)
    requires Partitioned(m) && 1 <= m.position
    ensures var (m', r) := Alloc(m, n, cap);
            && (Partitioned(m') <==> 1 <= n || r.GrowFailed?) && 1 <= m'.position
            && (r.GrowFailed? ==> m' == m)
            && (r.Ok? ==> r.block.length == n && NotLive(m, r.block) && m'.live == m.live[r.block.offset := n])
  {
    var i := FirstServing(m.free, n, 0);
    if i < |m.free| {
      FreeNotLive(m, i, n);
      if m.free[i].length == n {
        ReuseWhole(m, i, n);
      } else if 1 <= n {
        ReuseFront(m, i, n);
      }
    } else {
      BumpBlock(m, n, Alloc(m, n, cap).0.pages);
    }
    var (m', r) := Alloc(m, n, cap);
    assert n == 0 && r.Ok? ==> m'.live[r.block.offset] == 0;
  }

  /** Allocating nothing hands out an offset that the next allocation gets too. */
  lemma EmptyBlockSharesOffset()
    ensures var (m, r) := Alloc(New(1), 0, 1);
            r == Ok(MemoryBlock(1, 0)) && Alloc(m, 5, 1).1 == Ok(MemoryBlock(1, 5))
  {
  }

  /** `swap_remove` takes out exactly one block, whatever it does to the order. */
  lemma SwapRemoveTakesOne(s: seq<MemoryBlock>, i: nat)
    requires i < |s|
    ensures multiset(SwapRemove(s, i)) == multiset(s) - multiset{s[i]}
  {
    var n := |s| - 1;
    var u := s[..n];
    assert s == u + [s[n]];
    if i < n {
      assert SwapRemove(s, i) == u[i := s[n]];
      assert u == u[..i] + [u[i]] + u[i + 1..];
    } else {
      assert SwapRemove(s, i) == u;
    }
  }

  // ----- Freeing without compaction -----

  lemma MovedToFree(m: Memory, offset: nat)
    requires Partitioned(m) && offset in m.live
    ensures Partitioned(m.(live := m.live - {offset}, free := m.free + [MemoryBlock(offset, m.live[offset])]))
  {
    var b := MemoryBlock(offset, m.live[offset]);
    var m' := m.(live := m.live - {offset}, free := m.free + [b]);
    forall x ensures 1 <= x < m'.position <==> FreeCovers(m'.free, x) || LiveCovers(m'.live, x) {
      FreeCoversAppend(m.free, b, x);
      LiveCoversRemove(m.live, offset, x);
    }
  }

  // ----- Runs -----

  datatype Op = Reserve(n: nat) | Release(offset: nat) | Clear

  function Step(m: Memory, op: Op, cap: nat): Memory
  {
    match op
    case Reserve(n) => Alloc(m, n, cap).0
    case Release(offset) => Free(m, offset)
    case Clear => Reset(m)
  }

  function Run(m: Memory, ops: seq<Op>, cap: nat): Memory
  {
    if ops == [] then m else Step(Run(m, ops[..|ops| - 1], cap), ops[|ops| - 1], cap)
  }

  /** What a client has been given and not returned: its own record, by offset, of the sizes it asked for. */
  function Given(m: Memory, ops: seq<Op>, cap: nat): map<nat, nat>
  {
    if ops == [] then m.live else
    var before := Run(m, ops[..|ops| - 1], cap);
    var given := Given(m, ops[..|ops| - 1], cap);
    match ops[|ops| - 1]
    case Reserve(n) =>
      var r := Alloc(before, n, cap).1;
      if r.Ok? then given[r.block.offset := n] else given
    case Release(offset) => given - {offset}
    case Clear => map[]
  }

  /** In every run, tidy or not, `block_length` answers from that record. */
  lemma {:induction false} LiveIsGiven(m: Memory, ops: seq<Op>, cap: nat)
    ensures Run(m, ops, cap).live == Given(m, ops, cap)
  {
    if ops != [] {
      var n := |ops| - 1;
      LiveIsGiven(m, ops[..n], cap);
      var before := Run(m, ops[..n], cap);
      match ops[n]
      case Release(offset) => assert offset !in before.live ==> before.live - {offset} == before.live;
      case _ =>
    }
  }

  // ----- Fragmentation -----

  ghost predicate LengthsAtLeast(m: Memory, k: nat)
  {
    && (forall i :: 0 <= i < |m.free| ==> k <= m.free[i].length)
    && (forall p :: p in m.live ==> k <= m.live[p])
  }

  lemma {:induction false} CompactKeepsLengths(bs: seq<MemoryBlock>, k: nat)
    requires forall i :: 0 <= i < |bs| ==> k <= bs[i].length
    ensures forall i :: 0 <= i < |Compact(bs)| ==> k <= Compact(bs)[i].length
  {
    if bs != [] {
      CompactKeepsLengths(bs[..|bs| - 1], k);
    }
  }

  lemma StepKeepsLengths(m: Memory, op: Op, cap: nat, k: nat)
    requires LengthsAtLeast(m, k) && k <= BLOCK_SIZE_THRESHOLD && (op.Reserve? ==> k <= op.n)
    ensures LengthsAtLeast(Step(m, op, cap), k)
  {
    match op
    case Release(offset) =>
      if offset in m.live {
        CompactKeepsLengths(m.free + [MemoryBlock(offset, m.live[offset])], k);
      }
    case _ =>
  }

  /**
   Cutting leaves no fragments: when no request of a run is for fewer than `k` bytes, up to 32, no block
   is ever smaller, whatever compaction does.
   */
  lemma {:induction false} FragmentsBounded(pages: nat, ops: seq<Op>, cap: nat, k: nat)
    requires k <= BLOCK_SIZE_THRESHOLD && forall i :: 0 <= i < |ops| && ops[i].Reserve? ==> k <= ops[i].n
    ensures LengthsAtLeast(Run(New(pages), ops, cap), k)
  {
    if ops != [] {
      var n := |ops| - 1;
      FragmentsBounded(pages, ops[..n], cap, k);
      StepKeepsLengths(Run(New(pages), ops[..n], cap), ops[n], cap, k);
    }
  }
}
