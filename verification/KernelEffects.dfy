/**
 What one call changes and what it leaves, field by field and in the layout's own numbers: a root record
 of 64 bytes at address 1, headers of 12 bytes, a split from 128 bytes of excess on, pages of 65536.
 */
module KernelEffects {
  import opened KernelHeap
  import opened LinearMemory
  import opened LittleEndian
  import opened HeapLayout
  import opened HeapInvariant
  import opened KernelRuns

  // ----- Allocation -----

  /**
   When some free block is large enough, the lowest such block serves the request: its tail if at least
   128 bytes would be in excess, and otherwise the whole block. Nothing else changes.
   */
  lemma AllocReuses(h: Heap, n: u64, cap: nat, granted: bool, i: nat)
    requires WellFormed(h) && n != 0 && i < |h.blocks|
    requires var m := n % 0x1_0000_0000;
             && h.blocks[i].status == Free && m <= h.blocks[i].size
             && forall j :: 0 <= j < i ==> !(h.blocks[j].status == Free && m <= h.blocks[j].size)
    ensures var (h', p) := Alloc(h, n, cap, granted);
            var bs, b, m := h.blocks, h.blocks[i], n % 0x1_0000_0000;
            && h' == h.(blocks := h'.blocks) && Position(h'.blocks) == Position(bs)
            && 0 < Handle(bs, i) <= p && p + m <= Handle(bs, i) + b.size
            && if b.size < m + 128 then
                 p == Handle(bs, i) && h'.blocks == bs[i := Block(Active, b.size, m)]
               else
                 p + m == Handle(bs, i) + b.size &&
                 h'.blocks == bs[..i] + [Block(Free, b.size - m - 12, 0), Block(Active, m, m)] + bs[i + 1..]
  {
    var bs, m := h.blocks, n % U32_LIMIT;
    FirstFitAt(bs, m, i);
    CarveReplaces(bs, i, m);
    if bs[i].size >= m + 128 {
      var cs := Carve(bs, i, m).0;
      assert cs[i].size == bs[i].size - m - 12;
      assert Addr(cs, i + 1) == Addr(cs, i) + HEADER + cs[i].size;
    }
  }

  /**
   When none is, the request is served behind all blocks, with the fewest pages that make room for it;
   it fails exactly when pages are needed that the cap or the environment refuses, and then changes
   nothing.
   */
  lemma AllocBumps(h: Heap, n: u32, cap: nat, granted: bool)
    requires WellFormed(h) && 1 <= n
    requires forall i :: 0 <= i < |h.blocks| ==> !(h.blocks[i].status == Free && n <= h.blocks[i].size)
    ensures var (h', p) := Alloc(h, n, cap, granted);
            var need := Position(h.blocks) + 12 + n + 64;
            var k := if need < h.length then 0 else (need - h.length + 65535) / 65536;
            if h.length <= need && !(granted && h.pages + k <= cap) then p == 0 && h' == h
            else
              p == Position(h.blocks) + 77 &&
              h' == h.(blocks := h.blocks + [Block(Active, n, n)],
                       pages := h.pages + k, length := h.length + 65536 * k)
  {
    FirstFitAt(h.blocks, n, |h.blocks|);
    GrowthSuffices(h, n);
  }

  /** The null request, and one beyond 32 bits that no block serves under its truncated size. */
  lemma AllocRefuses(h: Heap, n: u64, cap: nat, granted: bool)
    requires WellFormed(h) && !Overruns(h, n, cap, granted)
    requires n == 0 || (0x1_0000_0000 <= n && forall i :: 0 <= i < |h.blocks| ==>
               !(h.blocks[i].status == Free && n % 0x1_0000_0000 <= h.blocks[i].size))
    ensures Alloc(h, n, cap, granted) == (h, 0)
  {
    if n != 0 {
      FirstFitAt(h.blocks, n % U32_LIMIT, |h.blocks|);
    }
  }

  /**
   Asking again for what was just freed gives the same handle, unless a lower block fits; with the size
   first asked for, the blocks are as if nothing had happened.
   */
  lemma FreeThenAlloc(h: Heap, i: nat, n: u32, cap: nat, granted: bool)
    requires WellFormed(h) && i < |h.blocks| && h.blocks[i].status == Active
    requires 1 <= n <= h.blocks[i].size < n + 128
    requires forall j :: 0 <= j < i ==> !(h.blocks[j].status == Free && n <= h.blocks[j].size)
    ensures WellFormed(FreeHandle(h, Handle(h.blocks, i)).0)
    ensures var p := Handle(h.blocks, i);
            var h1 := FreeHandle(h, p).0;
            var (h2, q) := Alloc(h1, n, cap, granted);
            && q == p && h2 == h1.(blocks := h.blocks[i := Block(Active, h.blocks[i].size, n)])
            && (n == h.blocks[i].used ==> h2.blocks == h.blocks)
  {
    var bs, p := h.blocks, Handle(h.blocks, i);
    FreeLive(h, i);
    var h1 := FreeHandle(h, p).0;
    FreedWellFormed(h, i);
    assert WellFormed(h1);
    AddrSameSizes(bs, h1.blocks, i);
    AllocReuses(h1, n, cap, granted, i);
    assert h1.blocks[i := Block(Active, bs[i].size, n)] == bs[i := Block(Active, bs[i].size, n)];
  }

  // ----- Freeing and measuring -----

  /** `free` of a live handle marks its block and, exactly for the input block, empties the input. */
  lemma FreeLive(h: Heap, i: nat)
    requires WellFormed(h) && i < |h.blocks| && h.blocks[i].status == Active
    ensures var p := Handle(h.blocks, i);
            FreeHandle(h, p) ==
            (h.(blocks := h.blocks[i := Block(Free, h.blocks[i].size, h.blocks[i].used)],
                inputLength := if p == h.inputOffset then 0 else h.inputLength),
             Value(0))
  {
    var p := Handle(h.blocks, i);
    LookupLive(h.blocks, i, p);
    FindLive(h, p);
  }

  /** `free` and `length` of anything else leave every field alone. */
  lemma MissedHandle(h: Heap, p: u64)
    requires WellFormed(h)
    requires forall i :: 0 <= i < |h.blocks| && h.blocks[i].status == Active ==> Handle(h.blocks, i) != p
    ensures FreeHandle(h, p).0 == h && FreeHandle(h, p).1 == Length(h, p)
    ensures p < 64 || 65536 * h.pages < p ==> Length(h, p) == Value(0)
    ensures Length(h, p) == Value(0) || WalkTraps(h, p) || WalkWraps(h, p)
    ensures 64 <= p <= 65536 * h.pages && WalkTraps(h, p) && !WalkWraps(h, p) ==> Length(h, p) == Trap
  {
    LookupDead(h.blocks, p);
    FindLive(h, p);
  }

  /** `length` of a live handle is its used field. */
  lemma LengthLive(h: Heap, i: nat)
    requires WellFormed(h) && i < |h.blocks| && h.blocks[i].status == Active
    ensures Length(h, Handle(h.blocks, i)) == Value(h.blocks[i].used)
  {
    LookupLive(h.blocks, i, Handle(h.blocks, i));
    LengthIsLookup(h, Handle(h.blocks, i));
  }

  /** A search for `p` comes to the `k`-th zero header above the blocks. */
  predicate Reaches(h: Heap, p: nat, k: nat)
  {
    End(h.blocks) + 12 * k < 65 + p
  }

  /** A missing search leaves memory exactly when it comes to a zero header whose size field lies outside. */
  lemma WalkTrapsExactly(h: Heap, p: nat)
    requires Sane(h)
    ensures WalkTraps(h, p) <==>
            exists k: nat :: Reaches(h, p, k) && 65536 * h.pages < End(h.blocks) + 12 * k + 8
  {
    var position := Position(h.blocks);
    if WalkTraps(h, p) {
      assert Reaches(h, p, (p - position - 1) / 12);
    }
    forall k: nat | Reaches(h, p, k) ensures k <= (p - position - 1) / 12 {
    }
  }

  /** It wraps around exactly when, in a full memory, it steps off a zero header to 2^32 or beyond. */
  lemma WalkWrapsExactly(h: Heap, p: nat)
    requires Sane(h)
    ensures WalkWraps(h, p) <==>
            h.pages == 65536 &&
            exists k: nat :: Reaches(h, p, k) && 0x1_0000_0000 - 12 <= End(h.blocks) + 12 * k <= 0x1_0000_0000 - 8
  {
    var end := End(h.blocks);
    if h.pages == MAX_PAGES && end + 8 <= U32_LIMIT {
      var q := (U32_LIMIT - 8 - end) / HEADER;
      if WalkWraps(h, p) {
        assert Reaches(h, p, q);
      }
      forall k: nat | Reaches(h, p, k) && U32_LIMIT - 12 <= end + 12 * k <= U32_LIMIT - 8 ensures k == q {
      }
    }
  }

  // ----- The root record -----

  /** Which ranges the setters accept, and that they set nothing else. */
  lemma SettersExactly(h: Heap, p: u64, len: u64)
    ensures var last := (p + len - 1) % 0x1_0000_0000_0000_0000;
            var ok := 65 <= p < 65 + h.length && 65 <= last < 65 + h.length;
            && InputSet(h, p, len) == (if ok then h.(inputOffset := p, inputLength := len) else h)
            && OutputSet(h, p, len) == (if ok then h.(outputOffset := p, outputLength := len) else h)
  {
  }

  /** `error_set(0)` always clears the error; any other handle is taken when in bounds. */
  lemma ErrorSetExactly(h: Heap, p: u64)
    ensures ErrorSet(h, 0) == h.(error := 0)
    ensures p != 0 ==> ErrorSet(h, p) == (if 65 <= p < 65 + h.length then h.(error := p) else h)
  {
  }

  lemma InitAndReset(initialPages: nat, h: Heap)
    ensures Init(initialPages) == Heap([], if initialPages == 0 then 1 else initialPages, 65472, 0, 0, 0, 0, 0)
    ensures Reset(h) ==
            h.(blocks := [], error := 0, inputOffset := 0, inputLength := 0, outputOffset := 0, outputLength := 0)
  {
  }

  /** What a plugin announces: its error, its input and its output. */
  datatype Announced = Announced(
    error: nat, inputOffset: nat, inputLength: nat, outputOffset: nat, outputLength: nat)

  function AnnouncedBy(h: Heap): Announced
  {
    Announced(h.error, h.inputOffset, h.inputLength, h.outputOffset, h.outputLength)
  }

  predicate Inside(length: nat, p: nat)
  {
    65 <= p < 65 + length
  }

  /** A range is accepted when its first and its last byte are inside; nothing else sets a field. */
  function Announce(h: Heap, was: Announced, op: Op): Announced
  {
    match op
    case Clear => Announced(0, 0, 0, 0, 0)
    case SetInput(p, len) =>
      if Inside(h.length, p) && Inside(h.length, (p + len - 1) % U64_LIMIT)
      then was.(inputOffset := p, inputLength := len) else was
    case SetOutput(p, len) =>
      if Inside(h.length, p) && Inside(h.length, (p + len - 1) % U64_LIMIT)
      then was.(outputOffset := p, outputLength := len) else was
    case SetError(p) => if p == 0 || Inside(h.length, p) then was.(error := p) else was
    case Release(p) =>
      if p == was.inputOffset && Lookup(h.blocks, p).Some? then was.(inputLength := 0) else was
    case _ => was
  }

  /** Each field as it was set last and accepted since the last reset; freeing the input empties it. */
  function LastAnnounced(h: Heap, ops: seq<Op>, cap: nat): Announced
    requires WellFormed(h) && h.pages <= cap <= MAX_PAGES
  {
    if ops == [] then AnnouncedBy(h) else
    var n := |ops| - 1;
    Announce(Run(h, ops[..n], cap), LastAnnounced(h, ops[..n], cap), ops[n])
  }

  lemma ReleaseAnnounces(h: Heap, p: u64)
    requires WellFormed(h)
    ensures AnnouncedBy(FreeHandle(h, p).0) ==
            AnnouncedBy(h).(inputLength := if p == h.inputOffset && Lookup(h.blocks, p).Some? then 0 else h.inputLength)
  {
    FindLive(h, p);
    NoNullHandle(h.blocks);
  }

  lemma StepAnnounces(h: Heap, op: Op, cap: nat)
    requires WellFormed(h)
    ensures AnnouncedBy(Step(h, op, cap)) == Announce(h, AnnouncedBy(h), op)
  {
    match op
    case Release(p) => ReleaseAnnounces(h, p);
    case _ =>
  }

  /** Over every run: error, input and output are those announced last, whatever was allocated or freed. */
  lemma {:induction false} AnnouncedIsLast(h: Heap, ops: seq<Op>, cap: nat)
    requires WellFormed(h) && h.pages <= cap <= MAX_PAGES
    ensures AnnouncedBy(Run(h, ops, cap)) == LastAnnounced(h, ops, cap)
    decreases |ops|
  {
    if ops != [] {
      var n := |ops| - 1;
      AnnouncedIsLast(h, ops[..n], cap);
      StepAnnounces(Run(h, ops[..n], cap), ops[n], cap);
    }
  }
}
