/** The store-wide memory limiter, and the kernel growing under it. */
module Limiter {
  import opened KernelHeap
  import opened Wrappers
  import opened LinearMemory
  import opened LittleEndian
  import opened HeapInvariant
  import opened KernelRuns

  /** A growth request: refused at the memory's own maximum or beyond the bytes left, else charged. */
  function Charge(left: nat, current: nat, desired: nat, maximum: Option<nat>): (nat, bool)
    requires current <= desired
  {
    if maximum.Some? && maximum.value <= desired then (left, false)
    else if left < desired - current then (left, false)
    else (left - (desired - current), true)
  }

  class MemoryLimiter {
    var bytesLeft: nat
    var maxBytes: nat

    constructor (availablePages: nat)
      ensures bytesLeft == maxBytes == 65536 * availablePages
    {
      bytesLeft := PAGE_SIZE * availablePages;
      maxBytes := PAGE_SIZE * availablePages;
    }

    method Reset()
      modifies this`bytesLeft
      ensures bytesLeft == maxBytes
    {
      bytesLeft := maxBytes;
    }

    /** `memory_growing`: `false` stands for the "oom" error. Memories never shrink. */
    method MemoryGrowing(current: nat, desired: nat, maximum: Option<nat>) returns (granted: bool)
      requires current <= desired
      modifies this`bytesLeft
      ensures (bytesLeft, granted) == Charge(old(bytesLeft), current, desired, maximum)
      ensures granted <==> desired - current <= old(bytesLeft) && (maximum == None || desired < maximum.value)
      ensures bytesLeft == if granted then old(bytesLeft) - (desired - current) else old(bytesLeft)
    {
      if maximum.Some? {
        if desired >= maximum.value {
          return false;
        }
      }
      var d := desired - current;
      if d > bytesLeft {
        return false;
      }
      bytesLeft := bytesLeft - d;
      return true;
    }
  }

  // ----- The kernel under a limiter -----

  /**
   The kernel, the bytes left, the bytes other memories of the store have grown by, and the bytes
   `lost`: charged for growth that then did not happen.
   */
  datatype Limited = Limited(heap: Heap, left: nat, elsewhere: nat, lost: nat)

  datatype LimitedOp =
    | OnKernel(op: Op)
    | OtherMemory(current: nat, desired: nat, maximum: Option<nat>, grown: bool)

  /** The pages `alloc` asks the environment for, 0 when it comes to no growth. */
  function PagesAsked(h: Heap, n: u64): nat
    requires Sane(h)
  {
    if n == 0 || FirstFit(h.blocks, n % U32_LIMIT, 0) < |h.blocks| then 0 else
    var g := GrowthFor(h, n);
    if g.Some? then g.value else 0
  }

  /**
   One call. The limiter comes first and charges for what it lets pass; the page cap and the environment
   may still refuse, and the charge is not given back. Growth by 0 pages is not put to the limiter.
   */
  function LimitedStep(s: Limited, op: LimitedOp, cap: nat, maximum: Option<nat>): Limited
    requires WellFormed(s.heap) && s.heap.pages <= cap <= MAX_PAGES
  {
    match op
    case OtherMemory(current, desired, max, grown) =>
      if desired <= current then s else
      var (left, passed) := Charge(s.left, current, desired, max);
      if !passed then s
      else if grown then s.(left := left, elsewhere := s.elsewhere + (desired - current))
      else s.(left := left, lost := s.lost + (desired - current))
    case OnKernel(kop) =>
      var asked := if kop.Allocate? then PagesAsked(s.heap, kop.n) else 0;
      if asked == 0 then s.(heap := Step(s.heap, kop, cap)) else
      var (left, passed) := Charge(s.left, PAGE_SIZE * s.heap.pages, PAGE_SIZE * (s.heap.pages + asked), maximum);
      if !passed then s else
      var h := Step(s.heap, kop, cap);
      s.(heap := h, left := left, lost := s.lost + if h.pages == s.heap.pages then PAGE_SIZE * asked else 0)
  }

  /** A kernel call grows memory by the pages it asks for, or not at all; length follows. */
  lemma StepPages(h: Heap, op: Op, cap: nat)
    requires WellFormed(h) && h.pages <= cap <= MAX_PAGES
    ensures var h' := Step(h, op, cap);
            && WellFormed(h') && h'.pages <= cap
            && (h'.pages == h.pages || (op.Allocate? && h'.pages == h.pages + PagesAsked(h, op.n)))
            && h'.length - h.length == PAGE_SIZE * (h'.pages - h.pages)
  {
    StepWellFormed(h, op, cap);
  }

  lemma LimitedStepKeeps(s: Limited, op: LimitedOp, cap: nat, maximum: Option<nat>)
    requires WellFormed(s.heap) && s.heap.pages <= cap <= MAX_PAGES
    ensures var t := LimitedStep(s, op, cap, maximum);
            && WellFormed(t.heap) && t.heap.pages <= cap
            && s.heap.length <= t.heap.length
            && t.left + t.elsewhere + t.lost + t.heap.length == s.left + s.elsewhere + s.lost + s.heap.length
            && t.heap.length - s.heap.length == PAGE_SIZE * (t.heap.pages - s.heap.pages)
  {
    if op.OnKernel? {
      StepPages(s.heap, op.op, cap);
    }
  }

  /** The bytes a call asks the limiter for. */
  function Demand(h: Heap, op: LimitedOp): nat
    requires Sane(h)
  {
    match op
    case OtherMemory(current, desired, _, _) => if desired <= current then 0 else desired - current
    case OnKernel(kop) => if kop.Allocate? then 65536 * PagesAsked(h, kop.n) else 0
  }

  /** The memory that is to grow stays below its declared maximum. */
  predicate BelowMaximum(h: Heap, op: LimitedOp, maximum: Option<nat>)
    requires Sane(h)
  {
    match op
    case OtherMemory(_, desired, max, _) => max == None || desired < max.value
    case OnKernel(_) => maximum == None || 65536 * h.pages + Demand(h, op) < maximum.value
  }

  predicate Passes(s: Limited, op: LimitedOp, maximum: Option<nat>)
    requires Sane(s.heap)
  {
    Demand(s.heap, op) == 0 || (Demand(s.heap, op) <= s.left && BelowMaximum(s.heap, op, maximum))
  }

  /**
   The limiter lets growth pass exactly when the bytes are left and the maximum is not reached. What it
   stops changes nothing; what passes is charged and behaves as without a limiter.
   */
  lemma LimitedStepExactly(s: Limited, op: LimitedOp, cap: nat, maximum: Option<nat>)
    requires WellFormed(s.heap) && s.heap.pages <= cap <= MAX_PAGES
    ensures var t, d := LimitedStep(s, op, cap, maximum), Demand(s.heap, op);
            if !Passes(s, op, maximum) then t == s
            else
              && t.left == s.left - d
              && (op.OnKernel? ==> t.heap == Step(s.heap, op.op, cap) && t.elsewhere == s.elsewhere)
              && (op.OtherMemory? ==> t.heap == s.heap && t.elsewhere == s.elsewhere + if op.grown then d else 0)
  {
  }

  function LimitedRun(s: Limited, ops: seq<LimitedOp>, cap: nat, maximum: Option<nat>): (t: Limited)
    requires WellFormed(s.heap) && s.heap.pages <= cap <= MAX_PAGES
    ensures WellFormed(t.heap) && t.heap.pages <= cap
  {
    if ops == [] then s else
    var before := LimitedRun(s, ops[..|ops| - 1], cap, maximum);
    LimitedStepKeeps(before, ops[|ops| - 1], cap, maximum);
    LimitedStep(before, ops[|ops| - 1], cap, maximum)
  }

  /**
   Conservation since the limiter's reset, for any budget: the bytes the kernel and other memories have
   grown by, and those charged in vain, are exactly what is missing from the budget; so the kernel's
   length never rises by more than the budget.
   */
  lemma {:induction false} LimiterConserves(h: Heap, maxBytes: nat, ops: seq<LimitedOp>, cap: nat, maximum: Option<nat>)
    requires WellFormed(h) && h.pages <= cap <= MAX_PAGES
    ensures var t := LimitedRun(Limited(h, maxBytes, 0, 0), ops, cap, maximum);
            var rise := t.heap.length - h.length;
            && 0 <= rise <= maxBytes && rise + t.elsewhere + t.lost == maxBytes - t.left
            && rise == PAGE_SIZE * (t.heap.pages - h.pages)
    decreases |ops|
  {
    if ops != [] {
      var n := |ops| - 1;
      LimiterConserves(h, maxBytes, ops[..n], cap, maximum);
      LimitedStepKeeps(LimitedRun(Limited(h, maxBytes, 0, 0), ops[..n], cap, maximum), ops[n], cap, maximum);
    }
  }

  /** All that a run asks for. */
  function Demanded(s: Limited, ops: seq<LimitedOp>, cap: nat, maximum: Option<nat>): nat
    requires WellFormed(s.heap) && s.heap.pages <= cap <= MAX_PAGES
  {
    if ops == [] then 0 else
    var n := |ops| - 1;
    Demanded(s, ops[..n], cap, maximum) + Demand(LimitedRun(s, ops[..n], cap, maximum).heap, ops[n])
  }

  ghost predicate AllBelowMaximum(s: Limited, ops: seq<LimitedOp>, cap: nat, maximum: Option<nat>)
    requires WellFormed(s.heap) && s.heap.pages <= cap <= MAX_PAGES
  {
    ops == [] ||
    var n := |ops| - 1;
    AllBelowMaximum(s, ops[..n], cap, maximum) &&
    BelowMaximum(LimitedRun(s, ops[..n], cap, maximum).heap, ops[n], maximum)
  }

  ghost predicate AllPass(s: Limited, ops: seq<LimitedOp>, cap: nat, maximum: Option<nat>)
    requires WellFormed(s.heap) && s.heap.pages <= cap <= MAX_PAGES
  {
    ops == [] ||
    var n := |ops| - 1;
    AllPass(s, ops[..n], cap, maximum) && Passes(LimitedRun(s, ops[..n], cap, maximum), ops[n], maximum)
  }

  /** The calls of a run that go to the kernel. */
  function KernelCalls(ops: seq<LimitedOp>): seq<Op>
  {
    if ops == [] then [] else
    var n := |ops| - 1;
    KernelCalls(ops[..n]) + if ops[n].OnKernel? then [ops[n].op] else []
  }

  lemma OneMoreCall(h: Heap, calls: seq<Op>, op: Op, cap: nat)
    requires WellFormed(h) && h.pages <= cap <= MAX_PAGES
    ensures Run(h, calls + [op], cap) == Step(Run(h, calls, cap), op, cap)
  {
    assert (calls + [op])[..|calls|] == calls;
  }

  lemma PassingStep(s: Limited, h: Heap, calls: seq<Op>, op: LimitedOp, cap: nat, maximum: Option<nat>)
    requires WellFormed(h) && h.pages <= cap <= MAX_PAGES && s.heap == Run(h, calls, cap) && Passes(s, op, maximum)
    ensures var t := LimitedStep(s, op, cap, maximum);
            && t.left == s.left - Demand(s.heap, op)
            && t.heap == Run(h, calls + if op.OnKernel? then [op.op] else [], cap)
  {
    LimitedStepExactly(s, op, cap, maximum);
    if op.OnKernel? {
      OneMoreCall(h, calls, op.op, cap);
    } else {
      assert calls + [] == calls;
    }
  }

  /** A run that is never stopped takes the kernel where it would come without a limiter. */
  lemma {:induction false} PassingRun(s: Limited, ops: seq<LimitedOp>, cap: nat, maximum: Option<nat>)
    requires WellFormed(s.heap) && s.heap.pages <= cap <= MAX_PAGES && AllPass(s, ops, cap, maximum)
    ensures LimitedRun(s, ops, cap, maximum).left == s.left - Demanded(s, ops, cap, maximum)
    ensures LimitedRun(s, ops, cap, maximum).heap == Run(s.heap, KernelCalls(ops), cap)
    decreases |ops|
  {
    if ops != [] {
      var n := |ops| - 1;
      PassingRun(s, ops[..n], cap, maximum);
      PassingStep(LimitedRun(s, ops[..n], cap, maximum), s.heap, KernelCalls(ops[..n]), ops[n], cap, maximum);
    }
  }

  /** A budget that covers what a run asks for, below every maximum, is never felt after the limiter's reset. */
  lemma {:induction false} BudgetSuffices(h: Heap, maxBytes: nat, ops: seq<LimitedOp>, cap: nat, maximum: Option<nat>)
    requires WellFormed(h) && h.pages <= cap <= MAX_PAGES
    requires AllBelowMaximum(Limited(h, maxBytes, 0, 0), ops, cap, maximum)
    requires Demanded(Limited(h, maxBytes, 0, 0), ops, cap, maximum) <= maxBytes
    ensures AllPass(Limited(h, maxBytes, 0, 0), ops, cap, maximum)
    decreases |ops|
  {
    if ops != [] {
      var n := |ops| - 1;
      BudgetSuffices(h, maxBytes, ops[..n], cap, maximum);
      PassingRun(Limited(h, maxBytes, 0, 0), ops[..n], cap, maximum);
    }
  }
}
