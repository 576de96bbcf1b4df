/** Delivering input to a plugin: clear, reset, copy the bytes in, and announce them. */
module PluginInput {
  import opened KernelHeap
  import opened Wrappers
  import opened LinearMemory
  import opened LittleEndian
  import opened HeapLayout
  import opened HeapInvariant
  import opened HeapBytes
  import opened HeapPayload
  import opened KernelGrowth
  import opened KernelSafety
  import opened Host

  const FIRST_HANDLE := BLOCKS + HEADER

  datatype Output = Output(offset: nat, length: nat, errorOffset: nat, errorLength: nat)

  const NO_OUTPUT := Output(0, 0, 0, 0)

  /** `n` bytes do not fit into heap `h`, whatever `cap` allows, or growing for them is refused. */
  predicate Rejected(h: Heap, n: nat, cap: nat, granted: bool, base: nat)
    requires base <= cap
  {
    n != 0 && (TooBig(h, n, cap, base) || Denied(h, n, granted))
  }

  /** The heap after input of `n` bytes was delivered: nothing, or the one block that holds it. */
  function WithInput(h: Heap, n: u32, pages: nat, length: nat): Heap
  {
    if n == 0 then Reset(h)
    else Heap([Block(Active, n, n)], pages, length, 0, FIRST_HANDLE, n, 0, 0)
  }

  class Plugin {
    const current: CurrentPlugin
    var output: Output

    ghost predicate Valid()
      reads this, current, current.kernel, current.kernel.mem
    {
      current.Valid()
    }

    constructor (current: CurrentPlugin)
      requires current.Valid()
      ensures Valid() && this.current == current && output == NO_OUTPUT
    {
      this.current := current;
      output := NO_OUTPUT;
    }

    /**
     `Plugin::set_input`, from any valid state. It fails exactly when the input does not fit into the
     pages allowed or growth is refused, and then leaves an empty heap; otherwise the input is the only
     live block.
     */
    method SetInput(input: seq<byte>, granted: bool, ghost base: nat) returns (r: Result<()>)
      requires Valid() && Grown(current.kernel.heap, base) && |input| < U64_LIMIT
      requires !Overruns(Reset(current.kernel.heap), |input|, current.kernel.cap, granted)
      modifies this, current.kernel, current.kernel.mem
      ensures Valid() && output == Output(0, 0, 0, 0)
      ensures var n, kernel := |input|, current.kernel;
              && Grown(kernel.heap, base)
              && (r.Err? <==> n != 0 && (65472 + 65536 * (kernel.cap - base) < n + 76 ||
                                         (!granted && old(kernel.heap).length <= n + 76)))
              && kernel.heap.error == kernel.heap.outputOffset == kernel.heap.outputLength == 0
              && if r.Err? || n == 0 then
                   kernel.heap.blocks == [] && kernel.heap.inputOffset == kernel.heap.inputLength == 0
                 else
                   && n < U32_LIMIT && kernel.heap.blocks == [Block(Active, n, n)]
                   && kernel.heap.inputOffset == 77 && kernel.heap.inputLength == n
                   && BytesAt(kernel.mem[..], kernel.heap, 77) == Some(input)
    {
      output := NO_OUTPUT;
      current.kernel.ErrorSet(0);
      current.kernel.Reset();
      r := FillInput(input, granted, base);
    }

    /** The second half: copy the input into the emptied heap and announce it. */
    method FillInput(input: seq<byte>, granted: bool, ghost base: nat) returns (r: Result<()>)
      requires Valid() && Grown(current.kernel.heap, base) && |input| < U64_LIMIT
      requires current.kernel.heap == Reset(current.kernel.heap)
      requires !Overruns(current.kernel.heap, |input|, current.kernel.cap, granted)
      modifies current.kernel, current.kernel.mem
      ensures Valid()
      ensures var h0, h := old(current.kernel.heap), current.kernel.heap;
              && Grown(h, base)
              && (r.Err? <==> Rejected(h0, |input|, current.kernel.cap, granted, base))
              && (r.Err? ==> h == h0)
              && (r.Ok? ==> |input| < U32_LIMIT && h == WithInput(h0, |input|, h.pages, h.length))
      ensures r.Ok? && input != [] ==> BytesAt(current.kernel.mem[..], current.kernel.heap, FIRST_HANDLE) == Some(input)
    {
      var kernel := current.kernel;
      ghost var h := kernel.heap;
      FillOutcome(h, |input|, kernel.cap, granted, base);
      var handle := current.MemoryNew(input, granted);
      if handle.Err? {
        return Err(handle.error);
      }
      ghost var h1, m1 := kernel.heap, kernel.mem[..];
      kernel.InputSet(handle.value.offset, |input|);
      r := Ok(());
      if input != [] {
        assert kernel.heap == WithInput(h, |input|, h1.pages, h1.length);
        AnnouncedBytes(m1, kernel.mem[..], h1, kernel.heap, input);
      }
    }
  }

  /** Announcing the input writes only the root record. */
  lemma AnnouncedBytes(m: seq<byte>, m': seq<byte>, h: Heap, h': Heap, input: seq<byte>)
    requires WellFormed(h) && Represents(m, h) && WellFormed(h') && Represents(m', h') && h'.blocks == h.blocks
    requires SameOutside(m, m', RootAddr(0), BLOCKS)
    requires BytesAt(m, h, FIRST_HANDLE) == Some(input)
    ensures BytesAt(m', h', FIRST_HANDLE) == Some(input)
  {
    LiveRange(h, FIRST_HANDLE);
    BytesOutside(m, m', RootAddr(0), BLOCKS, FIRST_HANDLE, Lookup(h.blocks, FIRST_HANDLE).value);
  }

  /**
   Allocating in an empty heap gets the first handle or fails as `Rejected` says, and announcing the
   block gives `WithInput`; null is not announced.
   */
  lemma FillOutcome(h: Heap, n: u64, cap: nat, granted: bool, base: nat)
    requires WellFormed(h) && h == Reset(h) && Grown(h, base) && h.pages <= cap <= MAX_PAGES
    requires !Overruns(h, n, cap, granted)
    ensures SizeKept(h, n, cap, granted)
    ensures n == 0 ==> InputSet(Alloc(h, n, cap, granted).0, 0, 0) == h
    ensures var (h', p) := Alloc(h, n, cap, granted);
            && Grown(h', base)
            && (p == 0 <==> n == 0 || Rejected(h, n, cap, granted, base))
            && (p == 0 ==> h' == h)
            && (p != 0 ==> p == FIRST_HANDLE && n < U32_LIMIT &&
                           InputSet(h', p, n) == WithInput(h, n, h'.pages, h'.length))
  {
    if 1 <= n < U32_LIMIT {
      BumpOutcome(h, n, cap, granted, base);
    } else {
      AllocFailsExactly(h, n, cap, granted, base);
    }
  }

  /** End to end: after delivery the plugin's input loads return the host's bytes, and 0 past their end. */
  lemma DeliveredInputReads(m: seq<byte>, h: Heap, h0: Heap, input: seq<byte>, i: u64)
    requires Represents(m, h) && WellFormed(h) && 0 < |input| < U32_LIMIT
    requires h == WithInput(h0, |input|, h.pages, h.length)
    requires BytesAt(m, h, FIRST_HANDLE) == Some(input)
    ensures ReadInputByte(m, h, i) == Value(if i < |input| then input[i] else 0)
    ensures i + 8 <= |input| ==> ReadInputU64(m, h, i) == Value(Decode(input[i..i + 8]))
    ensures |input| < i + 8 && (i < |input| || i + 8 < U64_LIMIT) ==> ReadInputU64(m, h, i) == Value(0)
    ensures forall p: nat :: Lookup(h.blocks, p).Some? <==> p == FIRST_HANDLE
  {
    forall p: nat ensures Lookup(h.blocks, p).Some? <==> p == FIRST_HANDLE {
      if p == FIRST_HANDLE {
        LookupLive(h.blocks, 0, p);
      } else {
        LookupDead(h.blocks, p);
      }
    }
    LookupLive(h.blocks, 0, FIRST_HANDLE);
    LiveRange(h, FIRST_HANDLE);
    if i < |input| {
      InputLoads(m, h, i);
      assert m[FIRST_HANDLE..FIRST_HANDLE + |input|][i] == m[FIRST_HANDLE + i];
      if i + 8 <= |input| {
        SliceOfSlice(m, FIRST_HANDLE, |input|, i);
      }
    }
  }

  lemma SliceOfSlice(m: seq<byte>, lo: nat, n: nat, i: nat)
    requires lo + n <= |m| && i + 8 <= n
    ensures m[lo..lo + n][i..i + 8] == m[lo + i..lo + i + 8]
  {
    var s, t := m[lo..lo + n][i..i + 8], m[lo + i..lo + i + 8];
    forall j | 0 <= j < 8 ensures s[j] == t[j] {
    }
    assert |s| == |t| == 8;
  }
}
