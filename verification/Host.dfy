/** The host side of the kernel: handles, input delivery and the variable store. */
module Host {
  import opened KernelHeap
  import opened Wrappers
  import opened LinearMemory
  import opened LittleEndian
  import opened HeapInvariant
  import opened HeapBytes
  import opened HeapPayload
  import opened KernelRuns
  import opened KernelSafety
  import opened Kernel
  import opened VarStore

  datatype MemoryHandle = MemoryHandle(offset: nat, length: nat)

  const NULL_HANDLE := MemoryHandle(0, 0)

  datatype Error = OutOfMemory | StoreFull | InvalidHandle | NotUtf8

  datatype Result<+T> = Ok(value: T) | Err(error: Error)

  /** A 32-bit size, or one that `alloc` refuses: wider sizes are truncated on their way into a header. */
  predicate SizeKept(h: Heap, n: u64, cap: nat, granted: bool)
    requires Sane(h)
  {
    n < U32_LIMIT ||
    (FirstFit(h.blocks, n % U32_LIMIT, 0) == |h.blocks| && Refused(h, GrowthFor(h, n), cap, granted))
  }

  /**
   The bytes a handle offset stands for: none for the null offset, a live allocation, or nothing. A
   live allocation of length 0 counts as nothing.
   */
  ghost function BytesAt(m: seq<byte>, h: Heap, offs: nat): Option<seq<byte>>
    requires WellFormed(h) && Represents(m, h)
  {
    if offs == 0 then Some([]) else
    match Lookup(h.blocks, offs)
    case None => None
    case Some(u) => LiveRange(h, offs); if u == 0 then None else Some(m[offs..offs + u])
  }

  class CurrentPlugin {
    const kernel: Kernel
    /** `std::str::from_utf8` succeeds. */
    const isUtf8: seq<byte> -> bool
    var vars: Vars
    /** Every accepted change of the variables, in order. */
    ghost var log: seq<VarOp>

    ghost predicate Valid()
      reads this, kernel, kernel.mem
    {
      kernel.Valid() && vars == VarRun(log) && GoodOps(log)
    }

    constructor (kernel: Kernel, isUtf8: seq<byte> -> bool)
      requires kernel.Valid()
      ensures Valid() && this.kernel == kernel && this.isUtf8 == isUtf8 && log == [] && vars == map[]
    {
      this.kernel := kernel;
      this.isUtf8 := isUtf8;
      vars := map[];
      log := [];
    }

    // ----- Handles -----

    /** Exactly the live handles that are not empty are found: a trap in the kernel's walk counts as not found. */
    method HandleOf(offs: u64) returns (r: Option<MemoryHandle>)
      requires Valid() && Settled(kernel.heap, offs)
      ensures r == if offs == 0 then Some(NULL_HANDLE) else
                   match Lookup(kernel.heap.blocks, offs)
                   case None => None
                   case Some(u) => if u == 0 then None else Some(MemoryHandle(offs, u))
    {
      if offs == 0 {
        return Some(NULL_HANDLE);
      }
      var length := kernel.Length(offs);
      LengthIsLookup(kernel.heap, offs);
      if Lookup(kernel.heap.blocks, offs).Some? {
        LiveRange(kernel.heap, offs);
      }
      var len := if length.Value? then length.value else 0;
      if len == 0 {
        return None;
      }
      r := Some(MemoryHandle(offs, len));
    }

    method MemoryBytes(handle: MemoryHandle) returns (bytes: seq<byte>)
      requires Valid() && handle.offset + handle.length <= kernel.mem.Length
      ensures bytes == kernel.mem[handle.offset..handle.offset + handle.length]
    {
      bytes := kernel.mem[handle.offset..handle.offset + handle.length];
    }

    /** The bytes behind an offset, or nothing when it is no handle. */
    method Fetch(offs: u64) returns (r: Option<seq<byte>>)
      requires Valid() && Settled(kernel.heap, offs)
      ensures r == BytesAt(kernel.mem[..], kernel.heap, offs)
      ensures var u := Lookup(kernel.heap.blocks, offs);
              r == if offs == 0 then Some([])
                   else if u == None || u == Some(0) then None
                   else (LiveRange(kernel.heap, offs); Some(kernel.mem[offs..offs + u.value]))
      ensures r.Some? && offs != 0 ==> 1 <= |r.value| < U32_LIMIT
    {
      var handle := HandleOf(offs);
      match handle
      case None => r := None;
      case Some(h) =>
        if offs != 0 {
          LiveRange(kernel.heap, offs);
        }
        var bytes := MemoryBytes(h);
        r := Some(bytes);
    }

    /** Kernel `alloc`, with 0 as an error; the handle carries the size asked for, however wide. */
    method MemoryAlloc(n: u64, granted: bool) returns (r: Result<MemoryHandle>)
      requires Valid() && !Overruns(kernel.heap, n, kernel.cap, granted)
      modifies kernel, kernel.mem
      ensures Valid() && (kernel.mem == old(kernel.mem) || fresh(kernel.mem))
      ensures var (h', p) := Alloc(old(kernel.heap), n, kernel.cap, granted);
              && kernel.heap == h'
              && r == if n == 0 then Ok(NULL_HANDLE) else if p == 0 then Err(OutOfMemory) else Ok(MemoryHandle(p, n))
      ensures LiveBytesKept(old(kernel.mem[..]), kernel.mem[..], old(kernel.heap.blocks))
    {
      ghost var m, h := kernel.mem[..], kernel.heap;
      if n == 0 {
        NothingWritten();
        return Ok(NULL_HANDLE);
      }
      var p := kernel.Alloc(n, granted);
      LiveDataIsBytes(m, kernel.mem[..], h);
      if p == 0 {
        return Err(OutOfMemory);
      }
      r := Ok(MemoryHandle(p, n));
    }

    lemma NothingWritten()
      requires Valid()
      ensures LiveBytesKept(kernel.mem[..], kernel.mem[..], kernel.heap.blocks)
    {
      OutsideBlocksKept(kernel.mem[..], kernel.mem[..], kernel.heap.blocks, 0, 0);
      LiveDataIsBytes(kernel.mem[..], kernel.mem[..], kernel.heap);
    }

    /** A new allocation holding `data`: disjoint from every live one, all of which keep their bytes. */
    method MemoryNew(data: seq<byte>, granted: bool) returns (r: Result<MemoryHandle>)
      requires Valid() && |data| < U64_LIMIT && SizeKept(kernel.heap, |data|, kernel.cap, granted)
      modifies kernel, kernel.mem
      ensures Valid() && (kernel.mem == old(kernel.mem) || fresh(kernel.mem))
      ensures var (h', p) := Alloc(old(kernel.heap), |data|, kernel.cap, granted);
              && kernel.heap == h'
              && r == (if data == [] then Ok(NULL_HANDLE)
                       else if p == 0 then Err(OutOfMemory)
                       else Ok(MemoryHandle(p, |data|)))
      ensures r.Ok? ==> BytesAt(kernel.mem[..], kernel.heap, r.value.offset) == Some(data)
      ensures r.Ok? && data != [] ==> Lookup(old(kernel.heap.blocks), r.value.offset) == None
      ensures LiveBytesKept(old(kernel.mem[..]), kernel.mem[..], old(kernel.heap.blocks))
    {
      if data == [] {
        NothingWritten();
        return Ok(NULL_HANDLE);
      }
      ghost var m, h := kernel.mem[..], kernel.heap;
      r := MemoryAlloc(|data|, granted);
      if r.Ok? {
        FillNew(r.value, data, granted, m, h);
      }
    }

    /** Copy the data into the allocation just made in heap `h`, over memory `m`. */
    method FillNew(handle: MemoryHandle, data: seq<byte>, granted: bool, ghost m: seq<byte>, ghost h: Heap)
      requires Valid() && WellFormed(h) && handle.length == |data| < U32_LIMIT
      requires Alloc(h, |data|, kernel.cap, granted) == (kernel.heap, handle.offset) && handle.offset != 0
      requires LiveBytesKept(m, kernel.mem[..], h.blocks)
      modifies kernel.mem
      ensures Valid() && Lookup(h.blocks, handle.offset) == None
      ensures data != [] ==> BytesAt(kernel.mem[..], kernel.heap, handle.offset) == Some(data)
      ensures LiveBytesKept(m, kernel.mem[..], h.blocks)
    {
      ghost var m1 := kernel.mem[..];
      NewBlockAt(h, |data|, kernel.cap, granted);
      CopyIn(handle, data);
      NewBlockFilled(m, m1, kernel.mem[..], h, |data|, kernel.cap, granted, handle.offset);
    }

    method CopyIn(handle: MemoryHandle, data: seq<byte>)
      requires handle.length == |data| && handle.offset + |data| <= kernel.mem.Length
      modifies kernel.mem
      ensures kernel.mem[handle.offset..handle.offset + |data|] == data
      ensures SameOutside(old(kernel.mem[..]), kernel.mem[..], handle.offset, handle.offset + |data|)
    {
      var bytes := kernel.mem;
      forall i | 0 <= i < |data| {
        bytes[handle.offset + i] := data[i];
      }
    }

    // ----- Variables -----

    method TotalSize() returns (size: nat)
      ensures size == Total(vars) && (vars == map[] ==> size == 0)
    {
      size := 0;
      var rest := vars;
      while rest != map[]
        invariant size + Total(rest) == Total(vars)
        decreases |rest|
      {
        var k :| k in rest;
        TotalSplit(rest, k);
        SmallerWithout(rest, k);
        size := size + |rest[k]|;
        rest := rest - {k};
      }
    }

    /**
     `var_set`: the key and the value are offsets; a null value offset drops the key. The errors are
     those of the first check that fails, and change nothing.
     */
    method VarSet(keyOffs: u64, voffset: u64) returns (r: Result<()>)
      requires Valid() && Settled(kernel.heap, keyOffs) && Settled(kernel.heap, voffset)
      modifies this
      ensures Valid() && kernel.heap == old(kernel.heap) && kernel.mem[..] == old(kernel.mem[..])
      ensures var m, h := kernel.mem[..], kernel.heap;
              var key, value := BytesAt(m, h, keyOffs), BytesAt(m, h, voffset);
              if 104857600 < Total(old(vars)) && voffset != 0 then r == Err(StoreFull)
              else if key == None then r == Err(InvalidHandle)
              else if !isUtf8(key.value) then r == Err(NotUtf8)
              else if voffset == 0 then r == Ok(()) && vars == old(vars) - {key.value}
              else if value == None then r == Err(InvalidHandle)
              else r == Ok(()) && vars == old(vars)[key.value := value.value]
      ensures r.Err? ==> vars == old(vars) && log == old(log)
      ensures r.Ok? ==>
                log == old(log) + [if voffset == 0 then Drop(BytesAt(kernel.mem[..], kernel.heap, keyOffs).value)
                                   else Put(BytesAt(kernel.mem[..], kernel.heap, keyOffs).value,
                                            BytesAt(kernel.mem[..], kernel.heap, voffset).value)]
    {
      var size := TotalSize();
      if size > STORE_LIMIT && voffset != 0 {
        return Err(StoreFull);
      }
      var key := Fetch(keyOffs);
      if key == None {
        return Err(InvalidHandle);
      }
      if !isUtf8(key.value) {
        return Err(NotUtf8);
      }
      if voffset == 0 {
        vars := vars - {key.value};
        Record(Drop(key.value));
        return Ok(());
      }
      var value := Fetch(voffset);
      if value == None {
        return Err(InvalidHandle);
      }
      vars := vars[key.value := value.value];
      Record(Put(key.value, value.value));
      r := Ok(());
    }

    ghost method Record(op: VarOp)
      requires kernel.Valid() && GoodOps(log) && (op.Put? ==> 1 <= |op.value| < U32_LIMIT)
      requires vars == VarStep(VarRun(log), op)
      modifies this`log
      ensures Valid() && log == old(log) + [op]
    {
      LogExtended(log, op);
      log := log + [op];
    }

    /** The store a plugin can build up is bounded, has no empty value, and holds what was set last. */
    lemma StoreInvariant(largest: nat, key: seq<byte>)
      requires Valid() && ValuesAtMost(log, largest)
      ensures Total(vars) <= STORE_LIMIT + largest && GoodVars(vars)
      ensures LastSet(log, key) == if key in vars then [vars[key]] else []
    {
      StoreBounded(log, largest);
      StoreGood(log);
      StoreHoldsLastSet(log, key);
    }

    /** `var_get`: 0 exactly when the key is absent, and otherwise a new allocation holding the value. */
    method VarGet(keyOffs: u64, granted: bool) returns (r: Result<nat>)
      requires Valid() && Settled(kernel.heap, keyOffs)
      modifies kernel, kernel.mem
      ensures Valid() && (kernel.mem == old(kernel.mem) || fresh(kernel.mem))
      ensures var key := BytesAt(old(kernel.mem[..]), old(kernel.heap), keyOffs);
              if key == None then r == Err(InvalidHandle) && kernel.heap == old(kernel.heap)
              else if !isUtf8(key.value) then r == Err(NotUtf8) && kernel.heap == old(kernel.heap)
              else if key.value !in vars then r == Ok(0) && kernel.heap == old(kernel.heap)
              else
                1 <= |vars[key.value]| < U32_LIMIT &&
                var (h', p) := Alloc(old(kernel.heap), |vars[key.value]|, kernel.cap, granted);
                && kernel.heap == h'
                && r == (if p == 0 then Err(OutOfMemory) else Ok(p))
                && (p != 0 ==> Lookup(old(kernel.heap.blocks), p) == None)
                && (p != 0 ==> BytesAt(kernel.mem[..], kernel.heap, p) == Some(vars[key.value]))
      ensures LiveBytesKept(old(kernel.mem[..]), kernel.mem[..], old(kernel.heap.blocks))
    {
      NothingWritten();
      var key := Fetch(keyOffs);
      if key == None {
        return Err(InvalidHandle);
      }
      if !isUtf8(key.value) {
        return Err(NotUtf8);
      }
      if key.value !in vars {
        return Ok(0);
      }
      StoreGood(log);
      var handle := MemoryNew(vars[key.value], granted);
      match handle
      case Err(e) => r := Err(e);
      case Ok(h) => r := Ok(h.offset);
    }
  }

  /** What is set under a key is what a later query of that key copies into a new block. */
  method SetThenGet(plugin: CurrentPlugin, keyOffs: u64, voffset: u64, granted: bool)
    returns (put: Result<()>, got: Result<nat>)
    requires plugin.Valid() && Settled(plugin.kernel.heap, keyOffs) && Settled(plugin.kernel.heap, voffset)
    modifies plugin, plugin.kernel, plugin.kernel.mem
    ensures plugin.Valid()
    ensures var k := plugin.kernel;
            var value := BytesAt(old(k.mem[..]), old(k.heap), voffset);
            put.Ok? ==>
              if voffset == 0 then got == Ok(0) && k.heap == old(k.heap)
              else
                && value.Some? && (got.Ok? || got == Err(OutOfMemory))
                && (got.Ok? ==> got.value != 0 && Lookup(old(k.heap.blocks), got.value) == None
                                && BytesAt(k.mem[..], k.heap, got.value) == value)
  {
    put := plugin.VarSet(keyOffs, voffset);
    got := plugin.VarGet(keyOffs, granted);
  }

  lemma NewBlockAt(h: Heap, n: u32, cap: nat, granted: bool)
    requires WellFormed(h) && cap <= MAX_PAGES && Alloc(h, n, cap, granted).1 != 0
    ensures var (h', p) := Alloc(h, n, cap, granted);
            Lookup(h.blocks, p) == None && Lookup(h'.blocks, p) == Some(n) && p + n <= PAGE_SIZE * h'.pages
  {
    var (h', p) := Alloc(h, n, cap, granted);
    AllocHandles(h, n, cap, granted, p);
    AllocWellFormed(h, n, cap, granted);
    LiveRange(h', p);
  }

  /** The handle is live, and not the new handle `p`, before and after. */
  ghost predicate StaysLive(bs: seq<Block>, cs: seq<Block>, p: nat, q: nat)
  {
    q != p && Lookup(bs, q).Some? && Lookup(cs, q) == Lookup(bs, q)
  }

  lemma EarlierLive(h: Heap, n: u32, cap: nat, granted: bool, q: nat)
    requires WellFormed(h) && Alloc(h, n, cap, granted).1 != 0 && Lookup(h.blocks, q).Some?
    ensures StaysLive(h.blocks, Alloc(h, n, cap, granted).0.blocks, Alloc(h, n, cap, granted).1, q)
  {
    AllocHandles(h, n, cap, granted, q);
  }

  lemma EarlierKept(m: seq<byte>, m1: seq<byte>, m2: seq<byte>, bs: seq<Block>, h1: Heap, p: nat, n: nat, q: nat)
    requires WellFormed(h1) && Lookup(h1.blocks, p) == Some(n) && SameOutside(m1, m2, p, p + n)
    requires StaysLive(bs, h1.blocks, p, q) && BytesKept(m, m1, q, Lookup(bs, q).value)
    ensures BytesKept(m, m2, q, Lookup(bs, q).value)
  {
    LiveRangesDisjoint(h1, p, q);
    BytesOutside(m1, m2, p, p + n, q, Lookup(bs, q).value);
  }

  lemma FilledKeeps(m: seq<byte>, m1: seq<byte>, m2: seq<byte>, bs: seq<Block>, h1: Heap, p: nat, n: nat)
    requires WellFormed(h1) && Lookup(h1.blocks, p) == Some(n) && SameOutside(m1, m2, p, p + n)
    requires LiveBytesKept(m, m1, bs) && forall q: nat :: Lookup(bs, q).Some? ==> StaysLive(bs, h1.blocks, p, q)
    ensures LiveBytesKept(m, m2, bs)
  {
    forall q: nat | Lookup(bs, q).Some? ensures BytesKept(m, m2, q, Lookup(bs, q).value) {
      assert BytesKept(m, m1, q, Lookup(bs, q).value) && StaysLive(bs, h1.blocks, p, q);
      EarlierKept(m, m1, m2, bs, h1, p, n, q);
    }
  }

  /** Filling a new allocation keeps the heap and every allocation that was live before it. */
  lemma NewBlockFilled(
      m: seq<byte>, m1: seq<byte>, m2: seq<byte>, h: Heap, n: u32, cap: nat, granted: bool, p: nat)
    requires WellFormed(h) && cap <= MAX_PAGES && (Alloc(h, n, cap, granted).1 == p != 0)
    requires Represents(m1, Alloc(h, n, cap, granted).0) && WellFormed(Alloc(h, n, cap, granted).0)
    requires LiveBytesKept(m, m1, h.blocks) && SameOutside(m1, m2, p, p + n)
    ensures Represents(m2, Alloc(h, n, cap, granted).0)
    ensures LiveBytesKept(m, m2, h.blocks)
  {
    var h1 := Alloc(h, n, cap, granted).0;
    NewBlockAt(h, n, cap, granted);
    LiveInData(h1, p, p, p + n);
    DataWritten(m1, m2, h1, p, p + n);
    forall q: nat | Lookup(h.blocks, q).Some? ensures StaysLive(h.blocks, h1.blocks, p, q) {
      EarlierLive(h, n, cap, granted, q);
    }
    FilledKeeps(m, m1, m2, h.blocks, h1, p, n);
  }

  lemma BytesOutside(m: seq<byte>, m': seq<byte>, lo: nat, hi: nat, q: nat, n: nat)
    requires SameOutside(m, m', lo, hi) && q + n <= |m| && (q + n <= lo || hi <= q)
    ensures m'[q..q + n] == m[q..q + n]
  {
  }
}
