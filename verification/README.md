# A verified model of the Extism kernel allocator and its host side

The Extism kernel is a heap allocator compiled to WebAssembly. It lives in one growable byte array: a 64-byte
root record at address 1, then blocks, each a 12-byte header (status, size, used) in front of its data. Blocks are
found only by walking headers. The host delivers input through it, keeps plugin variables beside it, limits its
growth, and, in the Otoroshi fork, has a second allocator with an out-of-band free list.

## How the project is organised

| file | what is in it |
|---|---|
| Wrappers.dfy, LittleEndian.dfy, LinearMemory.dfy | `Option`; words in a snapshot of linear memory, writes and their frames |
| KernelHeap.dfy | the allocator as a value: a list of blocks and the root fields, and what every call does to it |
| HeapLayout.dfy, HeapInvariant.dfy | block addresses, the handle map, and the invariant every call keeps |
| HeapBytes.dfy, HeapPayload.dfy | how bytes represent that value, and which writes leave live data alone |
| Kernel.dfy | the class `Kernel`: a byte array, loops that walk addresses, headers and root fields read and written in place; every method is proved to do to the represented value what KernelHeap says |
| KernelRuns.dfy, KernelEffects.dfy | runs of calls; what one call does to handles and block boundaries, and, in the numbers of the layout, to every field |
| KernelView.dfy, KernelClient.dfy | what a client can conclude from the answers alone, and that every run lives up to it, abstractly and against the bytes |
| KernelGrowth.dfy, KernelSafety.dfy | growth, failure, first fit, reset; isolation, waste, fragmentation, length queries, input |
| Host.dfy, PluginInput.dfy, VarStore.dfy | handles, `memory_new`, `set_input`, the variable store |
| Limiter.dfy | the memory limiter, and the kernel growing under it |
| PluginBlocks.dfy, CustomMemory.dfy | Otoroshi's `PluginMemory`, as a value and as a class |
| PluginEffects.dfy, PluginPartition.dfy, PluginGrowth.dfy, PluginCompaction.dfy | what one call changes, its partition invariant, its growth, and what compaction does |

`WellFormed` and `Represents` hold after construction and after every method, so what is proved of a heap with
them holds in every reachable state; `KernelRuns.Run` says the same of every sequence of calls. Where a lemma
speaks of `base`, it is the number of pages at initialisation, and `GrowthIsExact` shows that every reachable
heap satisfies `Grown` for it. The environment's answer to a request for more memory is the parameter `granted`.

`KernelRuns.InContract` says which calls of a run the model can follow: loads and stores through a handle stay
inside its allocation, no allocation overruns memory and no search wraps around 2^32 (both explained below). The
last two always hold for requests of up to 65536 * (2^32 - 1) - 12 bytes in memories below 65536 pages
(`KernelGrowth.NoOverrun`, `KernelRuns.SettledBelowTop`). Which handles `input_set` is called with is not part of
it; `KernelSafety.InputDocumented` describes the documented use separately.

## Where the code does less than it promises

The model follows the code. These promises hold only under a condition, which is proved exact unless it says
otherwise.

* Freeing or measuring a handle that is not live is meant to be harmless, and `find_block` is meant to stop at the
  bump position. Its bound is `blocks + offs` although `offs` is already an address
  (kernel/src/lib.rs:315), so a miss walks on through zero bytes and traps when it reads past the end of memory.
  `WalkTraps` is the exact condition (`KernelRuns.LengthIsLookup`, `KernelRuns.FreeHandles`);
  `KernelSafety.DoubleFreeCanTrap` frees a block twice in a heap that two allocations reach, and the second traps.
  With 72 bytes of memory above the address no query traps (`KernelSafety.LengthSafeBelow`). In a memory of 65536
  pages the walk can instead step onto address 0, exactly under `WalkWraps`; what it finds there is not modelled.
* Loads and stores out of bounds are meant to give 0 and to do nothing. The fast bounds check includes the end of
  memory, so exactly one address of each traps (`KernelSafety.AccessTrapsExactly`); in a memory of 65536 pages the
  byte accesses reach address 0 there.
* `input_load_u64` is meant to return 0 out of range. It checks its end in wrapping arithmetic, so up to eight of the
  topmost offsets read what lies in front of the input: `KernelSafety.InputWordPastEnd` says exactly which and what,
  and by `KernelSafety.InputWordReadsHeader` one of them gives the header of every non-empty live input.
* `alloc(n)` is meant to give n bytes or 0. Headers keep n modulo 2^32, so the length of a new handle is n exactly for
  n below 2^32 (`KernelRuns.AllocLengthExact`). A wider request is refused when no block fits its truncated size and
  its page count fits 32 bits (`KernelGrowth.NoOverrun`); beyond that the count may come out too small, and
  the position then leaves memory (`KernelGrowth.OverrunExists`).
* `PluginMemory::free` compacts the free list once 1024 bytes are free, comparing each block with the previous old
  block instead of the merged one. Live and free blocks stay a partition of memory exactly when no compaction runs
  or every listed block goes into exactly one new block (`PluginCompaction.FreePartitionsExactly`, and over whole runs
  `PluginCompaction.RunPartitionsExactly`). Otherwise the
  same bytes can be handed out twice (`PluginCompaction.CompactionDuplicates`,
  `PluginCompaction.DuplicateHandedOutTwice`) or leak; but no live byte ever becomes available
  (`PluginCompaction.FreeConservative`).
* `PluginMemory::alloc(0)` puts an empty block under an offset that the next request may get too
  (`PluginPartition.EmptyBlockSharesOffset`); `PluginPartition.AllocPartitioned` keeps the partition exactly otherwise.

## Model

| member | source | states |
|---|---|---|
| Kernel.Kernel.constructor | kernel/src/lib.rs:128-169 | Over zeroed memory, initialisation leaves an empty heap of length 65472 and at least one page |
| Kernel.Kernel.FindFreeBlock | kernel/src/lib.rs:207-251 | The header walk returns the first block that fits, splitting its tail off when the excess is 128 bytes or more; bytes outside that block's extent do not change |
| Kernel.Kernel.SplitBlock | kernel/src/lib.rs:230-239 | The split writes inside the block leave two headers that represent the carved heap |
| Kernel.Kernel.MemoryGrow | kernel/src/lib.rs:279-283 | Growth keeps all bytes and appends zero pages, or fails, at the cap or because the environment refuses, and changes nothing |
| Kernel.Kernel.Alloc | kernel/src/lib.rs:255-303 | `alloc` on bytes refines `alloc` on blocks, for sizes of any width, and the data of every block that was live keeps its bytes |
| Kernel.Kernel.FindBlock | kernel/src/lib.rs:306-330 | The address walk finds the live block at a handle, misses, or traps, as the closed form says |
| Kernel.Kernel.Free | kernel/src/lib.rs:368-383 | `free` marks the block Free, empties the input when it was the input block, and touches no data |
| Kernel.Kernel.Length | kernel/src/lib.rs:415-425 | The slow query returns the used size found by the walk, or 0, or traps |
| Kernel.Kernel.LengthUnsafe | kernel/src/lib.rs:390-408 | The fast query reads the header in front of the pointer, and is exact at every block boundary |
| Kernel.Kernel.Reset | kernel/src/lib.rs:172-187 | Reset empties the heap, zeroes the block area and the metadata, and keeps length and pages |
| Kernel.Kernel.PointerInBounds | kernel/src/lib.rs:191-194 | The bounds check reads the length out of the root record |
| Kernel.Kernel.InputSet | kernel/src/lib.rs:493-503 | Offset and length are set together or not at all, and only the root record is written |
| Kernel.Kernel.OutputSet | kernel/src/lib.rs:507-517 | As for the input |
| Kernel.Kernel.ErrorSet | kernel/src/lib.rs:551-565 | 0 always clears the error; otherwise the handle must be in bounds |
| KernelEffects.SettersExactly | kernel/src/lib.rs:493-517 | The ranges that `input_set` and `output_set` accept, and that they change their two fields only |
| KernelEffects.ErrorSetExactly | kernel/src/lib.rs:551-565 | 0 always clears the error, any other handle is taken exactly when in bounds, and nothing else changes |
| KernelEffects.InitAndReset | kernel/src/lib.rs:145-187 | Every field after initialisation and after a reset |
| KernelEffects.AnnouncedIsLast | kernel/src/lib.rs:377-565 | Over every run, error, input and output are those set last and accepted since the last reset, the input emptied when freed |
| Kernel.Kernel.LoadU8 | kernel/src/lib.rs:429-435 | The byte in memory, 0 out of bounds, at the inclusive end a trap or, at 65536 pages, the byte at 0 |
| Kernel.Kernel.LoadU64 | kernel/src/lib.rs:439-445 | The little-endian word, 0 out of bounds, a trap at the inclusive end |
| Kernel.Kernel.StoreU8 | kernel/src/lib.rs:471-477 | Exactly one byte changes; a store inside the data of any block keeps the whole heap |
| Kernel.Kernel.StoreU64 | kernel/src/lib.rs:481-487 | Exactly eight bytes change; inside the data of a block the heap is kept |
| Kernel.Kernel.InputLoadU8 | kernel/src/lib.rs:449-456 | The input byte at the offset, 0 past the input length |
| Kernel.Kernel.InputLoadU64 | kernel/src/lib.rs:460-467 | The input word at the offset, with the wrapping end check |
| HeapLayout.CarveReplaces | kernel/src/lib.rs:229-240 | A split keeps every old block boundary and moves no other block |
| HeapInvariant.NumPagesIsCeiling | kernel/src/lib.rs:110-118 | `num_pages` is the least number of pages that covers the bytes |
| HeapInvariant.FirstFitAt | kernel/src/lib.rs:216-250 | The search finds the lowest Free block with at least the size asked for |
| HeapInvariant.AllocWellFormed | kernel/src/lib.rs:255-303 | Allocation keeps: no Unused block in the tiling, used at most size, size below used + 128, position covered by length, length covered by pages |
| HeapInvariant.FreeWellFormed | kernel/src/lib.rs:368-383 | Freeing keeps the same invariant |
| HeapBytes.DataWritten | kernel/src/lib.rs:471-487 | Any write confined to block data leaves every header and the root record in place |
| HeapBytes.LayoutExactly | kernel/src/lib.rs:27-97 | The addresses of the root fields and of each header's status, size and used, and the status codes |
| HeapBytes.BlockRewritten | kernel/src/lib.rs:227-266 | Writes inside one block's extent that leave headers for the blocks now there represent the new heap |
| HeapBytes.MemoryGrown | kernel/src/lib.rs:279-286 | Appending zero bytes represents the same heap with more pages |
| HeapPayload.LiveRange | kernel/src/lib.rs:191-194 | First and last byte of every live allocation pass the bounds check and lie inside memory |
| KernelRuns.AllocHandles | kernel/src/lib.rs:354-364 | A successful `alloc(n)` adds exactly one handle, not live before, of length n modulo 2^32; a failed one changes nothing |
| KernelRuns.AllocLengthExact | kernel/src/lib.rs:260-265 | That length is n exactly when n is below 2^32 |
| KernelEffects.AllocReuses | kernel/src/lib.rs:227-265 | If some Free block is large enough, the lowest such block serves: its last bytes when 128 or more would be in excess, the rest staying Free, and otherwise the whole block; nothing else changes |
| KernelEffects.AllocBumps | kernel/src/lib.rs:268-302 | If none is, the new block is put behind all others with the fewest pages, or the call fails and changes nothing; every field is stated |
| KernelEffects.AllocRefuses | kernel/src/lib.rs:273-283 | Size 0, and a size over 32 bits that no block serves, give 0 and change nothing |
| KernelEffects.FreeThenAlloc | runtime/src/tests/kernel.rs:202-214 | Freeing a block and asking for its size again gives the same handle unless a lower block fits, and restores the blocks |
| KernelRuns.FreeHandles | kernel/src/lib.rs:368-383 | `free` removes exactly its handle; on anything else it is a no-op that traps exactly under `WalkTraps`, wrapping aside |
| KernelEffects.FreeLive | kernel/src/lib.rs:368-383 | `free` of a live handle changes its block's status and, exactly for the input block, the input length; nothing else |
| KernelEffects.MissedHandle | kernel/src/lib.rs:306-425 | `free` and `length` of anything else change nothing, give 0 outside the fast bounds, and trap exactly under `WalkTraps`, wrapping aside |
| KernelEffects.WalkTrapsExactly | kernel/src/lib.rs:315-327 | That condition: the walk comes to a zero header whose size field lies outside memory |
| KernelEffects.WalkWrapsExactly | kernel/src/lib.rs:315-341 | A full memory, and a step off a zero header to 2^32 or beyond |
| KernelRuns.FindLive | kernel/src/lib.rs:306-330 | The walk finds exactly the live handles; the fast bounds check hides none |
| KernelRuns.LengthIsLookup | kernel/src/lib.rs:415-425 | `length` is the handle map, 0 off it, and traps exactly when a miss walks out of memory |
| KernelEffects.LengthLive | kernel/src/lib.rs:415-425 | `length` of a live handle is its header's used field |
| KernelRuns.SettledBelowTop | kernel/src/lib.rs:315-327 | A search wraps around 2^32 neither below 65536 pages nor for a live handle |
| KernelRuns.StepKeepsBoundary | kernel/src/lib.rs:229-240 | No call but reset removes a block boundary |
| KernelView.RunRefinesHandleMap | kernel/src/lib.rs:352-503 | For every run, the live handles and lengths are those a client tracked from the answers, every handle issued since the last reset is still a block boundary, and the input is the live block set last, or empty |
| KernelClient.Execute | kernel/src/lib.rs:352-565 | Any run in contract against the bytes: bytes and words read, from an allocation or from the input, are those last written there, and both length queries give the size asked for, whatever happened in between |
| KernelClient.ExecuteFresh | runtime/src/tests/kernel.rs:424-477 | From initialisation through any run in contract: answers as a client tracked them, headers tiling the block area, length exactly covering the highest position, and an input that is live or empty when `input_set` is used as documented |
| KernelClient.RunReaches | kernel/src/lib.rs:255-383 | What every reachable state satisfies, over its bytes |
| KernelClient.MirrorsKept | kernel/src/lib.rs:207-303 | Calls that keep live data keep everything clients have written |
| KernelGrowth.BumpOutcome | kernel/src/lib.rs:268-302 | Bumping fails exactly when the page cap cannot hold the new position, whatever grew before, or growth is needed and refused; otherwise length becomes the least that covers it |
| KernelGrowth.AllocFailsExactly | kernel/src/lib.rs:255-303 | `alloc` returns 0 exactly for size 0, or when nothing fits and the size is over 32 bits, the cap too low or growth refused; then nothing has changed |
| KernelGrowth.NoOverrun | kernel/src/lib.rs:273-283 | Requests of up to 65536 * (2^32 - 1) - 12 bytes never get past the growth check without the room |
| KernelGrowth.OverrunExists | kernel/src/lib.rs:273-292 | 2^48 bytes ask a fresh kernel for no page, and would pass |
| KernelGrowth.AllocFirstFit | kernel/src/lib.rs:207-251 | The lowest block that fits is used, the allocation lies inside it, and the position moves only when none fits |
| KernelGrowth.CoverIsLeast | kernel/src/lib.rs:110-118 | The covering length is a whole number of pages above the first and the least such that suffices |
| KernelGrowth.GrowthIsExact | kernel/src/lib.rs:268-292 | In every reachable state length is the least covering the highest position ever reached, so the bytes left never underflow |
| KernelGrowth.ResetForgetsHistory | kernel/src/lib.rs:172-187 | After any history and a reset, every later run gets the offsets, failures and lengths a fresh kernel gives, queries that trap aside, if the environment refuses no page to the fresh one |
| KernelSafety.LiveRangesDisjoint | kernel/src/lib.rs:62-72 | Two live allocations never overlap; at least a header lies between them |
| KernelSafety.StoreIsolated | kernel/src/lib.rs:471-487 | Stores inside one live allocation change no byte of another and no header |
| KernelSafety.StoredWordBytes | runtime/src/tests/kernel.rs:278-296 | `store_u64` then `load_u8` gives the little-endian bytes, and `load_u64` the word |
| KernelSafety.AccessTrapsExactly | kernel/src/lib.rs:198-203 | The only pointers whose loads and stores trap, and what the byte accesses do there at 65536 pages |
| KernelSafety.LengthSafeBelow | kernel/src/lib.rs:306-330 | With 72 bytes of memory above the pointer, 77 at 65536 pages, `length` never traps |
| KernelSafety.FullIsReachable | kernel/src/lib.rs:255-303 | Two allocations reach a heap with no slack between position and length |
| KernelSafety.DoubleFreeCanTrap | kernel/src/lib.rs:315-327 | In that heap the second of two frees of one handle traps |
| KernelSafety.HeadersTileMemory | kernel/src/lib.rs:333-341 | Read off the bytes: following sizes from address 65 lands exactly on 65 + position, through Active and Free headers only, and zeros follow |
| KernelSafety.WasteBounded | kernel/src/lib.rs:227-244 | Live blocks waste at most 127 bytes each |
| KernelSafety.ReachableWaste | kernel/src/lib.rs:227-244 | The same bound in every reachable heap |
| KernelSafety.FragmentsBounded | kernel/src/lib.rs:229-240 | Over every run of requests for at least k bytes, k up to 116, every block has at least k bytes, so there are at most position / (k + 12) headers |
| KernelSafety.FastLengthAtBoundary | kernel/src/lib.rs:386-425 | At any block, live or freed, the one-read length is what the walk answers, and 0 where the walk finds nothing |
| KernelSafety.FastLengthRefinesSlow | kernel/src/lib.rs:386-425 | So after any run, at every handle issued since the last reset, freed or not, unless the walk traps |
| KernelSafety.StepKeepsInput | kernel/src/lib.rs:493-503 | A call keeps a non-empty input a live allocation of its length exactly when it is not an `input_set` that takes effect on anything else |
| KernelSafety.InputNeverStale | kernel/src/lib.rs:489-503 | With `input_set` used as documented, a non-empty input always is a live allocation of that length |
| KernelSafety.FreedInputStaysEmpty | kernel/src/lib.rs:377-381 | Once the input block is freed, the input stays empty through any run until it is set again |
| KernelSafety.InputLoads | kernel/src/lib.rs:447-467 | Loads inside a fresh input return its bytes and words, and 0 where a word would leave it |
| KernelSafety.EmptyInputLoads | kernel/src/lib.rs:447-467 | With an empty input, loads return 0, except the word load whose end wraps to 0, which traps when no input was set |
| KernelSafety.InputWordPastEnd | kernel/src/lib.rs:463-466 | Past the end of a live input, a word load gives 0 except at exactly the offsets whose end wraps, where it reads in front of the input |
| KernelSafety.InputWordReadsHeader | kernel/src/lib.rs:463-466 | At offset 2^64 - 8 it returns the block's size and used fields, which is not 0 |
| KernelSafety.LiveHandleAccepted | kernel/src/lib.rs:489-565 | A live handle with its length is accepted by `input_set`, `output_set` and `error_set` |
| Host.CurrentPlugin.constructor | runtime/src/current_plugin.rs:328-339 | A plugin starts with no variables |
| Host.CurrentPlugin.HandleOf | runtime/src/current_plugin.rs:70-91 | `memory_handle` finds the null handle and exactly the live handles that are not empty, with their lengths |
| Host.CurrentPlugin.Fetch | runtime/src/current_plugin.rs:70-91 | The bytes of the null handle or of a live allocation, never an empty allocation, and nothing for any other offset |
| Host.CurrentPlugin.MemoryAlloc | runtime/src/current_plugin.rs:188-218 | The null handle for 0, out of memory when the kernel answers 0, and otherwise the new handle |
| Host.CurrentPlugin.MemoryNew | runtime/src/current_plugin.rs:107-117 | A fresh allocation holding the data; every live allocation keeps its bytes |
| Host.CurrentPlugin.TotalSize | runtime/src/pdk.rs:100-103 | The loop sums the lengths of all values |
| Host.CurrentPlugin.VarSet | runtime/src/pdk.rs:93-141 | The errors for a full store, an invalid handle and a key that is not UTF-8, in the order of the checks and without effect; otherwise the key is removed on a null value, or holds the value |
| Host.CurrentPlugin.VarGet | runtime/src/pdk.rs:58-88 | 0 exactly when the key is absent; otherwise a new allocation holding the value, or out of memory |
| Host.SetThenGet | runtime/src/pdk.rs:58-141 | `var_get` after a successful `var_set` of the same key gives a new block holding the value, or 0 after a removal |
| Host.NewBlockFilled | runtime/src/current_plugin.rs:113-116 | Filling a new allocation keeps the heap and all earlier live bytes |
| PluginInput.Plugin.SetInput | runtime/src/plugin.rs:466-502 | Fails exactly when the input does not fit under the cap or growth is refused; otherwise the input is the only live block, at the first handle, announced, with error and output cleared |
| PluginInput.Plugin.FillInput | runtime/src/plugin.rs:488-499 | In an emptied heap: allocate, copy and announce, or fail and leave it empty |
| PluginInput.FillOutcome | runtime/src/plugin.rs:487-499 | After a reset the allocation of any size gets address 77 or fails as stated, and announcing it gives the delivered heap |
| PluginInput.DeliveredInputReads | runtime/src/plugin.rs:466-502 | After delivery input loads return the host's bytes and words, and 0 past the end; 77 is the only live handle |
| Host.CurrentPlugin.StoreInvariant | runtime/src/pdk.rs:58-141 | What a plugin can build up: bounded total, no empty value, and under each key the value set last |
| VarStore.TotalPut | runtime/src/pdk.rs:137-138 | Replacing or adding a value changes the total by exactly the difference |
| VarStore.StoreBounded | runtime/src/pdk.rs:100-110 | Over every run the total stays within 104857600 bytes plus one value |
| VarStore.StoreHoldsLastSet | runtime/src/pdk.rs:124-138 | Over every run a key holds the last value accepted for it and not dropped since, and is absent otherwise |
| Limiter.MemoryLimiter.constructor | runtime/src/current_plugin.rs:318-323 | The budget is the available pages in bytes |
| Limiter.MemoryLimiter.MemoryGrowing | runtime/src/current_plugin.rs:38-57 | Grants exactly what is below the maximum and within the bytes left, and charges exactly what it grants |
| Limiter.MemoryLimiter.Reset | runtime/src/current_plugin.rs:32-34 | Restores the whole budget |
| Limiter.LimitedStepKeeps | runtime/src/current_plugin.rs:38-57 | One call moves bytes between budget, kernel length, other memories and charges made in vain, without creating any |
| Limiter.LimiterConserves | runtime/src/current_plugin.rs:31-57 | Since the reset, and for every budget, bytes grown and bytes charged in vain are the budget minus what is left, so kernel length rises by at most the budget |
| Limiter.LimitedStepExactly | runtime/src/current_plugin.rs:38-57 | In a run, what the limiter stops changes nothing, and what it lets pass is charged and behaves as without it |
| Limiter.PassingRun | runtime/src/current_plugin.rs:31-57 | A run that is never stopped is charged all it asked for and leaves the kernel as the same calls do without a limiter |
| Limiter.BudgetSuffices | runtime/src/current_plugin.rs:31-57 | After a reset, when a run asks for no more than the budget and stays below every maximum, it is never stopped |
| CustomMemory.PluginMemory.constructor | runtime/src/otoroshi/custom_memory.rs:60-68 | Nothing live, nothing free, position 1 |
| CustomMemory.PluginMemory.Alloc | runtime/src/otoroshi/custom_memory.rs:80-125 | The search loop takes the first serving block, whole by `swap_remove` or its front, else bumps, growing when needed |
| CustomMemory.PluginMemory.Free | runtime/src/otoroshi/custom_memory.rs:128-159 | Moves the live block to the free list and compacts from 1024 free bytes on |
| CustomMemory.PluginMemory.FreeSize | runtime/src/otoroshi/custom_memory.rs:135 | The sum of the lengths on the free list |
| CustomMemory.PluginMemory.Compaction | runtime/src/otoroshi/custom_memory.rs:138-157 | The loop with `last` rebuilds the list that `Compact` defines |
| CustomMemory.PluginMemory.Reset | runtime/src/otoroshi/custom_memory.rs:162-166 | Clears both lists and the position |
| CustomMemory.PluginMemory.AtOffset | runtime/src/otoroshi/custom_memory.rs:174-177 | The live block at an offset, or nothing |
| PluginEffects.AllocServes | runtime/src/otoroshi/custom_memory.rs:81-98 | The first listed block of exactly n bytes, or of at least n + 32, serves the request from its front; its rest stays free, position and pages stay |
| PluginEffects.AllocMoves | runtime/src/otoroshi/custom_memory.rs:100-124 | If there is none, the request is served at the position with the fewest pages, or one at an exact fit, and fails exactly when they exceed the cap |
| PluginEffects.FreeMoves | runtime/src/otoroshi/custom_memory.rs:128-158 | The block goes to the end of the free list, which is compacted from 1024 free bytes on; any other offset changes nothing |
| PluginEffects.TotalLengthAdds | runtime/src/otoroshi/custom_memory.rs:135 | The free total adds up over lists |
| PluginEffects.NewAndReset | runtime/src/otoroshi/custom_memory.rs:60-166 | Every field of a new and of a reset memory |
| PluginPartition.AllocPartitioned | runtime/src/otoroshi/custom_memory.rs:80-125 | A successful allocation of n bytes is n bytes not live before; live and free blocks stay a partition of [1, position) exactly when it is not one of 0 bytes |
| PluginPartition.EmptyBlockSharesOffset | runtime/src/otoroshi/custom_memory.rs:116-124 | In a fresh memory an allocation of 0 bytes and the next one get the same offset |
| PluginPartition.LiveIsGiven | runtime/src/otoroshi/custom_memory.rs:169-171 | After every run `block_length` answers from the client's record: at each offset, the size of the latest request that got it and was not freed |
| PluginPartition.FragmentsBounded | runtime/src/otoroshi/custom_memory.rs:86-97 | Over every run of requests for at least k bytes, k up to 32, no live or free block is smaller, whatever compaction does |
| PluginPartition.SwapRemoveTakesOne | runtime/src/otoroshi/custom_memory.rs:83 | `swap_remove` takes exactly one block off the free list |
| PluginGrowth.PagesNeededExact | runtime/src/otoroshi/custom_memory.rs:104-108 | The ceiling of the division over reals is the fewest pages, or one at an exact fit |
| PluginGrowth.BumpGrowth | runtime/src/otoroshi/custom_memory.rs:100-124 | A bump allocation ends inside memory with the fewest pages, and fails exactly when they exceed the cap |
| PluginCompaction.CompactExactly | runtime/src/otoroshi/custom_memory.rs:138-157 | Each rebuilt block is the first block, or the union of an old block with the one before it |
| PluginCompaction.SourcesExactly | runtime/src/otoroshi/custom_memory.rs:138-157 | In the old order, the blocks so joined are exactly those that start where the one before ends |
| PluginCompaction.CompactionConservative | runtime/src/otoroshi/custom_memory.rs:135-158 | Every byte on the rebuilt list was on the old one, whatever the list |
| PluginCompaction.CompactionComplete | runtime/src/otoroshi/custom_memory.rs:135-158 | No free byte is lost exactly when every block merges with a neighbour or is the first |
| PluginCompaction.CompactionDisjoint | runtime/src/otoroshi/custom_memory.rs:135-158 | The rebuilt list is disjoint exactly when no old block goes into two new ones |
| PluginCompaction.FreePartitionsExactly | runtime/src/otoroshi/custom_memory.rs:128-159 | `free` keeps the partition exactly below the threshold or when every listed block goes into exactly one new one |
| PluginCompaction.RunPartitionsExactly | runtime/src/otoroshi/custom_memory.rs:80-166 | A run keeps the partition at every point exactly when each of its frees is tidy (in particular when it stays under the threshold) and no request for 0 bytes succeeds |
| PluginCompaction.TidyRunHandsOutFresh | runtime/src/otoroshi/custom_memory.rs:80-166 | In such a run no live offset is handed out again and no allocation overlaps one the client holds, so no record is overwritten |
| PluginCompaction.FreeConservative | runtime/src/otoroshi/custom_memory.rs:128-159 | A free makes available only bytes that were free or belong to the freed block, and never a live byte |
| PluginCompaction.CompactionDuplicates | runtime/src/otoroshi/custom_memory.rs:138-157 | Two adjacent blocks freed in order put the first on the rebuilt list twice |
| PluginCompaction.DuplicateHandedOutTwice | runtime/src/otoroshi/custom_memory.rs:80-98 | Those bytes are then allocated twice |

## Left out

- Kernel.Kernel.Alloc: does not model what happens after an allocation of 2^32 bytes or more gets past the growth check (`KernelHeap.Overruns`): the position then lies outside memory. In runs such a call counts as doing nothing, and nothing is claimed of the code from there on.
- Kernel.Kernel.constructor: does not model memory that is not zero at start.
- Kernel.Kernel.FindBlock: does not model a search that wraps around 2^32 onto the root record, which only a memory of 65536 pages allows (`KernelHeap.WalkWraps`). Below that size, and for live handles at any size, nothing is excluded.
- Kernel.Kernel.Free: excludes the same searches.
- Kernel.Kernel.Length: excludes the same searches.
- Host.CurrentPlugin.HandleOf: excludes the same searches, as do `Fetch`, `VarSet` and `VarGet`.
- Host.CurrentPlugin.MemoryAlloc: excludes the overruns of `alloc`, as does `PluginInput.Plugin.SetInput`; neither happens up to 65536 * (2^32 - 1) - 12 bytes.
- KernelGrowth.ResetForgetsHistory: speaks of runs in contract, so not of runs with overruns, wrapping searches or stores outside live allocations.
- Kernel.Kernel.StoreU8: does not model what the allocator does after a store outside block data; the bytes are exact, but the heap is kept only for stores inside data.
- KernelClient.Execute: does not model loads and stores off the client's live allocations; the word at an input offset whose end wraps around 2^64, and the input after an `input_set` off its record, are left open to the client.
- Host.CurrentPlugin.MemoryNew: does not model data of 2^32 bytes or more for which `alloc` reuses a block, since the host then copies past the end of it.
- KernelSafety.InputNeverStale: has no counterpart for `output_offset` and `error`, which `free` does not clear.
- Limiter.LimitedStep: does not model whether an "oom" error of the limiter surfaces as a trap or as -1 in the guest, which the WebAssembly runtime decides; either way the kernel is unchanged.
- PluginGrowth.PagesNeededExact: does not model rounding of f64, which is exact below 2^53; beyond it the request exceeds any 32-bit memory and fails all the same.
- The kernel's atomics and orderings: the kernel is single-threaded.
- Linking, instantiation, guest runtimes, error classification, coredumps: they depend on a WebAssembly runtime that is not part of this model.
- The timer thread, whose actions are commented out.
- C bindings, raw pointers, locks and logging; a null input pointer is an empty input.
- UTF-8 validation: a parameter of the class, since the standard library decides it.
- HTTP, WASI, file loading, hashing, manifests and encodings: I/O or thin wrappers over libraries.
- Getters, `memory_bytes`, integer conversions, table growth and the Java bindings: true of them would only be easy statements.
