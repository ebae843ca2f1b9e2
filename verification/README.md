# go-duktape: a verified model of its core algorithms

This project models, in Dafny, the four parts of go-duktape that keep
non-trivial state, and proves what they promise.

**Pool allocator** (`duk_alloc_pool.c`, `duk_alloc_pool.h`). One caller buffer is
carved into pools of equal blocks; a free block stores the address of the next
one in its own first bytes. `RawMemory` is the buffer as bytes, `PoolModel` the
abstract heap and its invariant, `PoolOps` what alloc, free, realloc and client
writes do to it, `PoolGuarantees` what clients may rely on. `PoolAllocator` is
the code itself, over a real `array` of bytes and the pool states, proved equal
to `PoolOps`. `PoolInit` covers initialisation, `PoolRuns` any sequence of
operations, on the heap and on the allocator itself, and `PointerCompression` the
16-bit encoding of block addresses and ROM pointers. `PoolLaws` and `PoolInitLaws`
say what operations and initialisation mean in terms of blocks, bytes, counts and
configuration fields alone. `Widths` holds the integer widths of C.

**Module identifiers and loading** (`duk_module_duktape.c`, `duk_module_node.c`).
`ModuleId` specifies resolution as a walk over the slash-separated terms
(CommonJS Modules/1.1, "Module Identifiers") and proves that the in-place
two-pointer normaliser computes it; `ModuleIdLaws` gives its laws, and
`ModuleIdMeaning` what an id means, said of its text alone.
`ModuleLoader` specifies `require` for the Duktape and the Node style as one
recursive state machine over the module cache, `ModuleLoaderLaws` proves its
properties over all histories, `ModuleScriptLaws` what each step of a script does
seen from outside, and `RequireContext` is the C code, step by step
on the value stack of `ValueStack`, proved equal to the state machine.

**String pool** (`strpool.go`). `StringPoolModel` gives each operation on values
and the optimality of eviction, `StringPoolLaws` the invariants over whole runs,
`StringPoolEviction` which chunks each operation reuses, frees and keeps,
`StringPoolObjects` the mutable pool of chunk objects, proved to follow the model,
and `StringPoolSessions` what callers see over whole sessions with such a pool.

**Minimal printf** (`duk_minimal_printf.c`). `Numerals` and `MinimalPrintf` cover
one number, `Vsnprintf` the format interpreter against an unbounded rendering
(sections 7.19.6.5 and 7.19.6.12 of ISO C99), `FormatLaws` what a format says,
character by character, and `PointerScan` the pointer scanner and the round trips.

Everywhere the pattern is the same: an imperative method equals a specification
function (`Alloc` and `AllocS`, `ResolveModuleId` and `Resolve`, `Vsnprintf` and
`Render` with `Terminated`, and so on), and what the source promises is proved
about the function or about runs of it. Each specification function is in turn
fixed by laws that do not use it: over the source's own fields, bytes and texts.

Where the code and its comments or purpose differ, the code is followed, and the
lemmas named here say exactly when:

- `strpool.go:82` speaks of the next power of 2; the code yields the least power
  strictly greater than the request, so a request of exactly 2^k gets 2^(k+1)
  (`StringPoolModel.NormalizedCapIsLeast`).
- `duk_minimal_printf.c:298-302` describes support for `"%p"` only; the code reads a
  pointer whatever the format says (`PointerScan.Sscanf`).
- Pointer compression does not hold for every address the allocator can return:
  `duk_alloc_pool_init` does not check the buffer size against the 16-bit range
  (`duk_alloc_pool.c:61-63`). `PointerCompression.OversizedPoolFails` gives a
  configuration that initialisation accepts and a block that decodes to another
  one, `PoolRoundTripsExactly` the exact condition for one address, and
  `CompressedRoundTrip` the exact condition for a whole pool.
- The statistics scan starts at `alloc_end - size * count`, a product of two
  unsigned ints (`duk_alloc_pool.c:296`). `PoolAllocator.ScanStartsAtPoolExactly`
  shows that it starts at the pool if and only if the product stays below 2^32,
  `ScanCountsExactly` when the counts are right all the same, and
  `PoolRuns.HugePoolIsMiscounted` a pool of 2^32 bytes that initialisation accepts
  and that reports every free block as used. Highwater marks, and with them
  allocation and realloc in a build that tracks them, are proved for pools the scan
  sees whole.
- The Node-style loader passes resolved ids as C strings (`duk_module_node.c:20, 53,
  184`), so ids that differ only behind a NUL share one cache entry:
  `ModuleLoaderLaws.KeysEqualExactly` says when, `NulSharesEntry` what follows.

## Model

| member | source | states |
|---|---|---|
| PoolModel.OwnerIsFoundByEndAddress | duk_alloc_pool.c:460-471 | the first pool whose end lies above a block address is the pool that owns the block, also with pools of zero blocks between |
| PoolModel.BlocksApart | duk_alloc_pool.c:157-208 | two blocks of the layout are the same block of the same pool or share no byte |
| PoolModel.PopKeepsInv | duk_alloc_pool.c:423-428 | taking the head of a free list keeps every list threaded, duplicate-free and in its pool, and free and live blocks a partition |
| PoolModel.PushKeepsInv | duk_alloc_pool.c:552-553 | storing a link into a live block and putting it in front of its list keeps the same invariant |
| PoolModel.WriteKeepsInv | duk_alloc_pool.c:181-195 | whatever a client writes inside a block it owns, no stored link changes |
| PoolOps.AllocKeepsInv | duk_alloc_pool.c:407-439 | allocation keeps the heap invariant |
| PoolOps.ReallocKeepsInv | duk_alloc_pool.c:441-530 | realloc keeps the heap invariant on all its paths |
| PoolOps.FreeKeepsInv | duk_alloc_pool.c:532-563 | free keeps the heap invariant |
| PoolGuarantees.LiveBlocksDisjoint | duk_alloc_pool.c:407-563 | live blocks never overlap |
| PoolGuarantees.RegionIsPartitioned | duk_alloc_pool.c:157-208 | each byte of the carved region lies in exactly one block, which is either on its pool's free list or live |
| PoolGuarantees.FreeListsDisjoint | duk_alloc_pool.c:407-563 | a free block occurs once, on one list |
| PoolGuarantees.AllocExact | duk_alloc_pool.c:415-438 | with ascending sizes, NULL exactly for size 0 or when no pool with large enough blocks has one left, and then nothing changed; otherwise the head of the list of the smallest sufficient size, no other list changed |
| PoolGuarantees.AllocPreserves | duk_alloc_pool.c:407-439 | allocation leaves the bytes of every live block as they were |
| PoolGuarantees.FreeExact | duk_alloc_pool.c:532-563 | free puts the block in front of the list of the pool it came from, changes no other list and no byte of another live block |
| PoolGuarantees.ReallocFailsExactly | duk_alloc_pool.c:441-530 | NULL exactly when the size exceeds the current block and no pool that could hold it has a free block; NULL or the same pointer means nothing changed |
| PoolGuarantees.ReallocKeepsContents | duk_alloc_pool.c:486-517 | the result is a live block of at least the requested size whose first min(old block size, size) bytes are those of the old block |
| PoolGuarantees.ReallocSwapsOneBlock | duk_alloc_pool.c:486-523 | a realloc that moves takes exactly one block from the target list and adds exactly the old block to the source list |
| PoolGuarantees.ReallocPreserves | duk_alloc_pool.c:441-530 | every other live block keeps its bytes |
| PoolGuarantees.ShrinkIsTight | duk_alloc_pool.c:473-502 | a shrinking block stays exactly when no earlier pool fits, and otherwise moves to the smallest sufficient size |
| PoolGuarantees.GrowIsTight | duk_alloc_pool.c:504-523 | a growing block that moves goes to a later pool of the smallest sufficient block size that has a free block |
| PoolLaws.ReallocZeroFrees | duk_alloc_pool.c:452-455 | realloc of a live block to size 0 returns NULL, puts the block in front of its pool's list, changes no other list and no other live block |
| PoolLaws.ReallocNullAllocates | duk_alloc_pool.c:449-451 | realloc of NULL gives what an allocation of that size gives |
| PoolLaws.AllocServes | duk_alloc_pool.c:415-438 | said of sizes and list lengths: NULL exactly for size 0 or without a free block of that size or more; otherwise the first block of a list of the smallest such size |
| PoolLaws.ReallocServes | duk_alloc_pool.c:461-524 | said of sizes and list lengths: when realloc stays, when it fails, and to which pool it moves |
| PoolLaws.FreeNullDoesNothing | duk_alloc_pool.c:540-542 | freeing NULL changes nothing |
| PoolLaws.FreeFrame | duk_alloc_pool.c:552-555 | freeing changes no mark and no byte outside the link of the freed block |
| PoolLaws.ClientWriteLands | duk_alloc_pool.c:181-195 | what a client writes is there, and nothing else of the heap changed |
| PoolLaws.UsedCountIsLive | duk_alloc_pool.c:307-310 | the used count of a pool is the number of its blocks that clients own |
| PoolLaws.AllocUses | duk_alloc_pool.c:374 | an allocation uses exactly the bytes of its block more |
| PoolLaws.FreeUses | duk_alloc_pool.c:374 | a free uses exactly the bytes of its block less |
| PoolAllocator.CountListedAll | duk_alloc_pool.c:290-319 | scanning all blocks of a pool and asking for each whether it is listed counts the free list exactly |
| PoolAllocator.UsedCountNonNegative | duk_alloc_pool.c:290-319 | a pool never has more free blocks than blocks |
| PoolAllocator.Allocator.PtrInFreelist | duk_alloc_pool.c:279-288 | following the links stored in the buffer, true exactly for the members of the free list |
| PoolAllocator.ScanStartsAtPoolExactly | duk_alloc_pool.c:296 | the scan starts at the pool if and only if size times count fits an unsigned int |
| PoolAllocator.ScanCountsExactly | duk_alloc_pool.c:296-307 | the scan counts the free list exactly if and only if no free block lies before the first block it sees, in particular whenever it starts at the pool |
| PoolAllocator.Allocator.CountFree | duk_alloc_pool.c:296-306 | the loop ends at the end of the pool and counts the listed blocks from where its 32-bit product puts the start, whenever that is a block |
| PoolAllocator.Allocator.GetPoolStats | duk_alloc_pool.c:290-319 | used plus free blocks are all blocks; free blocks are those the scan sees, which are the free list if it starts at the pool; bytes accordingly |
| PoolAllocator.Allocator.GetGlobalStats | duk_alloc_pool.c:321-348 | used plus free bytes are the carved region in any case, and used bytes are right if every pool is seen whole |
| PoolAllocator.Allocator.UpdateHighwater | duk_alloc_pool.c:351-396 | where every pool is seen whole, every mark is raised to the current usage and nothing else changes |
| PoolAllocator.Allocator.Alloc | duk_alloc_pool.c:407-439 | where every pool is seen whole, the C code over the buffer and the states does what AllocS does, result and whole new state with marks |
| PoolAllocator.Allocator.Free | duk_alloc_pool.c:532-563 | the C code does what FreeS does |
| PoolAllocator.Allocator.Realloc | duk_alloc_pool.c:441-530 | where every pool is seen whole, the C code does what ReallocS does, marks included |
| PoolAllocator.Allocator.Write | duk_alloc_pool.c:181-195 | a client that stores bytes in its own block leaves a valid allocator, with exactly those bytes changed |
| PoolAllocator.Allocator.Shrink | duk_alloc_pool.c:473-502 | the path for requests within the current block does what ReallocS does |
| PoolAllocator.Allocator.Grow | duk_alloc_pool.c:504-523 | the path for larger requests does what ReallocS does |
| PoolInit.TotalMonotone | duk_alloc_pool.c:87-100 | the bytes needed grow with the scale, which is what makes the search correct |
| PoolInit.TryScale | duk_alloc_pool.c:87-100 | one round sets the counts for the scale, and is good exactly when they fit; neither the cast to unsigned int nor the size_t total wraps |
| PoolInit.PoolBytesBounded | duk_alloc_pool.c:94-96 | with 32-bit A and B no scale in the search range gives a pool 2^55 bytes, so the total cannot wrap |
| PoolInit.SearchScale | duk_alloc_pool.c:72-133 | succeeds exactly when the unscaled configuration fits, after 101 rounds, with the lower end of the halved interval as its scale; otherwise gives up after 1001 rounds |
| PoolInit.EndIsNearBest | duk_alloc_pool.c:72-133 | if it fits, that scale is within 1e6 / 2^100 of the best in the search range, and the unscaled configuration fits too |
| PoolInit.SmallConfigsHold | duk_alloc_pool.c:90-92 | a configuration whose counts do not wrap at the largest scale wraps in no round |
| PoolInit.WholeAndLeftover | duk_alloc_pool.c:139-151 | the leftover division by repeated subtraction is quotient and remainder |
| PoolInit.Sprinkle | duk_alloc_pool.c:139-151 | from the last pool down each pool takes exactly as many extra blocks as fit, and what is left is smaller than every block size |
| PoolInit.ChooseCounts | duk_alloc_pool.c:72-151 | search and leftovers together give exactly the counts of a near-best scale plus the leftover blocks, with less than any block size left |
| PoolInit.ThreadPool | duk_alloc_pool.c:182-193 | the links stored in a new pool thread all its blocks in address order, the bytes before it unchanged |
| PoolInit.CarveBuffer | duk_alloc_pool.c:181-207 | the pools lie end to end, every one completely free |
| PoolInit.FreshHeapOk | duk_alloc_pool.c:157-218 | carved and threaded pools satisfy the heap invariant |
| PoolInit.CountsFitBuffer | duk_alloc_pool.c:94-100 | the bytes of a carved pool never exceed the buffer |
| PoolInit.Finish | duk_alloc_pool.c:153-217 | from final counts to a valid allocator, every block free |
| PoolInit.TotalBoundsCounts | duk_alloc_pool.c:141-145 | leftover blocks never push a count beyond what an int holds, so neither the 32-bit count nor the cast in the carving loop wraps, if no int's worth of blocks fits the buffer |
| PoolInit.Init | duk_alloc_pool.c:50-218 | NULL exactly when the unscaled configuration does not fit; otherwise a valid allocator, all blocks free, with the counts of a near-best scale plus the leftovers |
| PoolInitLaws.CountHoldsBlocks | duk_alloc_pool.c:90-95 | the count of a pool at scale t is the number n with n * size <= A * t + B < (n + 1) * size |
| PoolInitLaws.GoodIsFit | duk_alloc_pool.c:87-100 | the search calls a scale good exactly when those blocks fit the buffer |
| PoolInitLaws.WidthTimesDouble | duk_alloc_pool.c:72-82 | the search interval after n rounds is 1e6 / 2^n wide |
| PoolInitLaws.ExtrasShared | duk_alloc_pool.c:139-151 | from the last pool down, each pool takes what the pools behind it left until less than one of its blocks remains |
| PoolInitLaws.SharedOnce | duk_alloc_pool.c:139-151 | only one way of sharing the leftovers does that |
| PoolInitLaws.FreshListInOrder | duk_alloc_pool.c:185-190 | block k of a new pool's list is its k-th in address order |
| PoolInitLaws.InitProvides | duk_alloc_pool.c:50-218 | over the fields size, A and B: NULL exactly when the blocks for scale 0 do not fit; otherwise every count is that of a scale within 1e6 / 2^100 of the best, plus its share of the leftovers |
| PoolRuns.ApplyPreserves | duk_alloc_pool.c:407-563 | no operation disturbs a live block it is not applied to |
| PoolRuns.Run | duk_alloc_pool.c:407-563 | after any sequence of operations and client writes the heap invariant holds on the same layout |
| PoolRuns.UntouchedBlockSurvives | duk_alloc_pool.c:407-563 | over any run a block nobody frees, reallocates or writes stays live with every byte |
| PoolLaws.ApplyLive | duk_alloc_pool.c:407-563 | what each operation of a run does to the set of live blocks |
| PoolLaws.RunComposes | duk_alloc_pool.c:407-563 | running two sequences one after the other is running both |
| PoolLaws.WrittenSurvives | duk_alloc_pool.c:407-563 | bytes a client has written are still there after any run that leaves its block alone |
| PoolRuns.MarksFollowPeaks | duk_alloc_pool.c:351-396 | where every pool is seen whole, over any run each mark becomes the maximum of its old value and the peak usage |
| PoolRuns.HighwaterIsPeak | duk_alloc_pool.c:351-396 | where every pool is seen whole, from initialisation on the marks are exactly the peaks, although free never updates them |
| PoolRuns.Perform | duk_alloc_pool.c:407-563 | any legal run performed on the allocator, client writes included, is the run on the heap |
| PoolRuns.PerformFresh | duk_alloc_pool.c:351-396 | after any run on a new allocator the mark fields of the C structures hold the peaks of that run |
| PoolRuns.HugePoolIsUnseen | duk_alloc_pool.c:296 | for one pool of 2^32 bytes the scan starts at its end |
| PoolRuns.HugePoolIsMiscounted | duk_alloc_pool.c:296-307 | after initialisation with that pool every block is free, and the scan counts none as free |
| PoolRuns.HugePoolIsAccepted | duk_alloc_pool.c:87-133 | initialisation accepts that pool |
| PointerCompression.RomInit | duk_alloc_pool.c:570-585 | finds the lowest and highest ROM pointer of the table |
| PointerCompression.ListedInRange | duk_alloc_pool.c:570-585 | every listed ROM pointer lies within the range found |
| PointerCompression.EncRom | duk_alloc_pool.c:591-611 | the code of the first table place of the pointer, 0 if it is not listed |
| PointerCompression.RomRoundTrips | duk_alloc_pool.h:155-220 | every listed ROM pointer survives encoding and decoding |
| PointerCompression.PoolRoundTripsExactly | duk_alloc_pool.h:155-220 | an aligned pool address survives if and only if it is outside the ROM range and its word offset is below the first ROM code |
| PointerCompression.CompressedRoundTrip | duk_alloc_pool.h:155-220 | NULL, every block and every listed ROM pointer survive if and only if there is no block, or the highest block lies below the first ROM code and the ROM range does not span the buffer |
| PointerCompression.CompressedInjective | duk_alloc_pool.h:155-188 | encoding is injective on them, and only NULL encodes to 0 |
| PointerCompression.PoolCode | duk_alloc_pool.h:155-220 | the code of a pool address that fits is its word offset counted from 1, and decodes to it |
| PointerCompression.RomCode | duk_alloc_pool.c:591-611 | the code of a listed ROM pointer is 63488 plus its first place, and decodes to it |
| PointerCompression.OversizedPoolFails | duk_alloc_pool.c:61-63 | a pool carved by initialisation with one block too many: block 32768 of 8 bytes decodes to the first block |
| PointerCompression.OversizedPoolIsGood | duk_alloc_pool.c:61-63 | initialisation does not refuse that configuration |
| ModuleId.ResolveModuleId | duk_module_duktape.c:31-184 | the in-place normaliser equals the walk over terms on all inputs, and its output is no longer than its input |
| ModuleId.ResolveInPlace | duk_module_duktape.c:88-170 | at each turn the output is the directory stack and unread input is intact behind it; the loop ends, with the specified answer |
| ModuleId.NameTerm | duk_module_duktape.c:142-159 | a name is copied behind the output; at the end of the input it completes the answer |
| ModuleId.DotTerm | duk_module_duktape.c:107-138 | '.' and '..' take the stack where the walk takes it, any other dot term fails |
| ModuleId.Backtrack | duk_module_duktape.c:113-137 | the write pointer moves back over exactly the last output term, inside the buffer |
| ModuleId.CopyTerm | duk_module_duktape.c:142-159 | copying never overtakes the read pointer, and unread input keeps its bytes |
| ModuleId.EatSlashes | duk_module_duktape.c:161-169 | skipping duplicate slashes does not change where the walk ends |
| ModuleIdLaws.WalkSucceedsExactly | duk_module_duktape.c:88-170 | the walk succeeds if and only if the last term is a plain name, no other term starts with a period than '.' and '..', and no prefix climbs past the root |
| ModuleIdLaws.ResolvesExactly | duk_module_duktape.c:70-171 | an id resolves if and only if in addition its input is within the limit, not empty and without leading slash |
| ModuleIdLaws.ResolutionIsCanonical | duk_module_duktape.c:171-180 | a resolved id is plain names joined by single slashes, within the limit |
| ModuleIdLaws.FixpointsAreCanonical | duk_module_duktape.c:70-180 | resolving without a base returns its input exactly for normal forms within the limit; a base changes nothing for a normal form |
| ModuleIdLaws.LastComponent | duk_module_duktape.c:171-180 | the second output is the text after the final slash of the first |
| ModuleIdLaws.RelativeToDirectory | duk_module_duktape.c:70-74 | a dot-leading id walks from the directory of the requiring module |
| ModuleIdLaws.SiblingReplacesLast | duk_module_duktape.c:70-180 | './x' replaces exactly the last component of a normalised base by x |
| ModuleIdLaws.ParentClimbs | duk_module_duktape.c:113-137 | '../x' replaces the last two components, and fails for a base of one |
| ModuleIdMeaning.TermsSplit | duk_module_duktape.c:88-170 | the terms of a text are its pieces between slashes |
| ModuleIdMeaning.SplitOnce | duk_module_duktape.c:88-170 | a text has one such split |
| ModuleIdMeaning.WalkKeepsSurvivors | duk_module_duktape.c:88-170 | the walk succeeds exactly when the terms resolve, and keeps the names that no later '..' climbs out of |
| ModuleIdMeaning.PlainIdMeans | duk_module_duktape.c:70-180 | without a base, or for an id without a leading period: the id up to its first NUL resolves exactly when it has fewer than 256 bytes, no leading slash, and terms that resolve; the result is its surviving names, and its last term |
| ModuleIdMeaning.RelativeIdMeans | duk_module_duktape.c:70-180 | the same of a dot-leading id with a base, for base, '/../' and id together |
| ModuleIdMeaning.MeansOnce | duk_module_duktape.c:70-180 | a text means one resolution |
| ModuleIdMeaning.PlainIdIgnoresBase | duk_module_duktape.c:70-74 | an id without a leading period resolves the same from any base as from none |
| ModuleIdMeaning.NulEndsId | duk_module_duktape.c:70-74 | nothing behind a NUL plays a part |
| ModuleIdMeaning.HereWithoutBase | duk_module_duktape.c:70-74 | './x' from global code is x |
| ModuleLoaderLaws.RequireProgress | duk_module_duktape.c:199-437 | every require keeps the history legal and the cache equal to what is loading or loaded, leaves loads in progress untouched, and new entries are completed modules |
| ModuleLoaderLaws.LoadProgress | duk_module_duktape.c:302-436 | the same of one load, whether it returns or throws |
| ModuleLoaderLaws.FailedProgress | duk_module_duktape.c:432-436 | deleting exactly the failed id keeps the cache equal to what is loading or loaded |
| ModuleLoaderLaws.CompletedNeverReloads | duk_module_duktape.c:241-247 | a module that has completed is never loaded again |
| ModuleLoaderLaws.LoadedForever | duk_module_duktape.c:241-247 | once completed, an id stays completed |
| ModuleLoaderLaws.LoadsNeverOverlap | duk_module_duktape.c:302-304 | between two loads of one id the first has failed, so at most one is in progress |
| ModuleLoaderLaws.RequireKeepsModules | duk_module_duktape.c:199-437 | a require changes no module table that existed before |
| ModuleLoaderLaws.RunModuleKeepsModules | duk_module_node.c:203-262 | a module is marked loaded if and only if the Node-style loader has completed its body |
| ModuleLoaderLaws.RegisteredHits | duk_module_duktape.c:241-247 | requiring a registered id loads nothing: it is a hit with the current exports, unless the resolve callback throws |
| ModuleLoaderLaws.RequireAgainHits | duk_module_duktape.c:241-247 | after a require that returned, the same require is a hit with the same exports |
| ModuleLoaderLaws.LoadRegistersItself | duk_module_duktape.c:302-304 | a load that returned leaves its own module table in the cache and returns that table's exports |
| ModuleLoaderLaws.KeysEqualExactly | duk_module_node.c:17-55 | two resolved ids share a cache entry under the Node-style loader if and only if they agree up to the first NUL; an example of two different ids that do |
| ModuleLoaderLaws.NulSharesEntry | duk_module_node.c:17-55 | after the first of two such ids is loaded, the second is a hit with its exports |
| ModuleLoaderLaws.ProgramKeepsModules | duk_module_duktape.c:199-437 | over any program no registered module is lost or replaced, and no earlier module table changes |
| ModuleLoaderLaws.ExportsAreStable | duk_module_duktape.c:241-247 | whatever runs in between, requiring a completed module is a hit with the exports it had |
| ModuleLoaderLaws.ProgramLeavesOnlyCompleted | duk_module_duktape.c:199-437 | after any program no load is open and the cache holds exactly the modules that completed |
| ModuleScriptLaws.RunComposes | duk_module_duktape.c:405-420 | a script runs its second part in the state its first part leaves, unless that throws |
| ModuleScriptLaws.ThrowEnds | duk_module_duktape.c:413-420 | a throw ends the script with its error, whatever follows |
| ModuleScriptLaws.AssignmentSticks | duk_module_duktape.c:405-409 | assigning module.exports changes that, of this module, and nothing else |
| ModuleScriptLaws.RequireIsRelative | duk_module_duktape.c:214-218 | a require in a module is resolved against that module's own id; its error is the script's |
| ModuleScriptLaws.GuardCatches | duk_module_duktape.c:214-218 | a guarded require is too, and its error is caught |
| ModuleScriptLaws.StepsCompose | duk_module_node.c:81-84 | the steps of a callback outside any module compose in the same way |
| ModuleScriptLaws.CallbackSteps | duk_module_node.c:81-84 | and its requires are resolved as outside any module |
| ModuleScriptLaws.CallbackActsFirst | duk_module_node.c:81-88 | the resolve callback acts before the id is looked up, and its error is the require's |
| ModuleScriptLaws.RequireContinues | duk_module_duktape.c:241-304 | the history of a require goes on with a hit on what is registered, or with the beginning of a load |
| ModuleScriptLaws.LoadContinues | duk_module_duktape.c:302-436 | the history of a load begins with its beginning and ends with whether it returned |
| ModuleScriptLaws.BodylessLoads | duk_module_node.c:118-137 | what a load without a body returns or throws, and leaves, for each result of the callback and each style |
| ModuleScriptLaws.UndefinedIsNotFound | duk_module_node.c:112-116 | a module nobody defines is not found and is forgotten |
| ModuleScriptLaws.BodyIsExecuted | duk_module_duktape.c:405-430 | a body that is found is executed under its own key, with the module registered; the load returns its exports then, or its error |
| ModuleScriptLaws.SearchErrorPropagates | duk_module_duktape.c:331-337 | an error of the search callback itself ends the load |
| ModuleScriptLaws.SearchAloneLoads | duk_module_duktape.c:339-348 | without source the module is what the callback made of it |
| ModuleScriptLaws.AssignedIsReturned | duk_module_duktape.c:427-430 | an assigned module.exports is what require returns |
| ModuleScriptLaws.ThrownIsRethrown | duk_module_duktape.c:432-436 | a body that throws fails its load with that error, and the module is forgotten |
| ModuleScriptLaws.BodyRequires | duk_module_duktape.c:272-274 | once the module is registered, the id its body first requires, relative to it, is hit or loaded |
| ModuleScriptLaws.NestedErrorPropagates | duk_module_duktape.c:413-420 | a nested require that throws ends the load with the same error |
| ModuleScriptLaws.GuardedErrorDoesNot | duk_module_duktape.c:413-420 | a guarded one does not: the body goes on |
| ModuleScriptLaws.CircularRequireHits | duk_module_duktape.c:228-232 | a module that requires itself is hit, with the exports it has so far |
| ModuleScriptLaws.ProgramComposes | duk_module_duktape.c:199-437 | a program runs its requires in order |
| ModuleScriptLaws.ProgramLoads | duk_module_duktape.c:199-437 | the first require of a program begins a load |
| RequireContext.Context.RunSteps | duk_module_duktape.c:405-420 | running a script on the mutable context is running it on the specified state, nested requires included |
| RequireContext.Context.RunProgram | duk_module_duktape.c:199-437 | a sequence of requires on the mutable context, under either loader, is the specified program |
| RequireContext.Context.RunCallback | duk_module_node.c:81-84 | what a callback does outside any module is the specified sequence of requires through the global require |
| RequireContext.Context.Ask | duk_module_node.c:81-84 | requires made inside the resolve callback run before the cache is looked up, for any limit on their nesting |
| RequireContext.WorldsOk | duk_module_node.c:72-84 | both loaders resolve as their methods demand: the Duktape style by CommonJS ids, the Node style with the empty parent id outside modules |
| RequireContext.NodeAnswers | duk_module_node.c:72-84 | the Node style answers with its callback, for the parent id, or the empty text outside any module |
| RequireContext.SiblingIsLoaded | duk_module_duktape.c:70-74 | in the Duktape style a body that first requires './x' hits or loads the x beside its own module |
| RequireContext.Context.DuktapeRequire | duk_module_duktape.c:199-437 | duk__require, with all its stack indices, does what RequireS does |
| RequireContext.Context.DuktapeLookup | duk_module_duktape.c:223-250 | a hit returns the current exports of the cached module, a miss loads |
| RequireContext.Context.DuktapeRegister | duk_module_duktape.c:254-304 | fresh require, exports and module objects reach their stack slots and the module is cached before it runs |
| RequireContext.Context.DuktapeAfterSearch | duk_module_duktape.c:325-348 | a throwing search deletes the entry and rethrows its error |
| RequireContext.Context.DuktapeEvaluate | duk_module_duktape.c:342-403 | source is compiled and called, anything else ends the load with the current exports |
| RequireContext.Context.DuktapeCallBody | duk_module_duktape.c:405-420 | the body runs with its own exports, require and module |
| RequireContext.Context.DuktapeReturnExports | duk_module_duktape.c:427-430 | the top of the stack is the exports of the module that was loaded |
| RequireContext.Context.DuktapeDeleteRethrow | duk_module_duktape.c:432-436 | exactly the own id is deleted and the original error is on top |
| RequireContext.Context.GetCachedModule | duk_module_node.c:17-28 | the id is cut at its first NUL; on a hit exactly the cached module is added to the stack, on a miss nothing |
| RequireContext.Context.PutCachedModule | duk_module_node.c:34-48 | the module on top is cached under its own id, and the stack is as before |
| RequireContext.Context.DelCachedModule | duk_module_node.c:50-55 | exactly the id cut at its first NUL is removed, and the stack is as before |
| RequireContext.Context.NodeRequire | duk_module_node.c:57-146 | duk__handle_require does what RequireS does; the top at exit is the module's exports or the original error |
| RequireContext.Context.NodeLookup | duk_module_node.c:88-92 | a hit under the cut id returns its current exports, a miss loads |
| RequireContext.Context.NodeRegister | duk_module_node.c:94-95 | a fresh module with the cut id is on top of the stack and cached before it runs |
| RequireContext.Context.NodeDeleteRethrow | duk_module_node.c:113-136 | exactly the cut id is forgotten and the error on top is thrown |
| RequireContext.Context.NodeLoad | duk_module_node.c:94-145 | registration, load callback with the whole id and evaluation do what LoadS does |
| RequireContext.Context.NodeAfterLoad | duk_module_node.c:108-116 | a throwing load callback removes the id and rethrows its error |
| RequireContext.Context.NodeEvaluate | duk_module_node.c:118-145 | the three results of the callback end as specified; both failures remove the id |
| RequireContext.Context.EvalModuleSource | duk_module_node.c:203-262 | module and source on the stack give way to the module, or to the error |
| RequireContext.Context.NodeCallBody | duk_module_node.c:236-262 | the wrapper gets its five arguments from the intended stack values, and the module is marked only afterwards |
| StringPoolModel.NormalizedCapFits | strpool.go:81-83 | a new chunk is larger than the request and at most twice it |
| StringPoolModel.NormalizedCapIsLeast | strpool.go:81-83 | a new chunk has the least power of two strictly above the request; a request of 2^k gets 2^(k+1) |
| StringPoolModel.FreeExcessKeeps | strpool.go:102-123 | eviction keeps order and accounts, and ends within the limit or with nothing idle |
| StringPoolModel.FreeExcessFreesOnlyIdle | strpool.go:107-115 | eviction never frees a chunk in use and adds none |
| StringPoolModel.FreeExcessIsMinimal | strpool.go:102-123 | no choice of idle chunks that meets the limit frees fewer chunks than largest-first eviction, which then meets it too |
| StringPoolModel.FreeExcessFreesAllIdle | strpool.go:102-123 | if freeing everything idle does not meet the limit, exactly everything idle is freed |
| StringPoolModel.FreeExcessMeetsLimitExactly | strpool.go:102-123 | eviction ends within the limit if and only if some choice of idle chunks meets it |
| StringPoolLaws.GetKeepsInv | strpool.go:73-96 | get keeps the pool sorted, allocated the sum of capacities, each malloc in the pool or freed once, and above the limit only with nothing idle |
| StringPoolLaws.GetIsExclusive | strpool.go:73-96 | the chunk handed out had no holder, every other chunk keeps its holder, and a new chunk survives its own eviction |
| StringPoolLaws.ReuseIsTight | strpool.go:74-80 | the reused chunk is the smallest idle one that fits, and nothing is malloced or freed |
| StringPoolLaws.NewChunkIsTight | strpool.go:81-95 | with no idle chunk that fits, a new chunk with request < capacity <= 2 * request is in the pool afterwards |
| StringPoolLaws.ReleaseKeepsInv | strpool.go:135-140 | returning a chunk keeps the same invariant |
| StringPoolLaws.ReleaseHeld | strpool.go:135-140 | exactly the returned chunk loses its holder |
| StringPoolLaws.AllocatedIsBounded | strpool.go:102-123 | allocated is at most the limit or equals what callers hold |
| StringPoolLaws.RunKeepsInv | strpool.go:73-140 | the invariant holds in every reachable state |
| StringPoolLaws.OneHolder | strpool.go:73-140 | at every moment of a run a chunk has one holder if it is in use and none otherwise |
| StringPoolLaws.EveryMallocFreedOnce | strpool.go:73-148 | a run ended by destroy has freed each malloced chunk exactly once |
| StringPoolEviction.FreeExcessEvicts | strpool.go:102-123 | only idle chunks are freed, the largest first, until the limit is met or nothing is idle, and not one chunk more than needed |
| StringPoolEviction.ReleaseEvicts | strpool.go:135-140 | a return makes exactly its chunk idle, and then evicts in that way |
| StringPoolEviction.ReleaseWithinLimit | strpool.go:135-140 | a return within the limit frees nothing and leaves exactly its chunk idle |
| StringPoolEviction.ReleasedIsReused | strpool.go:73-80 | the next get the returned chunk is large enough for reuses it or a smaller one, and mallocs nothing |
| StringPoolEviction.ReuseTakesOne | strpool.go:74-80 | a reuse takes one chunk, changes nothing else, and is counted |
| StringPoolEviction.GrowthEvicts | strpool.go:81-95 | otherwise exactly one chunk is malloced and counted, and then idle ones are evicted in that way |
| StringPoolEviction.GetsAreCounted | strpool.go:77-88 | over a run each get is counted once, as an allocation or a reuse |
| StringPoolObjects.SortByCap | strpool.go:91-100 | the pool is reordered by capacity, with the same chunks |
| StringPoolObjects.Pool.FreeExcessChunks | strpool.go:102-123 | the loop over the slice does what FreeExcess does |
| StringPoolObjects.Pool.FindIdle | strpool.go:107-108 | the backward search finds the last idle chunk |
| StringPoolObjects.Pool.EvictChunk | strpool.go:109-115 | exactly that chunk is freed and leaves the slice |
| StringPoolObjects.Pool.Get | strpool.go:73-96 | get is a step of the specification, and returns a chunk of the pool, in use, with enough room, old or freshly allocated |
| StringPoolObjects.Pool.GetStringPointer | strpool.go:125-133 | the chunk holds the bytes and a NUL, and no other chunk of the pool changes; a string of 2^30 bytes or more panics instead, after get has taken a chunk |
| StringPoolObjects.Pool.FreeStringPointer | strpool.go:135-140 | does what Release does |
| StringPoolObjects.Pool.DestroyPool | strpool.go:142-148 | does what Destroy does |
| StringPoolSessions.Session | strpool.go:73-140 | over any session of gets and returns on a new pool, every string not yet returned is in the pool, in use, reads as it was written, and shares its chunk with no other |
| StringPoolSessions.HeldStays | strpool.go:102-140 | a chunk whose id is still held is still in the pool and in use |
| Numerals.DigitsValue | duk_minimal_printf.c:54-58 | the digits of v are digits of the radix and stand for v |
| Numerals.DigitsFit | duk_minimal_printf.c:37-58 | a 64-bit value has at most 20 digits, 16 in radix 16 |
| Numerals.PaddedValue | duk_minimal_printf.c:50-77 | zero padding to a fixed length keeps the value |
| Numerals.PaddedOfValue | duk_minimal_printf.c:90-128 | reading hexadecimal digits and printing the value in as many digits gives them back |
| MinimalPrintf.WriteChar | duk_minimal_printf.c:14-19 | one character is written only below the size, the offset always advances; the size may exceed the buffer as long as the offset does not |
| MinimalPrintf.FormatLong | duk_minimal_printf.c:29-87 | emits sign, padding and digits of the number text, bounded by the size, within its 24-byte scratch |
| MinimalPrintf.SignAndPad | duk_minimal_printf.c:60-77 | zeros go between sign and digits, spaces before the sign, up to the fixed length |
| MinimalPrintf.NumberBackwards | duk_minimal_printf.c:29-87 | the scratch buffer read backwards is the number text |
| Vsnprintf.Vsnprintf | duk_minimal_printf.c:131-266 | for every format, arguments and size, whenever the size or the whole text with its NUL is within the buffer: returns the length of the unbounded rendering as an int, exact if and only if an int can hold it; the buffer holds as much of the text as the size allows with a NUL, and all other bytes are as before |
| Vsnprintf.Sprintf | duk_minimal_printf.c:281-290 | without a size bound the whole text and a NUL are written, and nothing behind them, whenever the buffer can take them |
| Vsnprintf.ScanFlags | duk_minimal_printf.c:163-175 | reads exactly the flags and the letter behind them, never past the NUL of the format |
| Vsnprintf.FormatConversion | duk_minimal_printf.c:158-254 | one conversion consumes its part of the format and one argument and renders the text due |
| Vsnprintf.FormatPointer | duk_minimal_printf.c:228-237 | '%p' writes 0x and 16 digits |
| FormatLaws.FixedLengthIs | duk_minimal_printf.c:173-175 | the length is the last of the digits 1 to 9 among the flags, none means 0 |
| FormatLaws.NumberTextIs | duk_minimal_printf.c:42-77 | a number is sign and digits, with zeros between them or spaces in front up to the length |
| FormatLaws.SignedRenders | duk_minimal_printf.c:176-189 | '%d' with any flags: zeros if '0' is among them, spaces if not, long range with 'l' |
| FormatLaws.UnsignedRenders | duk_minimal_printf.c:190-207 | '%u' and '%x' in the same way |
| FormatLaws.PointerRenders | duk_minimal_printf.c:228-237 | '%p' with any flags: 0x and 16 digits that stand for the pointer |
| FormatLaws.TextRenders | duk_minimal_printf.c:213-227 | '%s' renders to the text itself |
| FormatLaws.NullTextRenders | duk_minimal_printf.c:216-226 | '%s' of NULL renders to nothing |
| FormatLaws.CharRenders | duk_minimal_printf.c:208-212 | '%c' renders to one byte, the argument as a char |
| FormatLaws.RenderingEnds | duk_minimal_printf.c:238-253 | an unknown letter, or the end of the format inside a conversion, ends the rendering |
| FormatLaws.TerminatedAt | duk_minimal_printf.c:257-263 | byte by byte: the text as far as the size leaves room for it, a NUL, and the bytes that were there |
| PointerScan.ParsePointer | duk_minimal_printf.c:90-128 | reads a pointer exactly where 0x and 16 lowercase hexadecimal digits begin the text, with their value |
| PointerScan.Sscanf | duk_minimal_printf.c:293-310 | the same for any format |
| PointerScan.ScanIsInverseOfPrint | duk_minimal_printf.c:90-128 | a text scans to v if and only if it begins with v printed by '%p' |
| PointerScan.PrintThenScan | duk_minimal_printf.c:228-237 | printing any 64-bit pointer into a large enough buffer and scanning it returns the pointer |
| PointerScan.NumberTextReadsBack | duk_minimal_printf.c:29-87 | under either padding rule a number text reads back as the number and its sign |
| PointerScan.NumberTextLength | duk_minimal_printf.c:60-77 | a number text is as long as the fixed length, or as sign and digits need |
| PointerScan.NoLeadingZero | duk_minimal_printf.c:54-58 | digits start with 0 only for the number 0 |
| PointerScan.ConversionReadsBack | duk_minimal_printf.c:176-237 | every numeric conversion reads back as its argument in its own radix |
| PointerScan.PlainTextRenders | duk_minimal_printf.c:148-153 | text without '%' is rendered as it is, in front of any format |
| PointerScan.ConversionRenders | duk_minimal_printf.c:158-254 | a conversion with any flags renders its argument's text, then the rest of the format follows |
| PointerScan.TruncationIsPrefix | duk_minimal_printf.c:257-263 | read as a C string the buffer is the whole text if it fits, else its first size - 1 bytes |

## Left out

- Waste tracking of the pool allocator (marker fill, waste estimates, their highwater mark) and its debug output: the model is the build with highwater tracking and without waste tracking.
- PoolInit.TryScale: the scale is an exact real, so floating-point rounding is not represented. Target counts at the scales tried must fit an unsigned int, as the comment at `duk_alloc_pool.c:90-92` asks of A and B, because the cast is undefined beyond.
- PoolInit.SearchScale: the same two limits.
- PoolInit.ChooseCounts: the same two limits.
- PoolInitLaws.InitProvides: the limits of Init, next line.
- PoolInit.Init: the same two limits, and fewer than 2^31 blocks of any size fit the buffer, so that the 32-bit counts and the int in the carving loop (`duk_alloc_pool.c:182`) do not wrap. A pool of 2^32 bytes or more is initialised, but its statistics are wrong. Block sizes are multiples of 4 of at least 8 bytes, as the configuration rules ask on a 64-bit machine; buffer addresses stay below 2^64.
- PoolAllocator.Allocator.GetPoolStats: pools where the wrapped start of the scan is no block address are left out; there the C loop runs past the end of the pool.
- PoolAllocator.Allocator.Alloc: pools of 2^32 bytes or more are left out, because updating their marks counts wrongly; the same goes for Realloc and for the marks over runs. Free has no such limit.
- Pointers given to free and realloc that are not live: the C code does not defend against them.
- The allocation callbacks take one allocator as their userdata; the wiring into a Duktape heap is not modelled.
- The ROM table lookup of the decoder is modelled as NULL at the terminator and as an undefined place behind it.
- Vsnprintf.Vsnprintf: arguments have the type and range their conversion reads, and negating LONG_MIN is excluded; offsets do not wrap.
- StringPoolObjects.Pool.Get: malloc always succeeds, a chunk's identity is its malloc call rather than its address, and the base-2 logarithm is the integer one.
- StringPoolLaws.RunKeepsInv: MaxMallocBytes stays fixed while a pool is in use, and callers return chunks they hold.
- String and Stats formatting of the string pool.
- The JavaScript engine: module bodies and callbacks are scripts of require, guarded require, assignment to module.exports and throw; compilation succeeds or throws; exports are opaque. Scripts do not edit Duktape.modLoaded or the require cache behind the loader's back.
- RequireContext.Context.DuktapeRequire: property flags, file and name fields of module objects, and the text of the function wrapper are not modelled. The history field records events for the proofs only.
- RequireContext.Context.NodeRequire: a resolve callback calls the global require() only, and what it does depends on the requested id and the parent id; the engine's limit on nested calls is a limit on how deep such callbacks nest, for every value of it. A require outside any module has the empty parent id; duk_module_node_peval_main, which depends on its caller's stack layout, and the module init functions are left out.
- duktape.go, api.go, timers.go, console, logging, alert, v1 compatibility and execution timeout code: thin wrappers, I/O, clocks, or simple locked maps.
