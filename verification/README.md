# A verified model of the boundary-tag allocator and its driver

This project models, in Dafny 4.11, the allocator of `mm.c` on the layout of `mminline.h` and the
simulated break of `memlib.c`; the driver's two evaluations and its heap printout (`mdriver.c`);
the trace checker (`traces/checktrace.pl`); and the K-best sampler (`fcyc.c`).

Memory is an `array<int>` of 8-byte words. A pointer is the index of the word it points to, NULL is
-1, and the byte address of word `i` is `base + 8 * i` for a base that is a multiple of 8. A tag is
the block size in bytes plus the alloc bit; free blocks keep their list links in their own payload
words; user bytes live in the same words. `MAX_HEAP` is any number of words.

How the files build on each other:

- `Layout.dfy`: blocks that tile a stretch of words in address order.
- `AllocSpec.dfy`: an abstract allocator on values, `Heap(blocks, free)`: what `mm_malloc`, `mm_free`,
  `coalescing` and `mm_realloc` do to the blocks and to the free list, and the invariant they keep
  (`Inv`: exact tiling between prologue and epilogue, no block below 32 bytes, no two free
  neighbours, the list holds exactly the free blocks once each).
- `Words.dfy`: when words represent such a heap (`Rep`: equal tags at both ends of every block, links
  that form one circle in list order), and what each kind of write does to that.
- `MemLib.dfy`, `MmInline.dfy`, `Mm.dfy`: the imperative code, as classes over the words. Every
  `assert` of the inline layer is a precondition, so none can fire. Each operation is proved to do to
  the represented heap exactly what the abstract allocator does, and to leave the payload of every
  other live block alone (`Keeps`).
- `Runs.dfy`: theorems about single requests and about all sequences of calls, and methods that
  carry such sequences out on the class.
- `HeapWalk.dfy`: the REPL's walk over the boundary tags.
- `Bytes.dfy`, `Trace.dfy`, `Ranges.dfy`, `Owners.dfy`: what the trace driver works with.
- `Simulation.dfy`: the heap, the block of every live id and the range list as a function of the
  trace (`Simulate`), with the operation at which a replay stops and why.
- `StaleRanges.dfy`, `Verdicts.dfy`: what follows for the range list, for the verdict and for the
  utilization.
- `Driver.dfy`: the driver's loops, proved to come to exactly what `Simulate` says.
- `CheckTrace.dfy`, `Sampler.dfy`: the other two programs.

Where the code and its description disagree, the model follows the code:

- `mm_realloc(NULL, n)` allocates and returns NULL (mm.c:229-230, 304; README.md:10-11 says it calls
  `mm_malloc`). `LeakExactly` says when a run loses a block this way, `ReallocNullLeaks` gives a run, and
  `PartialReclamation` says what freeing everything else then leaves.
- A shrinking `mm_realloc` returns `ptr` and changes nothing (mm.c:239-250; README.md:12-14).
- `mem_sbrk` takes an int. `SbrkLong` says exactly which requests, in which state of the break, are
  never served with less than was asked for (`Faithful`), and `TruncatedRequest` makes one that is.
  `mm_malloc` and `mm_realloc` require that a request which the list cannot serve is faithful
  (`Serviceable`, `Resizable`), as every int size is (`IntsServiceable`).
- The overlap test of `add_range` misses an extent that encloses an old one: `HitsExactly` is the exact
  condition, `MissedOverlap` an accepted extent around a listed one.
- The validity check compares a plain `char` with a number up to 255. Where `char` is signed this can
  never succeed for a fill byte of 128 or more: `VerdictExactly`, and `CheckSignedChar` for a trace.
- After a reallocation to zero bytes the driver keeps the old range. Its list is exact to the end of a
  trace exactly if there was no such reallocation (`CleanExactly`, and `BackedExactly` for the single
  step). `StopsExactly` says at which operation of a trace that is reported as an overlap, and that
  nothing else ever is; `CheckZeroSize` replays such a trace. Nor is the driver's total reduced
  (`TotalExactly`), so that the utilization can exceed 1 (`MeasureOverUnity`), though by no more than
  the bytes of those ids (`PeakFits`).
- The trace checker does not look at sizes. Allocations of zero bytes leave the driver's id dead, and
  reallocations to zero bytes kill it; to the checker it is live, and it asks for a free request, with
  which the driver would pass on a dangling pointer. `ConsistentReplays` says exactly which traces
  both accept, `BalancedReplays` which balanced traces can be replayed: those without requests of zero
  bytes. `DanglingFree` and `BalancingBreaks` are two that cannot.

## Model

| member | source | states |
|---|---|---|
| MemLib.ToInt | memlib.c:51 | the int a long turns into: in range, and equal to it modulo 2^32 |
| MemLib.Memory.SbrkLong | memlib.c:47-61 | a request made with a long gets its low 32 bits as an int; it gets nothing or what was asked for exactly if it is below 2^31, or those bits are negative, or even they pass the end of the buffer |
| MemLib.TruncatedRequest | memlib.c:51-61 | on every buffer with 32 bytes left, a request for 4 GB and 32 bytes is served with 32 |
| MemLib.Memory.Sbrk | memlib.c:51-61 | fails exactly for a negative increment or one past the end; otherwise returns the old break and grows by exactly the increment |
| MemLib.Memory.ResetBrk | memlib.c:44 | empties the heap |
| MmInline.TagBits | mminline.h:26-29 | size and alloc bit are read back from a tag, and the bit is set without touching the size |
| MmInline.Inline.BlockSetSize | mminline.h:71-77 | both tags get the size with the stale bit of the header |
| MmInline.Inline.BlockSetAllocated | mminline.h:104-114 | sets the bit in both tags and nothing else |
| MmInline.Inline.BlockSetSizeAndAllocated | mminline.h:128-133 | whatever bit was stale, both tags come out exactly as asked and no other word changes |
| MmInline.Inline.BlockSetFlink | mminline.h:316-320 | writes one word, between blocks both marked free |
| MmInline.Inline.BlockSetBlink | mminline.h:284-288 | writes one word, between blocks both marked free |
| MmInline.Inline.BlockAt | mminline.h:146-194 | in a represented heap the accessors read each block's size and bit, at both ends, and lead to its neighbours in address order |
| Words.InsertCircular | mminline.h:337-352 | linking a block between last and first makes it the head of the circle; only link words of listed blocks change |
| Words.PullCircular | mminline.h:366-377 | unlinking any element of a longer circle leaves the circle of the others in order, headed by the successor when the head goes |
| Words.LinksFrame | mminline.h:271-320 | link words are never tags and never lie in a live payload |
| MmInline.Inline.InsertFreeBlock | mminline.h:337-352 | the list becomes the block followed by the old list; blocks, tags and live payloads are untouched |
| MmInline.Inline.PullFreeBlock | mminline.h:366-377 | the list becomes the old list without the block, order kept, for one, two or more elements; blocks, tags and live payloads are untouched |
| MmInline.Inline.SetBlock | mminline.h:128-133 | writing two tags turns a stretch of unlisted blocks into one block of the represented heap, and keeps every other live payload |
| MmInline.Inline.SplitBlock | mm.c:151-153 | writing four tags cuts an unlisted free block into an allocated and a free one, although the second header starts out stale |
| Mm.Align | mm.c:27-29 | the least multiple of 8 that is not smaller |
| Mm.IntsServiceable | memlib.c:51 | in no heap is a request of int size cut short on its way to `mem_sbrk`, not even with both additions of tags |
| Mm.ServiceableExactly | memlib.c:51-61 | a request is serviceable exactly if a listed block has the bytes, or it is below 2^31, or its low 32 bits are negative, or even those pass the limit |
| Mm.BlockBytesLeast | mm.c:121-133 | the block size looked for is the least multiple of 8 that holds the bytes and two tags and is no smaller than a minimal block |
| AllocSpec.InitialInv | mm.c:92-108 | the initial heap satisfies the invariant and has no live block |
| Mm.Allocator.MmInit | mm.c:92-108 | succeeds exactly if 32 bytes fit, and then represents the initial heap |
| AllocSpec.FirstFit | mm.c:135-170 | the first position in list order with enough words, or the length of the list |
| Mm.Allocator.FindFit | mm.c:135-170 | the loop around the circle ends and finds the first fit, or NULL |
| AllocSpec.CarveGranted | mm.c:141-160 | taking a free block, split or whole, keeps the invariant and adds one live block |
| AllocSpec.GrowGranted | mm.c:171-183 | so does putting a block in the place of the epilogue |
| AllocSpec.MallocFacts | mm.c:121-184 | a granted block is new, live and large enough, every other live block stays; a refusal changes nothing |
| Mm.Allocator.TakeBlock | mm.c:141-160 | the words after taking and splitting represent the carved heap; live payloads are untouched |
| Mm.Allocator.ExtendHeap | mm.c:171-183 | likewise for the extension; a refusal leaves every word and the break alone |
| Mm.Allocator.MmMalloc | mm.c:121-184 | does to the represented heap what the abstract request does, returns that block's payload or NULL, and touches no live payload; NULL leaves memory and break as they were |
| Runs.MallocChoice | mm.c:135-184 | the first fit in list order is used; the heap grows, by exactly the request, only if nothing fits; refusal exactly if that would pass the limit or is no int |
| Runs.MallocSpan | mm.c:141-160 | the block found is replaced by one of exactly the request and the free rest, at the head of the list, if the rest is at least 32 bytes, and is handed out whole otherwise; all other blocks and the order of the list are kept |
| Runs.MallocOverhead | mm.c:121-160 | a block exceeds the least block size for the bytes by at most 24, and so the bytes by at least 16 and, beyond 16 of them, at most 47 |
| AllocSpec.CoalesceInv | mm.c:39-77 | coalescing one freed block leaves no free neighbours anywhere and no live block changed |
| Mm.Allocator.Coalescing | mm.c:39-77 | in all four neighbour cases the words represent the heap with the block and its free neighbours joined and listed first; live payloads are untouched |
| AllocSpec.FreeFacts | mm.c:197-212 | freeing keeps the invariant and removes exactly that live block |
| Mm.Allocator.MmFree | mm.c:197-212 | does what the abstract free does, nothing for NULL or a block already free, and touches no other live payload |
| Runs.FreeSpan | mm.c:39-77 | exactly the block and its free neighbours are replaced, by one new block over the union of their words, at the head of the list; the order of the rest is kept |
| AllocSpec.AbsorbGranted | mm.c:257-291 | growing in place keeps the invariant, replaces one live block and yields the sum of the words |
| AllocSpec.MoveGranted | mm.c:293-300 | so does moving |
| AllocSpec.ResizeFacts | mm.c:236-301 | every outcome of resizing: one live block replaced by one with enough words, all others kept; a refusal changes nothing |
| Mm.CopyMoved | mm.c:263 | copying all the words of the old block, tags included, to an absorbed predecessor stays inside the new payload and carries the old payload over, although the regions may overlap |
| Mm.Allocator.Memmove | mm.c:287 | a copy from inside the heap into a live payload keeps tags, links and all other live payloads; its precondition is met by all three copies |
| Mm.Allocator.AbsorbPrev | mm.c:257-265 | the predecessor case: heap, returned pointer, data at the front, frame |
| Mm.Allocator.AbsorbNext | mm.c:268-275 | the successor case, without a copy |
| Mm.Allocator.AbsorbBoth | mm.c:278-289 | the case of both neighbours |
| Mm.Allocator.Relocate | mm.c:293-300 | the fallback: the request for `b_size` makes room for the over-long copy, the old block is freed, a refusal changes nothing |
| Mm.Allocator.MmRealloc | mm.c:227-305 | all outcomes: does what the abstract resize, free or request does; a non-NULL result starts with as many words of the old payload as fit; no other live payload changes |
| Runs.ResizeInPlace | mm.c:242-301 | a block and the heap are left alone exactly if the block is large enough; otherwise it takes in the whole free predecessor if that suffices, else the whole free successor if that does, else both; only if those do not suffice it becomes the very block, none of the live ones, that a request for two words more is granted, in the heap where the old one is then freed, or NULL if that is refused |
| Runs.ResizePayload | mm.c:236-301 | the payload of a reallocated block is at least the rounded size |
| Runs.IntsAllowed | mm.c:121-305 | with int sizes and held pointers every call is allowed in every world |
| Runs.StepGood | mm.c:121-305 | every allowed call keeps the invariant and the account of held and lost blocks; the heap does not shrink and stays within its limit |
| Runs.After | mm.c:92-305 | so after any sequence of calls the invariant holds and the live blocks are exactly those held or lost |
| Runs.TopGrows | memlib.c:47-61 | later states of a run have no smaller heap, and no fewer lost blocks |
| Runs.Conservation | mm.c:147-183 | the interior blocks sum to the heap size less 32 bytes, and the epilogue is the last 16 |
| Runs.Reclaimed | mm.c:197-212 | a heap without live blocks is one free block of all but 32 bytes, or empty |
| Runs.LosesExactly | mm.c:229-230 | a call loses a block exactly if it reallocates NULL to a nonzero size and the heap before it has a listed block with enough words, or room to grow by that size below 2^31 bytes |
| Runs.LeakExactly | mm.c:229-230 | no block is lost in a run exactly if no call of it met that condition |
| Runs.ReallocNullLeaks | mm.c:304 | one such call leaves a live block that no continuation of the run can free |
| Runs.TotalReclamation | mm.c:197-212 | if no call met that condition, freeing all held pointers in any order makes the heap one free block again |
| Runs.PartialReclamation | mm.c:197-212 | whatever was lost, freeing all held pointers in any order leaves live exactly the lost blocks, and at most one free block more than those |
| Runs.FreeBound | mm.c:39-77 | a heap never has more than one free block more than live ones |
| Runs.Perform | mm.c:121-305 | each call on the class is the corresponding step, returns the pointer that says, and leaves every other live payload alone |
| Runs.PerformAll | mm.c:121-305 | so does every sequence of allowed calls, and the pointers returned are those of the steps; a block whose pointer is never passed in stays live and keeps its payload throughout |
| HeapWalk.ThereAndBack | mminline.h:163-194 | `block_prev` and `block_next` are inverse between neighbours |
| HeapWalk.PrintHeap | mdriver.c:1163-1212 | the walk ends at the epilogue computed from the last heap byte, prints each interior block once, in order, with its true list neighbours, and none of its diagnostics |
| Bytes.WithByteAt | mdriver.c:588 | storing one byte of a word changes that byte only |
| Bytes.Memset | mdriver.c:588 | fills the given bytes; every other byte is unchanged, also in the last word it touches |
| Ranges.HitsExactly | mdriver.c:375 | the overlap test succeeds exactly for intersecting extents of which the new one does not enclose the old |
| Ranges.MissedOverlap | mdriver.c:357-381 | an extent inside the heap, around a listed one, that is accepted |
| Ranges.VerifyMeans | mdriver.c:357-381 | an extent is misaligned, outside the heap, or accepted exactly if each listed range it meets lies strictly inside it |
| Ranges.RangeList.AddRange | mdriver.c:346-394 | the verdict on alignment, heap bounds and listed ranges, in that order; only an accepted range is added, at the head |
| Ranges.RangeList.RemoveRange | mdriver.c:399-411 | removes the first range that starts at the address, and nothing if there is none |
| Owners.AddAccepted | mdriver.c:357-381 | the extent of a block that no live id owns is never rejected |
| Owners.LiveApart | mm.c:121-305 | live blocks of a heap are pairwise disjoint |
| Owners.FillCarried | mdriver.c:619-628 | bytes filled in before a reallocation are found in the new payload, up to the smaller size |
| Owners.SumFits | mdriver.c:706-712 | the bytes requested by live ids never exceed the heap |
| Trace.TotalExactly | mdriver.c:706-759 | the total that the measurement keeps is what the live ids asked for exactly if nothing was reallocated to zero bytes; otherwise it is larger |
| Trace.PeakIs | mdriver.c:711-746 | the largest total is never below the high water mark of the requested bytes, and equals it without such reallocations |
| Simulation.StepSimGood | mdriver.c:562-645 | after every operation each live id owns a block of its own that is large enough, every live block is owned, and the heap has not shrunk; a step stops only for a refusal or a rejected range |
| Simulation.SimSizes | mdriver.c:561-646 | while a replay runs, the live ids and their sizes are those of the trace, and the next operation of a well-formed trace is due |
| Simulation.StoppedWhere | mdriver.c:561-646 | a replay that stops has run up to the operation it stops at, and that operation is the reason |
| StaleRanges.StepClean | mdriver.c:562-645 | no other operation than a reallocation to zero bytes makes an exact range list inexact, or is rejected while it is exact |
| StaleRanges.StepExactly | mdriver.c:357-381 | in every state, an operation stops the replay exactly if the allocator refuses it or it is granted a block whose extent has an end in a listed range that is the extent of no other live id; alignment and heap bounds never fail |
| StaleRanges.RunAccount | mdriver.c:600-612 | in every state of the replay of a well-formed trace the listed ranges are, each once, the extents of the live ids and those that ids had when they were reallocated to zero bytes |
| StaleRanges.ContinueExactly | mdriver.c:597-634 | in every state a refusal is reported whatever the data, then a rejected range, and lost data only of a granted and accepted reallocation whose fill byte a signed `char` cannot hold; each exactly then |
| StaleRanges.StopsExactly | mdriver.c:561-646 | a replay stops at operation k for a refusal, for an overlap, or for lost data exactly if it gets there and the allocator refuses; or grants an extent with an end in one that an earlier reallocation to zero bytes gave up; or neither, and the fill byte is unreadable |
| StaleRanges.StopReasons | mdriver.c:357-381 | every replay that stops does so for a refusal, for lost data or for an overlap |
| StaleRanges.BackedExactly | mdriver.c:600-612 | in every state of a replay, after a reallocation that does not stop it, every listed range, those apart that were stale before, lies in the payload of a live block exactly if the size is positive |
| StaleRanges.CleanExactly | mdriver.c:600-612 | at the end of a replay there is one range more than live ids for each reallocation to zero bytes, and the list is exact exactly if there was none |
| StaleRanges.FalseOverlap | mdriver.c:602-606 | in every state of a replay, after a reallocation to zero bytes, a request that fits the freed words is rejected exactly if an end of its extent lies in the range just made stale or in an older stale one, for overlap; always if the new block starts where the freed one did |
| StaleRanges.ZeroSizeRealloc | mdriver.c:602-606 | an instance: the trace "a 0 16, r 0 0, a 1 16", on every heap of at least 64 bytes |
| Verdicts.EnoughMemory | mdriver.c:561-646 | a heap of 32 bytes plus what each request needs with its tags refuses nothing |
| Verdicts.VerdictExactly | mdriver.c:619-628 | on such a heap, without reallocations to zero bytes, a replay succeeds exactly if no reallocation has a fill byte that `char` cannot hold, and otherwise reports the first that has |
| Verdicts.ReplayIsRun | mdriver.c:561-646 | the heap of a replay is that of the run of allocator calls its operations make, the live ids own exactly the pointers held in it, and nothing is lost |
| Verdicts.NothingLeft | mdriver.c:561-646 | a replay that ends with no id live leaves one free block of all but 32 bytes, or an empty heap |
| Verdicts.BalancedReplay | traces/checktrace.pl:132-153 | what the checker balanced can be replayed exactly if it had no request of zero bytes; on a heap that meets its demand the replay then gets to the end and leaves at most one free block |
| Verdicts.PeakFits | mdriver.c:711-745 | the largest total exceeds the final heap size by at most the bytes of ids reallocated to zero; without such it is the high water mark and at most the heap size |
| Driver.Replay.DoAlloc | mdriver.c:565-593 | an allocation step of the driver is the simulated one: it ends as that does, with its heap and range list, and the id's block filled and recorded |
| Driver.Replay.Regrant | mdriver.c:597-612 | so is a reallocation, up to the check of the data, which are there; to zero bytes, only the block is freed |
| Driver.Replay.CompareData | mdriver.c:619-628 | the comparison succeeds exactly unless `char` is signed and the fill byte is 128 or more |
| Driver.Replay.DoReallocChecked | mdriver.c:596-634 | the whole reallocation step of the validity check, with lost data reported exactly where a signed `char` cannot match |
| Driver.Replay.DoFree | mdriver.c:636-642 | likewise a free step |
| Driver.VerdictMeans | mdriver.c:540-651 | which verdict a trace gets: out of memory at k exactly if k is reached and the allocator refuses it in that state, overlap at k exactly if the granted extent has an end in one given up by a reallocation to zero bytes, lost data at k exactly if neither and the fill byte is unreadable; and nothing else but success |
| Driver.Replay.EvalMmValid | mdriver.c:540-651 | on every well-formed trace the verdict is the one the simulation determines from the trace and the heap size, with the meanings above; on success every live id is tracked to the end, on a refusal up to there |
| Driver.Replay.EvalMmUtil | mdriver.c:664-769 | the measurement aborts or returns 0 exactly where a request is refused or an extent falsely hit, as in the simulation; otherwise it is the largest total, a function of the trace, over the simulated heap size, which it exceeds by at most the bytes of ids reallocated to zero; without such it is the high water mark over it, between 0 and 1 |
| Driver.CheckZeroSize | mdriver.c:602-606 | the validity check on "a 0 16, r 0 0, a 1 16" reports an overlap |
| Driver.CheckSignedChar | mdriver.c:622 | on "a 128 8, r 128 16" it reports lost data if `char` is signed and success if not |
| Driver.MeasureOverUnity | mdriver.c:723-769 | on "a 0 16, a 1 125, r 1 0, f 0, a 2 160" the utilization comes to 285/208 |
| Sampler.KBest.Sink | fcyc.c:74-80 | the insertion loop puts the new value behind all that are not greater |
| Sampler.BestIsSmallest | fcyc.c:61-81 | the values kept, sample by sample, are the k smallest seen, sorted |
| Sampler.KBest.AddSample | fcyc.c:61-81 | the array holds those values for the samples so far |
| Sampler.KBest.HasConverged | fcyc.c:86-89 | the test on the array agrees with convergence of the samples so far |
| Sampler.ConvergedExactly | fcyc.c:86-89 | samples have converged exactly if some k of them are at most 1 + epsilon times the least of all |
| Sampler.Fcyc | fcyc.c:121-157 | at least one and at most max(1, maxsamples) measurements, stopping at the first convergence, and the least of them is returned |
| CheckTrace.NonBlankIs | traces/checktrace.pl:76-82 | exactly the lines whose command is neither empty nor "0" are kept, in their order |
| CheckTrace.ScanIs | traces/checktrace.pl:70-116 | on all traces, whatever their commands: the scan dies exactly if some line reallocates or frees an id that is not held or allocates one held by an allocation; otherwise the hash has exactly the ids whose last line other than a reallocation is not a free, with its command |
| CheckTrace.Balance | traces/checktrace.pl:70-153 | the script dies exactly if some line is at fault in that way, or an id is held by a command other than `a`; otherwise it prints the nonblank lines, one free for each outstanding id, and the new count |
| CheckTrace.ScanIsConsistency | traces/checktrace.pl:70-116 | on traces of `a`, `r` and `f` lines the scan accepts exactly those where allocations name dead ids and other requests live ones, and ends with exactly the live ids |
| CheckTrace.BalancedIsBalanced | traces/checktrace.pl:132-153 | the output starts with the original requests, is consistent, ends with no live id, and is accepted with an empty hash |
| CheckTrace.RebalanceAddsNothing | traces/checktrace.pl:132-153 | balancing the output again appends nothing |
| CheckTrace.ConsistentReplays | traces/README:33-50 | a consistent trace can be replayed, and a trace that can be replayed is consistent, exactly if no line names an id after a request of zero bytes for it; without such requests consistent and replayable are the same |
| CheckTrace.OutstandingReplays | traces/checktrace.pl:70-116 | an accepted trace that leaves nothing outstanding can be replayed exactly if it has no request of zero bytes |
| CheckTrace.BalancedReplays | traces/checktrace.pl:132-153 | hence balancing yields a trace that can be replayed exactly if the original had no such request, and it then leaves no id live |
| CheckTrace.DanglingFree | traces/checktrace.pl:70-116 | "a 0 16, r 0 0, f 0" is accepted with an empty hash and cannot be replayed |
| CheckTrace.BalancingBreaks | traces/checktrace.pl:132-153 | "a 0 0" can be replayed, and balanced it cannot |

## Left out

- Pointers that are not the payload of a block of the present layout, for `mm_free` and `mm_realloc`.
- `mm_init` on a heap whose break has not been reset: the driver always resets it first.
- Words are unbounded integers; only their low 64 bits are ever looked at. Addresses below the word (a pointer into the middle of a word) do not occur.
- `mem_init`, `mem_deinit`, `mem_pagesize`, `errno` and error printing; the duplicate copies of the static `flist_first` in other translation units.
- The search loop of `mm_malloc` is a method of its own (`FindFit`), as are the bodies of its branches and those of `coalescing` and `mm_realloc`; `memmove` copies through a buffer.
- The range list is a sequence; allocation of its nodes by the C library cannot fail.
- The int counters of `eval_mm_util` are unbounded; they stay below the heap size, so nothing overflows while `MAX_HEAP` is below 2^31.
- EvalMmValid: replays of traces that are not well-formed, in particular of those that name an id again, other than to allocate it, after a request of zero bytes for it: the driver then passes a dangling or uninitialized pointer (see `ConsistentReplays`).
- `main`, options, `read_trace`, results, `eval_mm_speed`, the libc evaluators, the REPL's commands and block lookup: input and output, or timing.
- In the trace checker: tokenizing, the `-s` summary, the order in which free requests are appended (any order is covered), and numerals that name the same id differently (ids must have distinct numbers to be replayed).
- In the sampler: cache clearing, cycle counters and floating-point rounding; measurements are reals given by a function.
- `clock.c`, `ftimer.c`, `fsecs.c`, `mminline-tests.c`, the `.rep` files and their generators.
