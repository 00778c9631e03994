# Verified models of the CS:APP lab programs

Dafny models of the six programs of this repository that change state in the most intricate ways, and
proofs of what they promise over every input, every trace and every interleaving. `dafny verify
dfyconfig.toml` checks the whole project.

| file | models | main results |
|---|---|---|
| `memlib.dfy` | the byte buffer and the break of `memlib.c`, with word access as in the macros of `mm.c` | words and bytes of one buffer agree |
| `heap_layout.dfy`, `coalescing.dfy`, `placing.dfy` | what the words of the heap mean: a tiling by boundary-tagged blocks, and a ring of free blocks threaded through their payloads; `coalesce`, `place`, `extend_heap` and `find_fit` as functions on both | every store keeps the two views of one memory in agreement and every live payload untouched |
| `mm.dfy` | the allocator of `mm.c` as a class over that buffer | `mm_malloc`, `mm_free` and `mm_realloc` refine a map from live pointers to payload bytes |
| `mdriver.dfy` | the validity test of `mdriver.c` | the allocator is never at fault; with memory enough the test passes exactly the traces without a reallocation that it misreads |
| `arithmetic.dfy`, `sequences.dfy`, `lru.dfy` | shared vocabulary, and least-recently-used sets as values | reuse distance decides hits; more ways never cost a miss; hits, misses and evictions balance |
| `csim.dfy` | the linked rings, the address split and the counters of `csim.c` | the simulator computes exactly that model |
| `trans.dfy` | the blocked transposes of `trans.c` | each leaves the transpose, although `trans_64x64` parks a quarter of every block in the wrong place |
| `jobs.dfy`, `sigchld.dfy` | the job table of `tsh.c`, and its SIGCHLD protocol as interleaved steps of kernel, handler and main flow | no child event is lost, no ghost jobs, and nothing is reaped after a failed fork |
| `rio.dfy` | the robust I/O of `csapp.c` over arbitrary schedules of short transfers, interruptions and errors | any mix of reads delivers what the stream alone dictates |
| `sio.dfy` | the number printer of `csapp.c` | positional reading undoes it |
| `proxycache.dfy` | the object cache of `cache.c` | a hit is never stale, in spite of duplicates; an object is found exactly while it and what has come in front of it fit; eviction drops the shortest suffix that makes room |

Conventions. Addresses of the allocator are byte offsets from the first byte of the heap, which is taken to
be 8-aligned; 0 stands for NULL and is never the address of a block. Pointers and words are 4 bytes, stored
with the least significant byte first. In ghost state, `B` maps block addresses to sizes and allocation bits
and `F` is the free list from the dummy's successor on; both are pinned down by the words of the heap
(`TilesUnique`, `RingUnique`). System calls are methods whose outcomes come from an arbitrary schedule; a schedule is
finite, and after it every call moves all it can, so that loops over EINTR end.

Where the code and its comments differ, the code is modelled: `mm_realloc` copies up to the size in the
header, overhead included, and may read past the old payload; `mdriver.c:656` compares a plain `char`,
which gcc makes signed for the `-m32` target of the Makefile, with a number up to 255, so the test rejects the
correct reallocation of a block whose index has a low byte of 128 or more; `eval`
leaves SIGCHLD blocked after a failed fork; `waitfg` can return too
early once `do_bgfg` has written to a cleared slot; `transpose_submit` falls through from one case to the next.

## Model

| member | source | states |
|---|---|---|
| MemLib.Memory.Sbrk | Malloc/malloclab-handout/memlib.c:58-69 | the break grows by the increment, and only when that is not negative and stays within the limit; otherwise nothing changes |
| MemLib.Memory.Put | Malloc/malloclab-handout/mm.c:52-53 | a word store changes that word and no other, although words are four bytes of one buffer |
| MemLib.WordsDetermineBytes | Malloc/malloclab-handout/mm.c:52-53 | buffers that agree on the words of an aligned range agree on its bytes |
| HeapLayout.FuseTiles | Malloc/malloclab-handout/mm.c:337-362 | writing one header and one footer around consecutive blocks leaves a gapless tiling with matching tags, in which they are one block |
| HeapLayout.SplitTiles | Malloc/malloclab-handout/mm.c:258-266 | the four tags and the unlinking of place leave a gapless tiling with matching tags, in which the block is two |
| HeapLayout.ExtendTiles | Malloc/malloclab-handout/mm.c:158-164 | the three stores of extend_heap leave a gapless tiling of the larger heap, ending in a new epilogue |
| HeapLayout.UnlinkListed | Malloc/malloclab-handout/mm.c:595-602 | the two stores leave a ring of exactly the other nodes, in order, and touch no word but their links |
| HeapLayout.LinkRing | Malloc/malloclab-handout/mm.c:575-590 | the four stores put the block first on the ring and touch link words only |
| HeapLayout.TilesUnique | Malloc/malloclab-handout/mm.c:48-64 | the tag words determine the blocks: no two tilings have the same tags |
| HeapLayout.RingUnique | Malloc/malloclab-handout/mm.c:66-72 | the link words determine the free list and its order |
| HeapLayout.NotLink | Malloc/malloclab-handout/mm.c:57-72 | the header of a block and its words after the first two are never a predecessor or successor word of a listed block or of the dummy |
| HeapLayout.FuseStep | Malloc/malloclab-handout/mm.c:335-362 | merging free blocks keeps tiling and ring in agreement and every live payload word unchanged |
| Coalescing.CoalesceCorrect | Malloc/malloclab-handout/mm.c:316-367 | entered with one unlisted free block, coalesce ends with blocks tiling the heap, every free block listed once and nothing else, no two neighbouring free blocks, and all live payloads as before |
| Coalescing.CoalesceNeighbours | Malloc/malloclab-handout/mm.c:323-362 | merging with free neighbours leaves no two neighbouring free blocks anywhere |
| Coalescing.InSpan | Malloc/malloclab-handout/mm.c:323-362 | what coalesce merges is the block and its free neighbours, nothing live |
| Placing.SplitCorrect | Malloc/malloclab-handout/mm.c:258-267 | a split keeps every invariant but the listing of the rest, and every live payload |
| Placing.RestAlone | Malloc/malloclab-handout/mm.c:264-267 | the rest of a split has no free neighbour, so coalescing it only lists it |
| Placing.WholeCorrect | Malloc/malloclab-handout/mm.c:270-275 | taking a whole block keeps all invariants and live payloads |
| Placing.ExtendCorrect | Malloc/malloclab-handout/mm.c:150-173 | growing the heap keeps every invariant but the listing of the new block, and every live payload |
| Placing.FreeCorrect | Malloc/malloclab-handout/mm.c:291-303 | marking a live block free keeps every invariant but its listing, and all other payloads |
| Placing.FirstFitMeans | Malloc/malloclab-handout/mm.c:234-248 | first fit fails exactly when every listed block is smaller than asked for, and else finds the first on the list that is not |
| Placing.PlacedRest | Malloc/malloclab-handout/mm.c:254-279 | the list after place is the list before without the block, behind what is left of it |
| Placing.AdjustedSize | Malloc/malloclab-handout/mm.c:195-204 | the block size is the least multiple of 8, at least 16, that holds the request and 8 bytes of tags |
| Placing.PayloadKept | Malloc/malloclab-handout/mm.c:179-311 | a live payload whose words are kept is kept byte for byte |
| Placing.PayloadStoreHeap | Malloc/malloclab-handout/mm.c:372-406 | no store into a live payload, by memcpy or by the client, can damage tags or links |
| Placing.CopyRanges | Malloc/malloclab-handout/mm.c:396-400 | the copy of mm_realloc, although its length may count the overhead, stays inside the new payload and its ranges never overlap |
| Placing.WalkMeetsAll | Malloc/malloclab-handout/mm.c:63-64 | walking by NEXT_BLKP up to the break meets every block once, in address order, and the sizes add up to the distance |
| Placing.PayloadsApart | Malloc/malloclab-handout/mm.c:179-229 | two live payloads lie inside the heap and never overlap |
| MM.Allocator.HeapIsTiled | Malloc/malloclab-handout/mm.c:55-64 | between calls the blocks tile the heap from the prologue to the epilogue, and their sizes sum to the heap size less 8 |
| MM.Allocator.FreeBlocks | Malloc/malloclab-handout/mm.c:316-367 | between calls no two neighbouring blocks are free, and the list holds each free block exactly once |
| MM.Allocator.MmInit | Malloc/malloclab-handout/mm.c:108-145 | succeeds exactly when 32 bytes and one chunk fit under the limit; then the heap is valid with one listed free block and nothing live |
| MM.Allocator.ExtendHeap | Malloc/malloclab-handout/mm.c:150-173 | fails exactly when the even-rounded size passes the limit, leaving everything unchanged; otherwise the block at the new end has been coalesced with a free last block and listed first |
| MM.Allocator.FindFit | Malloc/malloclab-handout/mm.c:234-248 | the circular walk ends and returns the first fit of the list |
| MM.Allocator.Place | Malloc/malloclab-handout/mm.c:254-279 | the heap stays valid, with the block taken whole or split and the rest listed first, and live payloads unchanged |
| MM.Allocator.Coalesce | Malloc/malloclab-handout/mm.c:316-367 | the heap becomes valid, and the block returned reaches over both free neighbours, which have left the list |
| MM.Allocator.AddToFreeList | Malloc/malloclab-handout/mm.c:575-590 | the block is first on the ring |
| MM.Allocator.RemoveFromFreeList | Malloc/malloclab-handout/mm.c:595-602 | the ring holds the other blocks, in order |
| MM.Allocator.MmMalloc | Malloc/malloclab-handout/mm.c:179-229 | returns NULL exactly for size 0 or when every free block is smaller than the adjusted size and the heap cannot grow by the larger of that and a chunk, changing nothing; a listed block that is large enough is always used, the first such one, without growing the heap; a new aligned pointer joins the live map with a block of size n+8 up to the adjusted size plus 8, every other live payload keeps its bytes, and the list keeps its order, with the rest of a split in front |
| MM.Allocator.MmFree | Malloc/malloclab-handout/mm.c:284-311 | exactly that pointer leaves the live map, all other payloads keep their bytes, the block it has become part of is first on the list, which otherwise only loses the merged neighbours, and NULL changes nothing |
| MM.Allocator.MmRealloc | Malloc/malloclab-handout/mm.c:372-406 | size 0 frees, NULL allocates; failure leaves everything untouched; success replaces the pointer by a new one whose payload begins with the first min(size, old capacity) bytes, all other payloads unchanged |
| MM.Allocator.IsInFreeList | Malloc/malloclab-handout/mm.c:555-570 | true exactly for listed blocks, and the walk ends |
| MM.Allocator.CheckFreelist | Malloc/malloclab-handout/mm.c:448-481 | both loops end, and the verdict is positive exactly when every listed block is free, none of them follows a free block, and every free block is listed |
| MM.Allocator.ValidPasses | Malloc/malloclab-handout/mm.c:448-481 | no heap between calls fails the check |
| MDriver.Driver.AddRange | Malloc/malloclab-handout/mdriver.c:381-431 | accepts a payload exactly when it is aligned, inside the heap and neither of its ends is in a recorded range |
| MDriver.Driver.HoldsBytes | Malloc/malloclab-handout/mdriver.c:655-661 | the comparison of chars holds exactly when the bytes are those expected and, if there are any, below 128 |
| MDriver.Driver.EvalMmValid | Malloc/malloclab-handout/mdriver.c:577-676 | no payload is ever misaligned, outside the heap or overlapping another; the test stops at a request only if nothing listed fits and the heap cannot grow, or at a reallocation of an index with a low byte of 128 or more, although its data are still there; none of those passes, and with memory enough the test fails exactly the traces that have one; up to where it stops the live blocks are exactly those the trace holds, each with the size last asked for and the bytes of its index |
| MDriver.Driver.EvalMisreadTrace | Malloc/malloclab-handout/mdriver.c:655-661 | allocating one byte for index 128 and reallocating it makes the test fail, with memory to spare |
| MDriver.HeldMeans | Malloc/malloclab-handout/mdriver.c:594-673 | an index is in use exactly when its last request does not free it, with the size of that request |
| MDriver.GrowthBound | Malloc/malloclab-handout/mm.c:220-226 | requests of at most n bytes need no more heap than the larger of n+16 and a chunk each |
| MDriver.WithoutFirstMeans | Malloc/malloclab-handout/mdriver.c:434-448 | of records with distinct starts exactly the one of that start is removed |
| Lru.ReuseDistance | Cache/cachelab-handout/csim.c:192-285 | an access hits exactly when the same set and tag were accessed before with fewer than E distinct other tags of that set in between |
| Lru.StackDepth | Cache/cachelab-handout/csim.c:192-241 | the tags above a tag in recency order are exactly those touched since its last access |
| Lru.StateIsTop | Cache/cachelab-handout/csim.c:192-241 | an E-way set always holds the E most recently used tags |
| Lru.EvictsWhenFull | Cache/cachelab-handout/csim.c:261-285 | an access evicts exactly when it misses and at least E distinct tags of its set have been touched before |
| Lru.Inclusion | Cache/cachelab-handout/csim.c:218-285 | at every point of every trace, the lines of an E-way set are a prefix of those of a wider set |
| Lru.MissesMonotone | Cache/cachelab-handout/csim.c:244-285 | total misses never increase with associativity |
| Lru.HitsAndMisses | Cache/cachelab-handout/csim.c:261-279 | hits and misses add up to the accesses |
| Lru.HitsCounted | Cache/cachelab-handout/csim.c:261-279 | the hit counter is the number of accesses that hit |
| Lru.EvictionsCounted | Cache/cachelab-handout/csim.c:261-279 | the eviction counter is the number of accesses that evict |
| Lru.MissesFill | Cache/cachelab-handout/csim.c:261-279 | misses less evictions is the number of valid lines |
| Lru.RepeatHits | Cache/cachelab-handout/csim.c:170-174 | the second access of a modify always hits |
| CacheSim.SameBlock | Cache/cachelab-handout/csim.c:184-188 | two addresses share set index and tag exactly when they lie in the same block of 2^b bytes |
| CacheSim.AddressSplit | Cache/cachelab-handout/csim.c:184-188 | tag, set index and offset are the upper, middle and lower parts of the address, with an index below 2^s and an offset below 2^b |
| CacheSim.SameSet | Cache/cachelab-handout/csim.c:184-188 | two addresses share a set exactly when their block numbers differ by a multiple of 2^s |
| CacheSim.InsertFront | Cache/cachelab-handout/csim.c:204-208 | inserting after the dummy leaves a well-linked ring with the line first |
| CacheSim.Unlink | Cache/cachelab-handout/csim.c:201-202 | unlinking leaves a well-linked ring of the other lines, in order |
| CacheSim.CacheSet.constructor | Cache/cachelab-handout/csim.c:288-313 | a new set is a well-linked ring of E invalid lines |
| CacheSim.CacheSet.CheckAndUpdate | Cache/cachelab-handout/csim.c:192-215 | hits exactly when a valid line has the tag, which then is most recent; a miss changes nothing; the walk ends |
| CacheSim.CacheSet.AddOrReplaceLine | Cache/cachelab-handout/csim.c:218-241 | the tag becomes most recent, at the cost of the least recent one when the set is full; valid lines stay first with distinct tags |
| CacheSim.Simulator.AccessCache | Cache/cachelab-handout/csim.c:244-285 | one access advances the set whose index is the middle part of the address as the value model does, leaves all others alone, and reports a hit or an eviction exactly when the model does |
| CacheSim.Simulator.ParseLine | Cache/cachelab-handout/csim.c:155-181 | instruction loads make no access, a modify makes two of which at most one misses, anything else one, all to the block of the address |
| CacheSim.Simulator.Run | Cache/cachelab-handout/csim.c:77-83 | the accesses of a whole trace file are those of its lines in order, each to the block of its address; the totals count the hits and evictions of the value model on them, add up to the accesses, and misses less evictions is the number of valid lines |
| Trans.Trans | Cache/cachelab-handout/trans.c:65-77 | B is A transposed and A is unchanged, for all dimensions |
| Trans.Trans32x32 | Cache/cachelab-handout/trans.c:86-113 | the same for all multiples of 8, with diagonal elements stored late |
| Trans.UpperRows | Cache/cachelab-handout/trans.c:130-153 | the upper left quarter is in place and the upper right one parked four columns and rows away from where it belongs; finished blocks keep their elements |
| Trans.MiddleSwap | Cache/cachelab-handout/trans.c:156-181 | the parked quarter moves to its place while the lower left one takes its room |
| Trans.TransByEights | Cache/cachelab-handout/trans.c:120-200 | B is A transposed and A is unchanged, whatever B held before, for all multiples of 8 |
| Trans.Trans61x67 | Cache/cachelab-handout/trans.c:208-244 | the same for all dimensions, with ragged blocks and the unrolled loop |
| Trans.SubmitFits | Cache/cachelab-handout/trans.c:29-54 | the routine chosen stays inside its matrices exactly when the shape is neither 32 by 64 nor 61 by 64 |
| Trans.TransposeSubmit | Cache/cachelab-handout/trans.c:29-54 | B is A transposed for every shape but those two |
| Trans.IsTranspose | Cache/cachelab-handout/trans.c:273-288 | true exactly when B is A transposed |
| Jobs.AddedPids | Shell/shlab-handout/tsh.c:554-580 | adding a new pid adds it once and keeps all others, or changes nothing exactly when no slot is free |
| Jobs.DeletedPids | Shell/shlab-handout/tsh.c:582-600 | deleting a pid removes it and keeps all others |
| Jobs.HandledAllPids | Shell/shlab-handout/tsh.c:424-463 | a run of the handler removes exactly the children reported as exited, and keeps every other job once |
| Jobs.HandledAllSlots | Shell/shlab-handout/tsh.c:424-463 | a run of the handler empties the slots of exited jobs, marks the stopped ones ST, and changes nothing else in any slot |
| Jobs.HandledAllNextJid | Shell/shlab-handout/tsh.c:582-600 | the next job number is one more than the largest left, or 1, if a job was deleted, and unchanged otherwise |
| Jobs.FgPidMeans | Shell/shlab-handout/tsh.c:603-611 | fgpid returns 0 exactly when no slot is marked FG or the first such slot is empty |
| Jobs.JobTable.AddJob | Shell/shlab-handout/tsh.c:554-580 | the first free slot holds exactly the new job with the next job number, which then wraps after 16; all other slots are unchanged; refused exactly for a pid below 1 or a full table, changing nothing |
| Jobs.JobTable.DeleteJob | Shell/shlab-handout/tsh.c:583-600 | the first slot of the pid is cleared, all others are unchanged, and the next job number is one more than the largest in use |
| Jobs.JobTable.MaxJid | Shell/shlab-handout/tsh.c:543-551 | the largest job number in the table |
| Jobs.JobTable.SigchldHandler | Shell/shlab-handout/tsh.c:424-463 | every report of waitpid is applied to the table: exited jobs are cleared, stopped ones are marked ST with pid, number and command line kept, all others are as before, and the next job number follows the largest left if one was deleted |
| Jobs.JobTable.FgPid | Shell/shlab-handout/tsh.c:603-611 | the pid of the first slot marked FG, or 0 |
| Sigchld.NextInv | Shell/shlab-handout/tsh.c:186-219 | every step of kernel, handler and main flow keeps: no event lost, no ghost job, no child forgotten, the window protected |
| Sigchld.NoEventEverLost | Shell/shlab-handout/tsh.c:424-463 | in every interleaving, while a child is waitable SIGCHLD is pending or the handler has yet to make its last waitpid call |
| Sigchld.QuietMeansReaped | Shell/shlab-handout/tsh.c:424-463 | with nothing pending and no handler running, no zombie is left, in the children or in the table |
| Sigchld.TableMatchesChildren | Shell/shlab-handout/tsh.c:186-219 | in every interleaving each pid in the table is there once and is an unreaped child or the one being deleted, and each unreaped child is there unless between fork and addjob or refused |
| Sigchld.RefusedWhenFull | Shell/shlab-handout/tsh.c:554-580 | a child is refused only when all slots hold other jobs |
| Sigchld.SuspendsForForeground | Shell/shlab-handout/tsh.c:406-407 | waitfg suspends itself only while some job is in the foreground |
| Sigchld.WaitEndsWithoutForeground | Shell/shlab-handout/tsh.c:400-411 | as long as the write of do_bgfg has hit no cleared slot, waitfg returns only when no job is in the foreground |
| Sigchld.WaitMissesForeground | Shell/shlab-handout/tsh.c:380-411 | a run in which waitfg returns while a job is in the foreground, after that write has marked a cleared slot |
| Sigchld.BlockedOnceForkFailed | Shell/shlab-handout/tsh.c:189-199 | outside the critical sections SIGCHLD is blocked exactly when some fork has failed before |
| Sigchld.NothingReapedAfterForkFails | Shell/shlab-handout/tsh.c:195-199 | after a failed fork SIGCHLD is blocked, no handler runs, no child is reaped and no job is deleted, for the rest of the run |
| Sigchld.ForkFailureRun | Shell/shlab-handout/tsh.c:189-219 | a run in which that happens, and a child that has exited is left waitable and in the table |
| Sigchld.PendingIsDeliverable | Shell/shlab-handout/tsh.c:212-219 | while no fork has failed, a signal pending outside the critical sections can be delivered |
| Rio.Reader.Refill | Proxy/proxylab-handout/csapp.c:821-834 | undelivered bytes are neither lost nor reordered by a refill, which ends with bytes in the buffer, at the end of the stream or with an error |
| Rio.Reader.Read | Proxy/proxylab-handout/csapp.c:817-844 | n bytes or all that the buffer holds are delivered, they are the next of the stream, and the rest remains |
| Rio.Reader.ReadNb | Proxy/proxylab-handout/csapp.c:863-879 | delivers n bytes or all that remain; after an error the bytes copied so far are accounted for |
| Rio.Reader.ReadLineB | Proxy/proxylab-handout/csapp.c:886-914 | delivers up to and with the first newline, at most maxlen-1 bytes, or up to the end, followed by a zero byte except at the end of the stream |
| Rio.LineMeans | Proxy/proxylab-handout/csapp.c:891-911 | a line has no newline before its last byte and ends at one, at the limit or with the stream |
| Rio.Reader.Session | Proxy/proxylab-handout/csapp.c:817-914 | any mix of calls on one buffer, also after failed ones, takes consecutive pieces of the stream, which with the bytes that remain make up the whole; a call that succeeds delivers its piece, and the stream alone dictates it, for every schedule of short reads and interruptions; a call that fails has taken a first part of what it would have delivered |
| Rio.Sink.WriteN | Proxy/proxylab-handout/csapp.c:786-805 | all n bytes arrive once and in order, or a proper first part of them before an error |
| Sio.ReadReversed | Proxy/proxylab-handout/csapp.c:228-238 | reading the reversed digits forwards is reading the digits backwards |
| Sio.DigitRoundTrip | Proxy/proxylab-handout/csapp.c:250-252 | the character for a digit is the one at its index among 0 to 9 and a to z, and has that index for its value |
| Sio.ReadOneMore | Proxy/proxylab-handout/csapp.c:250-253 | reading is positional: a further digit counts once and all before it b times as much |
| Sio.Reverse | Proxy/proxylab-handout/csapp.c:228-238 | the string up to its terminator is reversed in place and nothing else changes |
| Sio.Ltoa | Proxy/proxylab-handout/csapp.c:241-259 | for every base from 2 to 36, the text is a sign if negative and then digits among the first b of 0 to 9 and a to z, without a superfluous leading zero, in at most 65 characters with the terminator, and reading it gives back the number |
| ProxyCache.ToFrontAgrees | Proxy/proxylab-handout/cache.c:56-90 | moving the first entry of a URL to the front keeps every URL's newest entry ahead of its older ones, and the total size |
| ProxyCache.PrefixAgrees | Proxy/proxylab-handout/cache.c:116-132 | evicting from the tail keeps every remaining URL's newest entry first |
| ProxyCache.ConsAgrees | Proxy/proxylab-handout/cache.c:164-176 | an insertion in front makes the new content the one found for its URL and no other |
| ProxyCache.StoredMeans | Proxy/proxylab-handout/cache.c:135-180 | what is stored for a URL is the content of its last accepted add |
| ProxyCache.Cache.MoveToFront | Proxy/proxylab-handout/cache.c:56-90 | the list stays well linked with a correct tail, and the item is first |
| ProxyCache.Cache.Find | Proxy/proxylab-handout/cache.c:93-113 | misses exactly when no entry has the URL; a hit is the first entry for it, has the content last stored, and is most recent afterwards |
| ProxyCache.Cache.RemoveOldest | Proxy/proxylab-handout/cache.c:116-132 | the last entry is gone and the total size is right; an empty cache stays empty |
| ProxyCache.Cache.Add | Proxy/proxylab-handout/cache.c:135-180 | refuses exactly objects over the limit; otherwise the new entry is in front of the longest most recently used part whose total leaves room for it |
| ProxyCache.FrontAfterPut | Proxy/proxylab-handout/cache.c:116-176 | eviction and insertion leave in the cache as much of the front of the list that never drops an entry as fits |
| ProxyCache.DepthStep | Proxy/proxylab-handout/cache.c:56-180 | a request for another URL lets an entry sink by exactly the size it puts or moves in front of it |
| ProxyCache.Retained | Proxy/proxylab-handout/cache.c:93-180 | an accepted add stays the entry found for its URL until the next one, behind exactly what has been put or moved in front of it since |
| ProxyCache.FoundWhileItFits | Proxy/proxylab-handout/cache.c:93-180 | an object not asked for since it was stored is within reach exactly if its size and the sizes put or moved in front of it are at most the limit |
| ProxyCache.Serve | Proxy/proxylab-handout/cache.c:93-180 | over any sequence of requests, every hit returns the content of the last accepted add for its URL, and a get hits exactly when the first entry for its URL, with all in front of it, is within the limit |

## Left out

- MmInit: requires the emptied heap that mem_reset_brk leaves, as the driver always calls it; the lazy call from mm_malloc and mm_free on an uninitialised allocator is not modelled.
- MmMalloc: requires an initialised allocator; sizes are unbounded integers, so the wrap-around of size_t and of the int argument of mem_sbrk for requests near 2^31 and 2^32 is not modelled; in the model such requests fail.
- ExtendHeap: requires at least three words, rounded up to four; a block of fewer has no room for its two links, and both callers ask for more.
- Place: requires a block of the free list that is large enough, as both of its callers provide.
- MmFree: requires NULL or a live pointer, as its documentation does.
- MmRealloc: requires NULL or a live pointer, as its documentation does, and an initialised allocator, like mm_malloc.
- IsInFreeList: requires an intact tiling and an intact ring, like CheckFreelist.
- CheckFreelist: requires that the tiling and the ring of the heap are each intact, so a walk over damaged links is not modelled; the two may disagree.
- TransByEights: takes the matrix dimensions for the two constants 64 of trans_64x64, which are those dimensions in the only call that stays in bounds.
- TransposeSubmit: excludes the shapes 32 by 64 and 61 by 64, where the fall-through reaches loops that leave the matrices (SubmitFits).
- SetIndexAndTag: shifts and mask are written as division and remainder by powers of two; shift counts for which C leaves them undefined (31 and more for the int `1 << s`, 64 and more for the address) are not modelled.
- Ltoa: excludes the minimum of long, whose negation overflows in the source.
- ReadLineB: requires room for the terminating zero byte, which the source writes even for maxlen 0.
- WriteN: a call of write moves at least one byte or fails; the case of a zero return with a stale errno is not modelled.
- Session: a schedule of outcomes is finite; endless interruption is not modelled.
- EvalMmValid: that its `char` is signed is taken from the target of the Makefile; the trace is a sequence of well-formed requests; reading trace files, timing, utilisation and the libc comparison are not modelled.
- mm.c: checkheap, mm_check and the printing of memory.
- csim.c: argument parsing, sscanf, verbose output, the overflow of int counters, freeCache, and E < 1.
- tsh.c: parsing, the built-in commands, the forwarding of SIGINT and SIGTSTP, and uniqueness of job numbers (wrap-around can repeat one) and of the foreground job (the unprotected write of do_bgfg, modelled as a write to any slot, can mark a cleared one).
- tsh.c: the first test of eval, which returns for every foreground line; the protocol starts at the blocking of SIGCHLD and lets addjob be called with either state.
- tsh.c: liveness; only safety, and that a pending signal can be delivered, are stated.
- trans.c: prefetch hints and miss counts.
- csapp.c: rio_readn, the wrappers that exit on errors, and the two copies of the file.
- cache.c: the read-write lock, which findCacheItem does not release on a hit, nor addCacheItem on a refused object; operations are atomic here, content is an opaque string, and allocation succeeds.
- bits.c, the attack and bomb labs, tiny.c and the networking of proxy.c: not part of this project.
