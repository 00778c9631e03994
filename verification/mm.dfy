/** The explicit-free-list allocator of mm.c.  Pointers are addresses in the heap; 0 is NULL,
    which is never the address of a block. */
module MM {
  import opened Arithmetic
  import opened MemLib
  import opened Sequences
  import opened HeapLayout
  import opened Coalescing
  import opened Placing

  const NULL := 0

  class Allocator {
    const mem: Memory
    var heapListp: int
    var dummyBlockp: int

    /** The blocks of the heap by address, and the free list from the dummy's successor on. */
    ghost var B: Blocks
    ghost var F: seq<int>

    constructor (mem: Memory)
      ensures this.mem == mem && heapListp == 0
    {
      this.mem := mem;
      heapListp, dummyBlockp := 0, 0;
    }

    /** The two views of the heap are both intact, possibly with free blocks not yet listed. */
    ghost predicate Intact()
      reads this, mem, mem.bytes
    {
      && mem.Valid()
      && heapListp == PROLOGUE && dummyBlockp == DUMMY
      && Tiles(mem.words, B, mem.brk)
      && Ring(mem.words, F)
    }

    /** What holds between calls. */
    ghost predicate Valid()
      reads this, mem, mem.bytes
    {
      Intact() && Lists(F, B, {}) && Coalesced(B, 0)
    }

    /** The bytes of every live payload, by the pointer the client holds. */
    ghost function Payload(): map<int, seq<Byte>>
      reads this, mem, mem.bytes
    {
      Payloads(B, mem.bytes[..])
    }

    /** Between calls, the walk by NEXT_BLKP from the prologue meets every block once, in address order,
        and the sizes add up to the heap less the padding word and the epilogue header. */
    lemma HeapIsTiled()
      requires Valid()
      ensures forall x :: x in Walk(B, PROLOGUE, mem.brk) <==> x in B
      ensures forall i, j :: 0 <= i < j < |Walk(B, PROLOGUE, mem.brk)| ==>
                Walk(B, PROLOGUE, mem.brk)[i] < Walk(B, PROLOGUE, mem.brk)[j]
      ensures TotalSize(B, Walk(B, PROLOGUE, mem.brk)) == mem.brk - 8
    {
      WalkMeetsAll(B, mem.brk, PROLOGUE);
      forall x | x in B
        ensures PROLOGUE <= x
      {
        Ends(B, mem.brk, x, mem.brk);
      }
    }

    /** No two neighbouring blocks are both free, and the list holds each free block once. */
    lemma FreeBlocks(x: int)
      requires Valid() && x in B && B[x].free
      ensures x + B[x].size in B ==> !B[x + B[x].size].free
      ensures exists i :: 0 <= i < |F| && F[i] == x && forall j :: 0 <= j < |F| && F[j] == x ==> j == i
    {
      Ends(B, mem.brk, x, mem.brk);
      var next := NextFree(B, x);
      var i :| 0 <= i < |F| && F[i] == x;
    }

    // ---------- The macros ----------

    method GetSize(p: int) returns (size: int)
      requires mem.Valid() && p in mem.words && p + 4 <= mem.brk
      ensures size == SizeOf(mem.words[p])
    {
      var w := mem.Get(p);
      size := SizeOf(w);
    }

    method GetAlloc(p: int) returns (alloc: int)
      requires mem.Valid() && p in mem.words && p + 4 <= mem.brk
      ensures alloc == AllocOf(mem.words[p])
    {
      var w := mem.Get(p);
      alloc := AllocOf(w);
    }

    method Ftrp(bp: int) returns (p: int)
      requires mem.Valid() && bp - 4 in mem.words && bp <= mem.brk
      ensures p == bp + SizeOf(mem.words[bp - 4]) - DSIZE
    {
      var size := GetSize(bp - WSIZE);
      p := bp + size - DSIZE;
    }

    method NextBlkp(bp: int) returns (p: int)
      requires mem.Valid() && bp - 4 in mem.words && bp <= mem.brk
      ensures p == bp + SizeOf(mem.words[bp - 4])
    {
      var size := GetSize(bp - WSIZE);
      p := bp + size;
    }

    method PrevBlkp(bp: int) returns (p: int)
      requires mem.Valid() && bp - 8 in mem.words && bp <= mem.brk + 4
      ensures p == bp - SizeOf(mem.words[bp - 8])
    {
      var size := GetSize(bp - DSIZE);
      p := bp - size;
    }

    // ---------- The free list ----------

    method AddToFreeList(bp: int)
      requires mem.Valid() && dummyBlockp == DUMMY && Ring(mem.words, F)
      requires bp in mem.words && bp + 4 in mem.words && bp % 8 == 0 && DUMMY < bp && bp !in F
      requires bp + 8 <= mem.brk && ListInHeap()
      modifies `F, mem`words, mem.bytes
      ensures mem.Valid() && mem.words == Link(old(mem.words), bp)
      ensures F == [bp] + old(F) && Ring(mem.words, F)
    {
      LinkRing(mem.words, F, bp);
      var nextBp := mem.Get(dummyBlockp + WSIZE);
      mem.Put(bp + WSIZE, nextBp);
      mem.Put(nextBp, bp);
      mem.Put(bp, dummyBlockp);
      mem.Put(dummyBlockp + WSIZE, bp);
      F := [bp] + F;
    }

    method RemoveFromFreeList(bp: int)
      requires mem.Valid() && Ring(mem.words, F) && bp in F
      requires ListInHeap()
      modifies `F, mem`words, mem.bytes
      ensures mem.Valid() && mem.words == Unlink(old(mem.words), bp)
      ensures F == Without(old(F), bp) && Ring(mem.words, F)
      ensures mem.words.Keys == old(mem.words.Keys)
    {
      UnlinkListed(mem.words, F, bp);
      var prevBp := mem.Get(bp);
      var nextBp := mem.Get(bp + WSIZE);
      mem.Put(prevBp + WSIZE, nextBp);
      mem.Put(nextBp, prevBp);
      F := Without(F, bp);
    }

    /** PUT of a block's header, then of its footer, which FTRP finds through the header. */
    method PutTagsAt(bp: int, size: int, free: bool)
      requires mem.Valid() && bp - 4 in mem.words && bp + size - 8 in mem.words
      requires size % 8 == 0 && 8 <= size && 4 <= bp && bp + size - 4 <= mem.brk
      modifies mem`words, mem.bytes
      ensures mem.Valid() && mem.words == PutTags(old(mem.words), bp, bp + size, free)
      ensures mem.words.Keys == old(mem.words.Keys)
    {
      TagSize(Block(size, free));
      var tag := Pack(size, if free then 0 else 1);
      mem.Put(bp - WSIZE, tag);
      var ftr := Ftrp(bp);
      mem.Put(ftr, tag);
    }

    // ---------- Coalescing ----------

    method Coalesce(block: int) returns (bp: int)
      requires Intact() && Lists(F, B, {block}) && Coalesced(B, block)
      requires block in B && B[block].free
      modifies `B, `F, mem`words, mem.bytes
      ensures Valid()
      ensures bp == old(Lo(B, block)) && B == old(Merged(B, block))
      ensures F == [bp] + old(Unlisted(B, F, block))
      ensures Kept(old(B), old(mem.words), mem.words)
    {
      CoalesceCorrect(mem.words, B, mem.brk, F, block);
      MergedHeap(mem.words, B, mem.brk, F, block);
      bp := Merge(block);
      B := Merged(B, block);
      FreeBlockRoom(mem.words, B, mem.brk, bp);
      ListedInHeap(B, mem.brk, F);
      AddToFreeList(bp);
    }

    /** GET_SIZE(HDRP(bp)) of a block. */
    method BlockSize(bp: int) returns (size: int)
      requires Intact() && bp in B
      ensures size == B[bp].size
    {
      BlockTags(mem.words, B, mem.brk, bp);
      size := GetSize(bp - WSIZE);
    }

    /** The reads with which coalesce begins. */
    method Neighbours(bp: int) returns (prev: int, prevAlloc: int, next: int, nextAlloc: int)
      requires Intact() && bp in B && B[bp].free
      ensures next == bp + B[bp].size
      ensures if prevAlloc == 1 then Lo(B, bp) == bp else Lo(B, bp) == prev < bp
      ensures if nextAlloc == 1 then Hi(B, bp) == next
              else next in B && B[next].free && Hi(B, bp) == next + B[next].size > next
    {
      PrevNeighbour(mem.words, B, mem.brk, bp);
      NextNeighbour(mem.words, B, mem.brk, bp);
      prev := PrevBlkp(bp);
      var prevFtr := Ftrp(prev);
      prevAlloc := GetAlloc(prevFtr);
      next := NextBlkp(bp);
      nextAlloc := GetAlloc(next - WSIZE);
    }

    ghost predicate ListInHeap()
      reads this, mem
    {
      DUMMY + 8 <= mem.brk && forall b :: b in F ==> b + 8 <= mem.brk
    }

    /** The stores of coalesce when one neighbour is taken off the list: cases 2 and 3. */
    method MergeOne(taken: int, bp: int, size: int)
      requires mem.Valid() && Ring(mem.words, F) && ListInHeap() && taken in F
      requires bp - 4 in mem.words && bp + size - 8 in mem.words
      requires size % 8 == 0 && 8 <= size && 4 <= bp && bp + size - 4 <= mem.brk
      modifies `F, mem`words, mem.bytes
      ensures mem.Valid() && mem.words == PutTags(Unlink(old(mem.words), taken), bp, bp + size, true)
      ensures F == Without(old(F), taken)
    {
      RemoveFromFreeList(taken);
      PutTagsAt(bp, size, true);
    }

    /** Those of case 4, where both neighbours are. */
    method MergeBoth(prev: int, next: int, size: int)
      requires mem.Valid() && Ring(mem.words, F) && ListInHeap() && prev in F && next in F && prev != next
      requires prev - 4 in mem.words && prev + size - 8 in mem.words
      requires size % 8 == 0 && 8 <= size && 4 <= prev && prev + size - 4 <= mem.brk
      modifies `F, mem`words, mem.bytes
      ensures mem.Valid()
      ensures mem.words == PutTags(Unlink(Unlink(old(mem.words), prev), next), prev, prev + size, true)
      ensures F == Without(Without(old(F), prev), next)
    {
      WithoutMembers(F, prev);
      RemoveFromFreeList(prev);
      RemoveFromFreeList(next);
      PutTagsAt(prev, size, true);
    }

    /** The four cases of coalesce, up to where they meet again. */
    method Merge(block: int) returns (bp: int)
      requires Intact() && Lists(F, B, {block})
      requires block in B && B[block].free
      modifies `F, mem`words, mem.bytes
      ensures mem.Valid() && mem.words == old(MergedWords(mem.words, B, block))
      ensures F == old(Unlisted(B, F, block))
      ensures bp == Lo(B, block)
    {
      hide Tiling, Tagged, Lo, Hi, Ring, MergedWords, Unlisted, Without, Unlink, PutTags;
      bp := block;
      MergeRoom(mem.words, B, mem.brk, bp);
      ListedInHeap(B, mem.brk, F);
      var prev, prevAlloc, next, nextAlloc := Neighbours(bp);
      var size := BlockSize(bp);
      if prevAlloc == 1 && nextAlloc == 1 {
        MergedNone(mem.words, B, F, bp);
        return;
      }
      if prevAlloc == 1 && nextAlloc != 1 {
        var nextSize := BlockSize(next);
        size := size + nextSize;
        MergedNext(mem.words, B, mem.brk, F, bp, size);
        MergeOne(next, bp, size);
      } else if prevAlloc != 1 && nextAlloc == 1 {
        Span(B, mem.brk, bp);
        var prevSize := BlockSize(prev);
        size := size + prevSize;
        MergedPrev(mem.words, B, mem.brk, F, bp, prev, size);
        bp := prev;
        MergeOne(bp, bp, size);
      } else {
        Span(B, mem.brk, bp);
        var prevSize := BlockSize(prev);
        var nextSize := BlockSize(next);
        size := size + prevSize + nextSize;
        MergedBoth(mem.words, B, mem.brk, F, bp, prev, size);
        MergeBoth(prev, next, size);
        bp := prev;
      }
    }

    // ---------- Taking blocks ----------

    /** place: take asize bytes of the free block bp, and list what is left when it can be a block. */
    method Place(bp: int, asize: int)
      requires Valid() && bp in F && asize % 8 == 0 && 16 <= asize <= B[bp].size
      modifies `B, `F, mem`words, mem.bytes
      ensures Valid()
      ensures B == Placed(old(B), bp, asize) && F == PlacedList(old(B), old(F), bp, asize)
      ensures Kept(old(B), old(mem.words), mem.words)
    {
      hide Tiling, Tagged, Ring, Coalesced, Coherent, Unlink, PutTags, Kept;
      var csize := BlockSize(bp);
      FreeBlockRoom(mem.words, B, mem.brk, bp);
      BlockTags(mem.words, B, mem.brk, bp);
      if csize - asize >= 2 * DSIZE {
        PlaceSplit(bp, asize, csize);
      } else {
        WholeCorrect(mem.words, B, mem.brk, F, bp);
        ListedInHeap(B, mem.brk, F);
        PutTagsAt(bp, csize, false);
        RemoveFromFreeList(bp);
        B := B[bp := Block(csize, false)];
      }
    }

    /** The branch of place that splits the block. */
    method PlaceSplit(bp: int, asize: int, csize: int)
      requires Valid() && bp in F && Splittable(B, bp, asize) && csize == B[bp].size
      modifies `B, `F, mem`words, mem.bytes
      ensures Valid()
      ensures B == Split(old(B), bp, asize) && F == [bp + asize] + Without(old(F), bp)
      ensures Kept(old(B), old(mem.words), mem.words)
    {
      hide Tiling, Tagged, Ring, Coalesced, SizeOf, Unlink, PutTags, Lo, Hi, Lists, Kept, Merged, Unlisted, Without;
      BlockTags(mem.words, B, mem.brk, bp);
      ListsAllFree(F, B, {});
      SplitNext(mem.words, B, mem.brk, F, bp, asize);
      SplitCorrect(mem.words, B, mem.brk, F, bp, asize);
      ListedInHeap(B, mem.brk, F);
      RestAlone(B, mem.brk, F, bp, asize);
      PutTagsAt(bp, asize, false);
      RemoveFromFreeList(bp);
      var rest := NextBlkp(bp);
      PutTagsAt(rest, csize - asize, true);
      ghost var m1 := mem.words;
      assert m1 == old(SplitWords(mem.words, bp, asize, bp + csize));
      B := Split(B, bp, asize);
      rest := Coalesce(rest);
      SplitKeptOn(old(B), bp, asize, old(mem.words), m1, mem.words);
    }

    // ---------- Growing the heap ----------

    /** extend_heap: 0 stands for NULL. */
    method ExtendHeap(words: int) returns (bp: int)
      requires Valid() && words >= 3
      modifies `B, `F, mem`words, mem`brk, mem.bytes
      ensures Valid()
      ensures bp == 0 <==> old(mem.brk) + EvenBytes(words) > mem.maxHeap
      ensures bp == 0 ==> mem.brk == old(mem.brk) && B == old(B) && F == old(F)
      ensures bp == 0 ==> mem.words == old(mem.words) && mem.bytes[..] == old(mem.bytes[..])
      ensures bp != 0 ==>
                var B1 := Extended(old(B), old(mem.brk), EvenBytes(words));
                && mem.brk == old(mem.brk) + EvenBytes(words)
                && bp == Lo(B1, old(mem.brk)) && B == Merged(B1, old(mem.brk))
                && F == [bp] + Unlisted(B1, old(F), old(mem.brk))
      ensures Kept(old(B), old(mem.words), mem.words)
    {
      hide Tiling, Tagged, Ring, Coalesced, Lists, SizeOf, PutTags, Kept, Lo, Hi, Merged, Unlisted;
      var size := EvenBytes(words);
      ghost var brk, m := mem.brk, mem.words;
      var ok;
      ok, bp := mem.Sbrk(size);
      if !ok {
        BackedByBuffer(mem.words, mem.bytes[..], mem.brk);
        KeptRefl(mem.words, B, mem.brk);
        return 0;
      }
      BackedByBuffer(mem.words, mem.bytes[..], mem.brk);
      ExtendCorrect(mem.words, B, brk, F, size);
      PutTagsAt(bp, size, true);
      var next := NextBlkp(bp);
      mem.Put(next - WSIZE, Pack(0, 1));
      ghost var m1 := mem.words;
      assert m1 == ExtendWords(m, brk, size);
      B := Extended(B, brk, size);
      Span(B, mem.brk, bp);
      bp := Coalesce(bp);
      ExtendKeptOn(old(B), brk, size, m, m1, mem.words);
    }

    // ---------- mm_init ----------

    /** mm_init, on a heap that mem_reset_brk has emptied. */
    method MmInit() returns (ret: int)
      requires mem.Valid() && mem.brk == 0
      modifies this, mem`words, mem`brk, mem.bytes
      ensures ret == 0 || ret == -1
      ensures ret == 0 <==> 32 + CHUNKSIZE <= mem.maxHeap
      ensures ret == 0 ==> Valid() && Payload() == map[] && mem.brk == 32 + CHUNKSIZE
      ensures ret == 0 ==> B == Extended(EMPTY_HEAP, 32, CHUNKSIZE) && F == [32]
    {
      var ok, p := mem.Sbrk((2 + 4 + 2) * WSIZE);
      heapListp := p;
      if !ok {
        return -1;
      }
      WriteEmptyHeap();
      dummyBlockp := heapListp + 4 * WSIZE;
      heapListp := heapListp + 2 * WSIZE;
      B, F := EMPTY_HEAP, [];
      BackedByBuffer(mem.words, mem.bytes[..], mem.brk);
      InitTiles(mem.words);
      var bp := ExtendHeap(CHUNKSIZE / WSIZE);
      if bp == 0 {
        return -1;
      }
      InitGrown(CHUNKSIZE, mem.bytes[..]);
      return 0;
    }

    /** The eight words that mm_init writes. */
    method WriteEmptyHeap()
      requires mem.Valid() && mem.brk == 32 && heapListp == 0
      modifies mem`words, mem.bytes
      ensures mem.Valid()
      ensures mem.words.Keys >= {4, 8, 12, 16, 20, 24, 28}
      ensures var m := mem.words;
              && m[4] == 9 && m[8] == 9 && m[12] == 17 && m[16] == DUMMY && m[20] == DUMMY
              && m[24] == 17 && m[28] == 1
    {
      hide Coherent;
      FirstWords(mem.words, mem.bytes[..]);
      var h, dummy := heapListp, heapListp + 4 * WSIZE;
      mem.Put(h, 0);
      mem.Put(h + 1 * WSIZE, Pack(DSIZE, 1));
      mem.Put(h + 2 * WSIZE, Pack(DSIZE, 1));
      mem.Put(h + 3 * WSIZE, Pack(2 * DSIZE, 1));
      mem.Put(h + 4 * WSIZE, dummy);
      mem.Put(h + 5 * WSIZE, dummy);
      mem.Put(h + 6 * WSIZE, Pack(2 * DSIZE, 1));
      mem.Put(h + 7 * WSIZE, Pack(0, 1));
    }

    // ---------- find_fit ----------

    method FindFit(asize: int) returns (bp: int)
      requires Valid()
      ensures bp == FirstFit(B, F, asize)
      ensures bp != 0 ==> bp in F && bp in B && B[bp].free && asize <= B[bp].size
    {
      hide Tiling, Tagged, Coalesced, SizeOf;
      ListsAllFree(F, B, {});
      ListedInHeap(B, mem.brk, F);
      ghost var i := 0;
      LinkAt(i);
      bp := mem.Get(dummyBlockp + WSIZE);
      while bp != dummyBlockp
        invariant 0 <= i <= |F| && bp == Node(F, i + 1)
        invariant forall j :: 0 <= j < i ==> F[j] in B && B[F[j]].size < asize
        decreases |F| - i
      {
        var size := BlockSize(bp);
        FirstFitFrom(B, F, asize, i);
        if asize <= size {
          return bp;
        }
        i := i + 1;
        LinkAt(i);
        bp := mem.Get(bp + WSIZE);
      }
      FirstFitFrom(B, F, asize, |F|);
      return 0;
    }

    /** The successor word of the i-th node is in the heap and leads to the next. */
    lemma LinkAt(i: int)
      requires Walkable() && 0 <= i <= |F|
      ensures Node(F, i) + 4 in mem.words && mem.words[Node(F, i) + 4] == Node(F, i + 1)
      ensures Node(F, i) + 8 <= mem.brk
      ensures Node(F, i + 1) == DUMMY <==> i == |F|
    {
      Ends(B, mem.brk, DUMMY, mem.brk);
      assert Linked(mem.words, F, i);
      if i > 0 {
        assert F[i - 1] in F;
        Ends(B, mem.brk, F[i - 1], mem.brk);
      }
      assert i < |F| ==> F[i] in F;
    }

    // ---------- mm_malloc ----------

    /** No free block is large enough for a request of this size, and the heap cannot grow enough for it. */
    ghost predicate NoRoom(size: nat)
      reads this, mem
    {
      && (forall b :: b in B && B[b].free ==> B[b].size < AdjustedSize(size))
      && mem.brk + ExtendSize(AdjustedSize(size)) > mem.maxHeap
    }

    method MmMalloc(size: nat) returns (bp: int)
      requires Valid()
      modifies `B, `F, mem`words, mem`brk, mem.bytes
      ensures Valid()
      ensures bp == NULL <==> size == 0 || old(NoRoom(size))
      ensures bp == NULL && size != 0 ==>
                && (forall b :: b in old(B) && old(B)[b].free ==> old(B)[b].size < AdjustedSize(size))
                && old(mem.brk) + Max(AdjustedSize(size), CHUNKSIZE) > mem.maxHeap
      ensures size != 0 && (exists b :: b in old(F) && b in old(B) && AdjustedSize(size) <= old(B)[b].size) ==>
                var B0, F0, asize := old(B), old(F), AdjustedSize(size);
                && bp != NULL && mem.brk == old(mem.brk)
                && exists i :: 0 <= i < |F0| && F0[i] == bp && bp in B0 && asize <= B0[bp].size
                               && forall j :: 0 <= j < i ==> F0[j] in B0 && B0[F0[j]].size < asize
      ensures bp == NULL ==> B == old(B) && F == old(F) && mem.brk == old(mem.brk)
      ensures bp == NULL ==> mem.words == old(mem.words) && mem.bytes[..] == old(mem.bytes[..])
      ensures bp != NULL ==>
                && Payload().Keys == old(Payload().Keys) + {bp} && bp !in old(Payload())
                && bp % 8 == 0 && bp in B && |Payload()[bp]| == B[bp].size - 8
                && size + 8 <= B[bp].size <= AdjustedSize(size) + 8
                && var next := bp + B[bp].size;
                   F == (if next in B && B[next].free then [next] else []) + Without(old(F), bp)
      ensures forall p :: p in old(Payload()) ==> p in Payload() && Payload()[p] == old(Payload()[p])
      ensures bp != NULL && old(FirstFit(B, F, AdjustedSize(size))) != 0 ==>
                && bp == old(FirstFit(B, F, AdjustedSize(size))) && mem.brk == old(mem.brk) && bp in old(B)
                && B == Placed(old(B), bp, AdjustedSize(size))
                && F == PlacedList(old(B), old(F), bp, AdjustedSize(size))
      ensures bp != NULL && old(FirstFit(B, F, AdjustedSize(size))) == 0 ==>
                var grown := Extended(old(B), old(mem.brk), ExtendSize(AdjustedSize(size)));
                && mem.brk == old(mem.brk) + ExtendSize(AdjustedSize(size))
                && bp == Lo(grown, old(mem.brk)) && bp in Merged(grown, old(mem.brk))
                && B == Placed(Merged(grown, old(mem.brk)), bp, AdjustedSize(size))
                && F == PlacedList(Merged(grown, old(mem.brk)), [bp] + Unlisted(grown, old(F), old(mem.brk)), bp,
                                   AdjustedSize(size))
    {
      hide Tiling, Tagged, Ring, Coalesced, Lists, Kept, Lo, Hi, Merged, Unlisted;
      hide Payloads, Placed, PlacedList, FirstFit;
      if size == 0 {
        return NULL;
      }
      var asize := AdjustedSize(size);
      ListsAllFree(F, B, {});
      ListedInHeap(B, mem.brk, F);
      FirstFitFree(B, F, asize);
      GrownList(B, mem.brk, F, ExtendSize(asize));
      ghost var B0, brk0, m0, s0 := B, mem.brk, mem.words, mem.bytes[..];
      bp := FindFit(asize);
      if bp == NULL {
        EvenExtension(asize);
        GrownLive(B, mem.brk, ExtendSize(asize));
        bp := ExtendHeap(ExtendSize(asize) / WSIZE);
        if bp == NULL {
          return NULL;
        }
      } else {
        BackedByBuffer(mem.words, mem.bytes[..], mem.brk);
        KeptRefl(mem.words, B, mem.brk);
      }
      ghost var B1, m1 := B, mem.words;
      PlacedLive(B, mem.brk, bp, asize);
      PlacedRest(B, mem.brk, F, bp, asize);
      Place(bp, asize);
      KeptOn(B0, B1, m0, m1, mem.words);
      PayloadGained(B0, brk0, m0, s0, B, mem.brk, mem.words, mem.bytes[..], bp);
    }

    // ---------- mm_free ----------

    method MmFree(bp: int)
      requires Valid() && (bp == NULL || bp in Payload())
      modifies `B, `F, mem`words, mem.bytes
      ensures Valid()
      ensures bp == NULL ==> B == old(B) && F == old(F)
      ensures bp == NULL ==> mem.words == old(mem.words) && mem.bytes[..] == old(mem.bytes[..])
      ensures Payload() == old(Payload()) - {bp}
      ensures bp != NULL ==>
                && bp in old(B) && B == Merged(Freed(old(B), bp), bp)
                && F == [Lo(Freed(old(B), bp), bp)] + Unlisted(Freed(old(B), bp), old(F), bp)
      ensures bp != NULL ==>
                && F != [] && F[0] in B && bp in old(B) && F[0] <= bp < F[0] + B[F[0]].size
                && F == [F[0]] + Without(Without(old(F), F[0]), bp + old(B)[bp].size)
    {
      hide Tiling, Tagged, Ring, Coalesced, Lists, Kept, Lo, Hi, Merged, Unlisted, Payloads;
      PayloadKeys(B, mem.brk, mem.bytes[..]);
      if bp == NULL {
        assert Payload() == Payload() - {bp};
        return;
      }
      ghost var B0, m0, s0 := B, mem.words, mem.bytes[..];
      BlockTags(mem.words, B, mem.brk, bp);
      var size := BlockSize(bp);
      FreeCorrect(mem.words, B, mem.brk, F, bp);
      FreedList(B, mem.brk, F, bp);
      PutTagsAt(bp, size, true);
      B := Freed(B, bp);
      ghost var m1 := mem.words;
      MergedLive(B, mem.brk, bp);
      var merged := Coalesce(bp);
      KeptTrans(Freed(B0, bp), m0, m1, mem.words);
      KeptSub(B, Freed(B0, bp), m0, mem.words);
      PayloadLost(B0, mem.brk, m0, s0, B, mem.words, mem.bytes[..], bp);
    }

    // ---------- The client's own stores ----------

    /** A client stores byte v at offset k of a payload it holds. */
    method ClientStore(p: int, k: nat, v: Byte)
      requires Valid() && p in Payload() && k < |Payload()[p]|
      modifies mem`words, mem.bytes
      ensures Valid()
      ensures Payload() == old(Payload())[p := WithByte(old(Payload()[p]), k, v)]
    {
      hide Tiling, Tagged, Ring, Coalesced, Payloads;
      PayloadKeys(B, mem.brk, mem.bytes[..]);
      PayloadBounds(B, mem.brk, p);
      ListsAllFree(F, B, {});
      ghost var m0, s0 := mem.words, mem.bytes[..];
      mem.Store(p + k, v);
      StoreInPayload(m0, s0, mem.words, B, mem.brk, p, p + k, p + k + 1);
      PayloadStoreHeap(m0, mem.words, B, mem.brk, F, p);
      ByteStored(B, mem.brk, s0, mem.bytes[..], p, k, v);
    }

    /** A client loads the byte at offset k of a payload it holds. */
    method ClientLoad(p: int, k: nat) returns (v: Byte)
      requires Valid() && p in Payload() && k < |Payload()[p]|
      ensures v == Payload()[p][k]
    {
      PayloadKeys(B, mem.brk, mem.bytes[..]);
      PayloadBounds(B, mem.brk, p);
      v := mem.Load(p + k);
    }

    // ---------- mm_realloc ----------

    method MmRealloc(ptr: int, size: nat) returns (newptr: int)
      requires Valid() && (ptr == NULL || ptr in Payload())
      modifies `B, `F, mem`words, mem`brk, mem.bytes
      ensures Valid()
      ensures size == 0 ==> newptr == NULL && Payload() == old(Payload()) - {ptr}
      ensures size != 0 ==> (newptr == NULL <==> old(NoRoom(size)))
      ensures size != 0 && newptr == NULL ==> B == old(B) && F == old(F) && mem.brk == old(mem.brk)
      ensures size != 0 && newptr == NULL ==> mem.words == old(mem.words) && mem.bytes[..] == old(mem.bytes[..])
      ensures size != 0 && newptr != NULL ==>
                var asize := AdjustedSize(size);
                mem.brk == old(mem.brk) + if old(FirstFit(B, F, asize)) != 0 then 0 else ExtendSize(asize)
      ensures newptr != NULL ==>
                && newptr !in old(Payload()) && newptr % 8 == 0
                && Payload().Keys == old(Payload().Keys) - {ptr} + {newptr}
                && size <= |Payload()[newptr]|
      ensures forall p :: p in old(Payload()) && p != ptr ==> p in Payload() && Payload()[p] == old(Payload()[p])
      ensures newptr != NULL && ptr != NULL ==>
                && newptr in Payload()
                && forall k :: 0 <= k < size && k < |old(Payload()[ptr])| ==>
                                 Payload()[newptr][k] == old(Payload()[ptr])[k]
    {
      hide Tiling, Tagged, Ring, Coalesced, Lists, Payloads, Coherent;
      hide Lo, Merged, Unlisted, Placed, PlacedList, FirstFit, Freed, Extended;
      PayloadKeys(B, mem.brk, mem.bytes[..]);
      if size == 0 {
        MmFree(ptr);
        return NULL;
      }
      if ptr == NULL {
        newptr := MmMalloc(size);
        return newptr;
      }
      newptr := MmMalloc(size);
      if newptr == NULL {
        return NULL;
      }
      MoveTo(newptr, ptr, size);
    }

    /** The end of mm_realloc: copy the payload, as much as both blocks are said to hold, and free the old one. */
    method MoveTo(newptr: int, ptr: int, size: nat)
      requires Valid() && ptr in Payload() && newptr in Payload() && newptr != ptr && size <= |Payload()[newptr]|
      modifies `B, `F, mem`words, mem.bytes
      ensures Valid()
      ensures Payload().Keys == old(Payload().Keys) - {ptr}
      ensures forall y :: y in Payload() && y != newptr ==> Payload()[y] == old(Payload())[y]
      ensures newptr in Payload() && |Payload()[newptr]| == |old(Payload())[newptr]|
      ensures SamePrefix(old(Payload()[ptr]), Payload()[newptr], size)
    {
      hide Tiling, Tagged, Ring, Coalesced, Lists, Payloads, Coherent, Lo, Merged, Unlisted, Without, Freed;
      PayloadKeys(B, mem.brk, mem.bytes[..]);
      var oldsize := BlockSize(ptr);
      if size < oldsize {
        oldsize := size;
      }
      CopyPayload(newptr, ptr, oldsize);
      MmFree(ptr);
    }

    /** The memcpy of mm_realloc, between two live blocks; it may read past the old payload. */
    method CopyPayload(newptr: int, ptr: int, n: int)
      requires Valid() && Live(B, ptr) && Live(B, newptr) && ptr != newptr
      requires 0 <= n <= B[ptr].size && n <= B[newptr].size - 8
      requires ptr in Payload()
      modifies mem`words, mem.bytes
      ensures Valid()
      ensures Payload().Keys == old(Payload().Keys) && ptr in Payload() && newptr in Payload()
      ensures forall y :: y in Payload() && y != newptr ==> Payload()[y] == old(Payload())[y]
      ensures |Payload()[newptr]| == |old(Payload())[newptr]|
      ensures SamePrefix(old(Payload()[ptr]), Payload()[newptr], n)
    {
      hide Tiling, Tagged, Ring, Coalesced, Payloads;
      ghost var m0, s0 := mem.words, mem.bytes[..];
      CopyRanges(B, mem.brk, ptr, newptr, n);
      PayloadBounds(B, mem.brk, newptr);
      ListsAllFree(F, B, {});
      mem.Memcpy(newptr, ptr, n);
      StoreInPayload(m0, s0, mem.words, B, mem.brk, newptr, newptr, newptr + n);
      PayloadStoreHeap(m0, mem.words, B, mem.brk, F, newptr);
      BytesCopied(B, mem.brk, s0, mem.bytes[..], ptr, newptr, n);
    }

    // ---------- The heap checker ----------

    /** A heap whose two views are intact but need not agree: the nodes of the ring are blocks. */
    ghost predicate Walkable()
      reads this, mem, mem.bytes
    {
      Intact() && forall b :: b in F ==> b in B
    }

    /** is_in_free_list. */
    method IsInFreeList(bp: int) returns (found: bool)
      requires Walkable()
      ensures found <==> bp in F
    {
      hide Tiling, Tagged, Coalesced, Ring;
      ghost var i := 0;
      LinkAt(i);
      var current := mem.Get(dummyBlockp + WSIZE);
      while current != dummyBlockp
        invariant 0 <= i <= |F| && current == Node(F, i + 1)
        invariant current == DUMMY <==> i == |F|
        invariant bp !in F[..i]
        decreases |F| - i
      {
        if current == bp {
          return true;
        }
        i := i + 1;
        LinkAt(i);
        current := mem.Get(current + WSIZE);
      }
      assert F[..i] == F;
      return false;
    }

    /** The first loop of check_freelist: is every listed block free, and none of them after a free block? */
    method CheckListed() returns (ok: bool)
      requires Walkable()
      ensures ok <==> forall b :: b in F ==> FreeAlone(B, b)
    {
      hide Tiling, Tagged, Coalesced, Ring, SizeOf, AllocOf, FreeAlone;
      ghost var i := 0;
      LinkAt(i);
      var bp := mem.Get(dummyBlockp + WSIZE);
      while bp != dummyBlockp
        invariant 0 <= i <= |F| && bp == Node(F, i + 1)
        invariant bp == DUMMY <==> i == |F|
        invariant forall b :: b in F[..i] ==> FreeAlone(B, b)
        decreases |F| - i
      {
        assert bp in F;
        BlockTags(mem.words, B, mem.brk, bp);
        var alloc := GetAlloc(bp - WSIZE);
        if alloc != 0 {
          NotFreeAlone(B, bp);
          return false;
        }
        PrevAlloc(mem.words, B, mem.brk, bp);
        var prev := PrevBlkp(bp);
        var prevAlloc := GetAlloc(prev - WSIZE);
        if alloc == 0 && prevAlloc == 0 {
          return false;
        }
        assert F[..i + 1] == F[..i] + [bp];
        i := i + 1;
        LinkAt(i);
        bp := mem.Get(bp + WSIZE);
      }
      assert F[..i] == F;
      return true;
    }

    /** check_freelist: both loops end, and the verdict is positive exactly when every listed block is
        free and follows an allocated one, and every free block is listed. */
    method CheckFreelist() returns (ok: bool)
      requires Walkable()
      ensures ok <==> ListAgrees(B, F)
      ensures ok <==>
                && (forall b :: b in F ==> B[b].free)
                && (forall a, b :: a in B && b in F && a + B[a].size == b ==> !B[a].free)
                && (forall b :: b in B && B[b].free ==> b in F)
    {
      hide Tiling, Tagged, Coalesced, Ring, SizeOf, AllocOf, FreeAlone;
      AgreesMeans(B, mem.brk, F);
      ok := CheckListed();
      if !ok {
        return false;
      }
      var bp := heapListp;
      PrologueFirst(B, mem.brk);
      WalkOn(mem.words, B, mem.brk, bp);
      var size := GetSize(bp - WSIZE);
      while size > 0
        invariant bp in B || bp == mem.brk
        invariant bp in B ==> size == B[bp].size > 0
        invariant bp == mem.brk ==> size == 0
        invariant forall b :: b in B && B[b].free && b < bp ==> b in F
        decreases mem.brk - bp
      {
        WalkOn(mem.words, B, mem.brk, bp);
        BlockTags(mem.words, B, mem.brk, bp);
        NothingBetween(B, mem.brk, bp);
        var alloc := GetAlloc(bp - WSIZE);
        var listed := IsInFreeList(bp);
        if alloc == 0 && !listed {
          return false;
        }
        bp := NextBlkp(bp);
        WalkOn(mem.words, B, mem.brk, bp);
        size := GetSize(bp - WSIZE);
      }
      AllBelow(B, mem.brk);
      return true;
    }

    /** No heap between calls fails the check. */
    lemma ValidPasses()
      requires Valid()
      ensures Walkable() && ListAgrees(B, F)
    {
      forall b | b in F
        ensures FreeAlone(B, b)
      {
        PrevAllocated(B, mem.brk, b);
      }
    }
  }
}
