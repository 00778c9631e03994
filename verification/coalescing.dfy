/** coalesce as a function on the words of the heap, and what it achieves. */
module Coalescing {
  import opened Sequences
  import opened HeapLayout

  lemma ListsAllFree(F: seq<int>, B: Blocks, X: set<int>)
    requires Lists(F, B, X)
    ensures AllFree(F, B)
  {
  }

  /** From lo to hi there is nothing but bp and its free neighbours. */
  lemma Span(B: Blocks, brk: int, bp: int)
    requires Tiling(B, brk) && bp in B && B[bp].free
    ensures HasPrev(B, bp)
    ensures Lo(B, bp) in B && B[Lo(B, bp)].free && DUMMY < Lo(B, bp) <= bp
    ensures bp < bp + B[bp].size <= Hi(B, bp) && (Hi(B, bp) in B || Hi(B, bp) == brk) && HasPrev(B, Hi(B, bp))
    ensures Lo(B, bp) != bp ==> Lo(B, bp) + B[Lo(B, bp)].size == bp
    ensures Hi(B, bp) != bp + B[bp].size ==>
              bp + B[bp].size in B && B[bp + B[bp].size].free
              && Hi(B, bp) == bp + B[bp].size + B[bp + B[bp].size].size
  {
    Ends(B, brk, bp, brk);
    Ends(B, brk, DUMMY, bp);
    Ends(B, brk, bp, DUMMY);
    assert HasPrev(B, bp);
    assert WellSized(B, brk, bp);
    var p := PrevOf(B, bp);
    Ends(B, brk, p, brk);
    Ends(B, brk, DUMMY, p);
    Ends(B, brk, p, DUMMY);
    var next := bp + B[bp].size;
    if next in B && B[next].free {
      assert WellSized(B, brk, next);
      PrevUnique(B, brk, Hi(B, bp), next);
    } else {
      PrevUnique(B, brk, Hi(B, bp), bp);
    }
  }

  /** Every block from lo up to hi is bp or one of its free neighbours. */
  lemma InSpan(B: Blocks, brk: int, bp: int, x: int)
    requires Tiling(B, brk) && bp in B && B[bp].free
    requires x in B && Lo(B, bp) <= x < Hi(B, bp)
    ensures B[x].free
    ensures x == bp || (x == Lo(B, bp) && x != bp) || (x == bp + B[bp].size && Hi(B, bp) != x)
  {
    Span(B, brk, bp);
    var next := bp + B[bp].size;
    Ends(B, brk, x, bp);
    Ends(B, brk, bp, x);
    Ends(B, brk, Lo(B, bp), x);
    if next in B {
      Ends(B, brk, next, x);
      Ends(B, brk, x, next);
    }
  }

  lemma UnlistedStep(m: Words, B: Blocks, brk: int, F: seq<int>, bp: int)
    requires Tiles(m, B, brk) && Ring(m, F) && Lists(F, B, {bp})
    requires bp in B && B[bp].free
    ensures Tiles(UnlistedWords(m, B, bp), B, brk) && Ring(UnlistedWords(m, B, bp), Unlisted(B, F, bp))
    ensures forall b :: b in Unlisted(B, F, bp) <==>
                        b in B && B[b].free && b != bp && b != Lo(B, bp)
                        && (b == bp + B[bp].size ==> Hi(B, bp) == b)
    ensures Kept(B, m, UnlistedWords(m, B, bp))
  {
    Span(B, brk, bp);
    Ends(B, brk, bp, brk);
    var lo, hi, next := Lo(B, bp), Hi(B, bp), bp + B[bp].size;
    var F1 := if lo != bp then Without(F, lo) else F;
    var m1 := if lo != bp then Unlink(m, lo) else m;
    KeptRefl(m, B, brk);
    if lo != bp {
      UnlinkStep(m, B, brk, F, lo);
      WithoutMembers(F, lo);
    }
    if hi != next {
      UnlinkStep(m1, B, brk, F1, next);
      WithoutMembers(F1, next);
      KeptTrans(B, m, m1, Unlink(m1, next));
    }
  }

  lemma FuseSame(B: Blocks, brk: int, bp: int)
    requires Tiling(B, brk) && bp in B && B[bp].free
    ensures Fuse(B, bp, bp + B[bp].size, true) == B
  {
    forall x | x in B
      ensures x <= bp || bp + B[bp].size <= x
    {
      Ends(B, brk, bp, x);
    }
    assert Fuse(B, bp, bp + B[bp].size, true) == B;
  }

  /** What is live before the free blocks from lo to hi are fused is live after. */
  lemma LiveAfterFuse(B: Blocks, a: int, e: int)
    requires a in B && a < e && forall x :: x in B && a <= x < e ==> B[x].free
    ensures forall x, q :: LiveWord(B, x, q) <==> LiveWord(Fuse(B, a, e, true), x, q)
    ensures forall x :: Live(B, x) <==> Live(Fuse(B, a, e, true), x)
  {
  }

  lemma MergedHeap(m: Words, B: Blocks, brk: int, F: seq<int>, bp: int)
    requires Tiles(m, B, brk) && Ring(m, F) && Lists(F, B, {bp})
    requires bp in B && B[bp].free
    ensures Tiles(MergedWords(m, B, bp), Merged(B, bp), brk)
    ensures Ring(MergedWords(m, B, bp), Unlisted(B, F, bp))
    ensures AllFree(Unlisted(B, F, bp), Merged(B, bp)) && Lo(B, bp) !in Unlisted(B, F, bp)
    ensures Kept(B, m, MergedWords(m, B, bp))
  {
    var lo, hi := Lo(B, bp), Hi(B, bp);
    var m2, F2 := UnlistedWords(m, B, bp), Unlisted(B, F, bp);
    Span(B, brk, bp);
    UnlistedStep(m, B, brk, F, bp);
    forall x | x in B && lo <= x < hi
      ensures B[x].free && x !in F2
    {
      InSpan(B, brk, bp, x);
    }
    if lo == bp && hi == bp + B[bp].size {
      FuseSame(B, brk, bp);
    } else {
      FuseStep(m2, B, brk, F2, lo, hi);
      KeptTrans(B, m, m2, PutTags(m2, lo, hi, true));
    }
  }

  lemma CoalesceHeap(m: Words, B: Blocks, brk: int, F: seq<int>, bp: int)
    requires Tiles(m, B, brk) && Ring(m, F) && Lists(F, B, {bp})
    requires bp in B && B[bp].free
    ensures Tiles(CoalesceWords(m, B, bp), Merged(B, bp), brk)
    ensures Ring(CoalesceWords(m, B, bp), [Lo(B, bp)] + Unlisted(B, F, bp))
    ensures Kept(B, m, CoalesceWords(m, B, bp))
  {
    var lo, m3 := Lo(B, bp), MergedWords(m, B, bp);
    Span(B, brk, bp);
    MergedHeap(m, B, brk, F, bp);
    LinkStep(m3, Merged(B, bp), brk, Unlisted(B, F, bp), lo);
    forall x | x in B && lo <= x < Hi(B, bp)
      ensures B[x].free
    {
      InSpan(B, brk, bp, x);
    }
    LiveAfterFuse(B, lo, Hi(B, bp));
    CoalesceKept(B, Merged(B, bp), m, m3, Link(m3, lo));
  }

  lemma CoalesceKept(B: Blocks, B': Blocks, m: Words, m3: Words, m': Words)
    requires Kept(B, m, m3) && Kept(B', m3, m')
    requires forall x, q :: LiveWord(B, x, q) <==> LiveWord(B', x, q)
    ensures Kept(B, m, m')
  {
    forall x, q | LiveWord(B, x, q)
      ensures q in m && q in m' && m'[q] == m[q]
    {
      assert LiveWord(B', x, q);
    }
  }

  lemma CoalesceLists(B: Blocks, brk: int, F: seq<int>, bp: int, F2: seq<int>)
    requires Tiling(B, brk) && bp in B && B[bp].free
    requires forall b :: b in F2 <==>
                         b in B && B[b].free && b != bp && b != Lo(B, bp)
                         && (b == bp + B[bp].size ==> Hi(B, bp) == b)
    ensures Lists([Lo(B, bp)] + F2, Merged(B, bp), {})
  {
    Span(B, brk, bp);
    var lo, hi := Lo(B, bp), Hi(B, bp);
    var B' := Merged(B, bp);
    forall b
      ensures b in [lo] + F2 <==> b in B' && B'[b].free
    {
      if b in B && lo <= b < hi {
        InSpan(B, brk, bp, b);
      }
      if b in F2 && bp <= b {
        Ends(B, brk, bp, b);
      }
      if b in F2 && hi in B && b < hi {
        Ends(B, brk, bp, b);
        Ends(B, brk, b, hi);
      }
      if b in F2 && bp + B[bp].size in B && bp + B[bp].size < b {
        Ends(B, brk, bp + B[bp].size, b);
      }
    }
  }

  lemma CoalesceNeighbours(B: Blocks, brk: int, bp: int)
    requires Tiling(B, brk) && bp in B && B[bp].free && Coalesced(B, bp)
    ensures Coalesced(Merged(B, bp), 0)
  {
    Span(B, brk, bp);
    var lo, hi := Lo(B, bp), Hi(B, bp);
    var B' := Merged(B, bp);
    forall a {:trigger NextFree(B', a)} | a in B' && B'[a].free
      ensures !NextFree(B', a)
    {
      var b := a + B'[a].size;
      if a == lo {
        assert b == hi;
        assert !NextFree(B, bp) || !NextFree(B, bp + B[bp].size);
      } else if b == lo {
        PrevUnique(B, brk, lo, a);
        var both := NextFree(B, a);
        assert false;
      } else {
        assert lo <= bp < hi && a != bp && (b in B' ==> b != bp);
        assert b in B' ==> !NextFree(B, a);
      }
    }
  }

  /** coalesce, entered with the free block bp still unlisted, completes the heap invariant. */
  lemma CoalesceCorrect(m: Words, B: Blocks, brk: int, F: seq<int>, bp: int)
    requires Tiles(m, B, brk) && Ring(m, F) && Lists(F, B, {bp})
    requires bp in B && B[bp].free && Coalesced(B, bp)
    ensures Tiles(CoalesceWords(m, B, bp), Merged(B, bp), brk)
    ensures Ring(CoalesceWords(m, B, bp), [Lo(B, bp)] + Unlisted(B, F, bp))
    ensures Lists([Lo(B, bp)] + Unlisted(B, F, bp), Merged(B, bp), {})
    ensures Coalesced(Merged(B, bp), 0)
    ensures Kept(B, m, CoalesceWords(m, B, bp))
  {
    CoalesceHeap(m, B, brk, F, bp);
    UnlistedStep(m, B, brk, F, bp);
    CoalesceLists(B, brk, F, bp, Unlisted(B, F, bp));
    CoalesceNeighbours(B, brk, bp);
  }

  /** Every listed block has room for its links below the break. */
  lemma ListedInHeap(B: Blocks, brk: int, F: seq<int>)
    requires Tiling(B, brk) && AllFree(F, B)
    ensures DUMMY + 8 <= brk && forall b :: b in F ==> DUMMY < b && b + 8 <= brk && b % 8 == 0
  {
    Ends(B, brk, DUMMY, brk);
    forall b | b in F
      ensures DUMMY < b && b + 8 <= brk && b % 8 == 0
    {
      Ends(B, brk, b, brk);
      Ends(B, brk, DUMMY, b);
      Ends(B, brk, b, DUMMY);
    }
  }

  /** A free block can be given links. */
  lemma FreeBlockRoom(m: Words, B: Blocks, brk: int, b: int)
    requires Tiles(m, B, brk) && b in B && B[b].free
    ensures b in m && b + 4 in m && b % 8 == 0 && DUMMY < b && b + 8 <= brk
  {
    ListedInHeap(B, brk, [b]);
    assert b in [b];
    BlockLinks(m, B, brk, b);
  }

  /** The tags that coalesce reads before bp: is the block there free? */
  lemma PrevNeighbour(m: Words, B: Blocks, brk: int, bp: int)
    requires Tiles(m, B, brk) && bp in B && B[bp].free
    ensures bp - 4 in m && bp - 8 in m && bp <= brk
    ensures var prev := bp - SizeOf(m[bp - 8]);
            && prev < bp
            && prev - 4 in m && prev + SizeOf(m[prev - 4]) == bp
            && Lo(B, bp) == (if AllocOf(m[bp - 8]) == 1 then bp else prev)
  {
    BlockTags(m, B, brk, bp);
    Span(B, brk, bp);
    PrevTags(m, B, brk, bp);
    BlockTags(m, B, brk, PrevOf(B, bp));
  }

  /** The tags that coalesce reads after bp. */
  lemma NextNeighbour(m: Words, B: Blocks, brk: int, bp: int)
    requires Tiles(m, B, brk) && bp in B && B[bp].free
    ensures bp - 4 in m && SizeOf(m[bp - 4]) == B[bp].size
    ensures var next := bp + B[bp].size;
            && next <= brk && next - 4 in m
            && Hi(B, bp) == (if AllocOf(m[next - 4]) == 1 then next else next + SizeOf(m[next - 4]))
            && (AllocOf(m[next - 4]) != 1 ==> next in B && B[next].free && SizeOf(m[next - 4]) == B[next].size > 0)
  {
    BlockTags(m, B, brk, bp);
    assert WellSized(B, brk, bp);
    if bp + B[bp].size in B {
      BlockTags(m, B, brk, bp + B[bp].size);
    }
  }

  /** The merged block's tags lie in the heap. */
  lemma MergeRoom(m: Words, B: Blocks, brk: int, bp: int)
    requires Tiles(m, B, brk) && bp in B && B[bp].free
    ensures Lo(B, bp) - 4 in m && Hi(B, bp) - 8 in m
    ensures (Hi(B, bp) - Lo(B, bp)) % 8 == 0 && 8 <= Hi(B, bp) - Lo(B, bp)
    ensures 4 <= Lo(B, bp) && Hi(B, bp) <= brk
  {
    Span(B, brk, bp);
    BlockTags(m, B, brk, bp);
    Ends(B, brk, Lo(B, bp), Hi(B, bp));
    DifferenceOfMultiples(Hi(B, bp), Lo(B, bp));
    BlockTags(m, B, brk, Lo(B, bp));
    PrevTags(m, B, brk, Hi(B, bp));
  }

  lemma DifferenceOfMultiples(x: int, y: int)
    requires x % 8 == 0 && y % 8 == 0
    ensures (x - y) % 8 == 0
  {
  }

  // What coalesce writes, case by case.

  lemma MergedNone(m: Words, B: Blocks, F: seq<int>, bp: int)
    requires bp in B && Lo(B, bp) == bp && Hi(B, bp) == bp + B[bp].size
    ensures MergedWords(m, B, bp) == m && Unlisted(B, F, bp) == F
  {
  }

  lemma MergedNext(m: Words, B: Blocks, brk: int, F: seq<int>, bp: int, size: int)
    requires Tiling(B, brk) && Lists(F, B, {bp}) && bp in B && B[bp].free
    requires Lo(B, bp) == bp && Hi(B, bp) == bp + size != bp + B[bp].size
    ensures bp + B[bp].size in F
    ensures MergedWords(m, B, bp) == PutTags(Unlink(m, bp + B[bp].size), bp, bp + size, true)
    ensures Unlisted(B, F, bp) == Without(F, bp + B[bp].size)
  {
    Span(B, brk, bp);
  }

  lemma MergedPrev(m: Words, B: Blocks, brk: int, F: seq<int>, bp: int, lo: int, size: int)
    requires Tiling(B, brk) && Lists(F, B, {bp}) && bp in B && B[bp].free
    requires Lo(B, bp) == lo != bp && Hi(B, bp) == lo + size == bp + B[bp].size
    ensures lo in F
    ensures MergedWords(m, B, bp) == PutTags(Unlink(m, lo), lo, lo + size, true)
    ensures Unlisted(B, F, bp) == Without(F, lo)
  {
    Span(B, brk, bp);
  }

  lemma MergedBoth(m: Words, B: Blocks, brk: int, F: seq<int>, bp: int, lo: int, size: int)
    requires Tiling(B, brk) && Lists(F, B, {bp}) && bp in B && B[bp].free
    requires Lo(B, bp) == lo != bp && Hi(B, bp) == lo + size != bp + B[bp].size
    ensures lo in F && bp + B[bp].size in F && lo < bp + B[bp].size
    ensures MergedWords(m, B, bp) == PutTags(Unlink(Unlink(m, lo), bp + B[bp].size), lo, lo + size, true)
    ensures Unlisted(B, F, bp) == Without(Without(F, lo), bp + B[bp].size)
  {
    Span(B, brk, bp);
  }

  /** In a coalesced heap the block before a free block is allocated. */
  lemma PrevAllocated(B: Blocks, brk: int, bp: int)
    requires Tiling(B, brk) && Coalesced(B, 0) && bp in B && B[bp].free
    ensures HasPrev(B, bp) && !B[PrevOf(B, bp)].free
  {
    Span(B, brk, bp);
    var p := PrevOf(B, bp);
    Ends(B, brk, p, brk);
    assert NextFree(B, p);
  }

  // ---------- What check_freelist checks ----------

  /** Block b is free and the block before it is allocated. */
  ghost predicate FreeAlone(B: Blocks, b: int) {
    b in B && B[b].free && HasPrev(B, b) && !B[PrevOf(B, b)].free
  }

  /** The listed blocks are free, each after an allocated one, and no free block is missing. */
  ghost predicate ListAgrees(B: Blocks, F: seq<int>) {
    && (forall b :: b in F ==> FreeAlone(B, b))
    && (forall b :: b in B && B[b].free ==> b in F)
  }

  lemma AgreesMeans(B: Blocks, brk: int, F: seq<int>)
    requires Tiling(B, brk) && forall b :: b in F ==> b in B
    ensures ListAgrees(B, F) <==>
              && (forall b :: b in F ==> B[b].free)
              && (forall a, b :: a in B && b in F && a + B[a].size == b ==> !B[a].free)
              && (forall b :: b in B && B[b].free ==> b in F)
  {
    forall b | b in F
      ensures FreeAlone(B, b) <==> B[b].free && forall a :: a in B && a + B[a].size == b ==> !B[a].free
    {
      AloneMeans(B, brk, b);
    }
  }

  lemma AloneMeans(B: Blocks, brk: int, b: int)
    requires Tiling(B, brk) && b in B
    ensures FreeAlone(B, b) <==> B[b].free && forall a :: a in B && a + B[a].size == b ==> !B[a].free
  {
    if B[b].free {
      Span(B, brk, b);
      forall a | a in B && a + B[a].size == b
        ensures a == PrevOf(B, b)
      {
        PrevUnique(B, brk, b, a);
      }
    }
  }

  lemma NotFreeAlone(B: Blocks, b: int)
    requires b in B && !B[b].free
    ensures !FreeAlone(B, b)
  {
  }

  /** HDRP of PREV_BLKP of a free block holds the allocation bit of the block before. */
  lemma PrevAlloc(m: Words, B: Blocks, brk: int, b: int)
    requires Tiles(m, B, brk) && b in B && B[b].free
    ensures b - 8 in m && b <= brk
    ensures var prev := b - SizeOf(m[b - 8]);
            prev - 4 in m && prev <= brk && (AllocOf(m[prev - 4]) == 0 <==> !FreeAlone(B, b))
  {
    Span(B, brk, b);
    Ends(B, brk, b, brk);
    PrevTags(m, B, brk, b);
    BlockTags(m, B, brk, PrevOf(B, b));
  }

  /** The prologue is the first block. */
  lemma PrologueFirst(B: Blocks, brk: int)
    requires Tiling(B, brk)
    ensures PROLOGUE in B && forall b :: b in B ==> PROLOGUE <= b
  {
    forall b | b in B
      ensures PROLOGUE <= b
    {
      Ends(B, brk, b, brk);
    }
  }

  /** No block starts inside another. */
  lemma NothingBetween(B: Blocks, brk: int, x: int)
    requires Tiling(B, brk) && x in B
    ensures forall b :: b in B && b < x + B[x].size ==> b <= x
  {
    forall b | b in B && x < b
      ensures x + B[x].size <= b
    {
      Ends(B, brk, x, b);
    }
  }

  lemma AllBelow(B: Blocks, brk: int)
    requires Tiling(B, brk)
    ensures forall b :: b in B ==> b < brk
  {
    forall b | b in B
      ensures b < brk
    {
      Ends(B, brk, b, brk);
    }
  }

  /** HDRP of a block, or of the end of the heap, holds the size with which a walk continues. */
  lemma WalkOn(m: Words, B: Blocks, brk: int, bp: int)
    requires Tiles(m, B, brk) && (bp in B || bp == brk)
    ensures bp <= brk && bp - 4 in m
    ensures bp in B ==> SizeOf(m[bp - 4]) == B[bp].size > 0 && (bp + B[bp].size in B || bp + B[bp].size == brk)
    ensures bp == brk ==> bp !in B && SizeOf(m[bp - 4]) == 0
  {
    if bp in B {
      BlockTags(m, B, brk, bp);
      assert WellSized(B, brk, bp);
    }
  }
}
