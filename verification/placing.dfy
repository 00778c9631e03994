/** place, extend_heap and find_fit as functions on blocks and lists, and what they achieve. */
module Placing {
  import opened MemLib
  import opened Sequences
  import opened HeapLayout
  import opened Coalescing

  // ---------- place ----------

  /** The blocks after size bytes of the free block x have been taken. */
  ghost function Placed(B: Blocks, x: int, size: int): Blocks
    requires x in B
  {
    if B[x].size - size >= 16 then Split(B, x, size) else B[x := Block(B[x].size, false)]
  }

  ghost function PlacedList(B: Blocks, F: seq<int>, x: int, size: int): seq<int>
    requires x in B
  {
    if B[x].size - size >= 16 then [x + size] + Without(F, x) else Without(F, x)
  }

  /** Before place coalesces the rest of a split, nothing is missing but its listing. */
  lemma SplitCorrect(m: Words, B: Blocks, brk: int, F: seq<int>, x: int, size: int)
    requires Tiles(m, B, brk) && Ring(m, F) && Lists(F, B, {}) && Coalesced(B, 0)
    requires Splittable(B, x, size) && x in F
    ensures var B', m', F' := Split(B, x, size), SplitWords(m, x, size, x + B[x].size), Without(F, x);
            && Tiles(m', B', brk) && Ring(m', F') && Lists(F', B', {x + size}) && Coalesced(B', x + size)
            && Kept(B, m, m')
  {
    SplitTiles(m, B, brk, F, x, size);
    SplitRing(m, B, brk, F, x, size);
    SplitKept(m, B, brk, F, x, size);
    SplitLists(B, brk, F, x, size);
    SplitCoalesced(B, brk, x, size);
  }

  lemma SplitLists(B: Blocks, brk: int, F: seq<int>, x: int, size: int)
    requires Tiling(B, brk) && Lists(F, B, {}) && Distinct(F)
    requires Splittable(B, x, size) && x in F
    ensures Lists(Without(F, x), Split(B, x, size), {x + size})
  {
    WithoutMembers(F, x);
    if x + size in B {
      Ends(B, brk, x, x + size);
    }
  }

  lemma SplitCoalesced(B: Blocks, brk: int, x: int, size: int)
    requires Tiling(B, brk) && Coalesced(B, 0) && Splittable(B, x, size)
    ensures Coalesced(Split(B, x, size), x + size)
  {
    var B' := Split(B, x, size);
    forall a {:trigger NextFree(B', a)} | a in B' && B'[a].free && a != x + size && a + B'[a].size != x + size
      ensures !NextFree(B', a)
    {
      if a in B {
        Ends(B, brk, a, brk);
      }
      var before := NextFree(B, a);
    }
  }

  /** The rest of a split has no free neighbour: coalesce only lists it. */
  lemma RestAlone(B: Blocks, brk: int, F: seq<int>, x: int, size: int)
    requires Tiling(B, brk) && Coalesced(B, 0) && Splittable(B, x, size) && B[x].free
    ensures var B', r := Split(B, x, size), x + size;
            && x + size !in B && Lo(B', r) == r && Hi(B', r) == x + B[x].size
            && Merged(B', r) == B' && Unlisted(B', Without(F, x), r) == Without(F, x)
  {
    SplitTiling(B, brk, x, size);
    var B', r := Split(B, x, size), x + size;
    PrevUnique(B', brk, r, x);
    if r in B {
      Ends(B, brk, x, r);
    }
    var e := x + B[x].size;
    assert !NextFree(B, x);
    assert e in B' ==> e in B && !B'[e].free;
    assert Hi(B', r) == e;
    FuseSame(B', brk, r);
  }

  lemma SplitNext(m: Words, B: Blocks, brk: int, F: seq<int>, x: int, size: int)
    requires Tiles(m, B, brk) && AllFree(F, B) && Ring(m, F)
    requires Splittable(B, x, size) && x in F
    ensures var m1 := PutTags(m, x, x + size, false);
            && Ring(m1, F) && x - 4 in Unlink(m1, x) && SizeOf(Unlink(m1, x)[x - 4]) == size
            && x + size - 4 in Unlink(m1, x) && x + B[x].size - 8 in Unlink(m1, x)
            && x + size - 8 in m
  {
    hide SizeOf, Tag, Tiling, Ring;
    SplitLinks(m, B, brk, F, x, size);
    BlockTags(m, B, brk, x);
    NotLink(B, brk, F, x, x - 4);
    TagSize(Block(size, false));
    SplitWordsBacked(m, B, brk, x, size);
  }

  lemma SplitWordsBacked(m: Words, B: Blocks, brk: int, x: int, size: int)
    requires Tiles(m, B, brk) && Splittable(B, x, size)
    ensures x + size - 4 in m && x + size - 8 in m
  {
    Ends(B, brk, x, brk);
    SumOfMultiples(x, size);
    assert WordAddress(x + size - 4, brk) && WordAddress(x + size - 8, brk);
  }

  lemma SumOfMultiples(x: int, y: int)
    requires x % 8 == 0 && y % 8 == 0
    ensures (x + y - 4) % 4 == 0 && (x + y - 8) % 4 == 0
  {
    var a, b := x / 8, y / 8;
    assert x + y - 4 == 4 * (2 * a + 2 * b - 1) && x + y - 8 == 4 * (2 * a + 2 * b - 2);
  }

  lemma WholeTiles(m: Words, B: Blocks, brk: int, F: seq<int>, x: int)
    requires Tiles(m, B, brk) && Ring(m, F) && AllFree(F, B) && x in F
    ensures var m1 := PutTags(m, x, x + B[x].size, false);
            && Tiles(m1, B[x := Block(B[x].size, false)], brk) && Ring(m1, F) && Kept(B, m, m1)
  {
    BlockTags(m, B, brk, x);
    FreeBlockRoom(m, B, brk, x);
    var e := x + B[x].size;
    assert WellSized(B, brk, x);
    FuseSame(B, brk, x);
    assert Fuse(B, x, e, false) == B[x := Block(B[x].size, false)] by {
      assert Fuse(B, x, e, false) == Fuse(B, x, e, true)[x := Block(e - x, false)];
    }
    FuseTiles(m, B, brk, x, e, false);
    TagsNotLinks(B, brk, F, x);
    RingFrame(m, PutTags(m, x, e, false), F);
    var t := Tag(Block(e - x, false));
    PutKept(m, B, brk, x, x - 4, t);
    PutKept(m[x - 4 := t], B, brk, x, e - 8, t);
    KeptTrans(B, m, m[x - 4 := t], PutTags(m, x, e, false));
  }

  lemma WholeCorrect(m: Words, B: Blocks, brk: int, F: seq<int>, x: int)
    requires Tiles(m, B, brk) && Ring(m, F) && Lists(F, B, {}) && Coalesced(B, 0) && x in F
    ensures var B', m1 := B[x := Block(B[x].size, false)], PutTags(m, x, x + B[x].size, false);
            && Ring(m1, F)
            && Tiles(Unlink(m1, x), B', brk) && Ring(Unlink(m1, x), Without(F, x))
            && Lists(Without(F, x), B', {}) && Coalesced(B', 0)
            && Kept(B, m, Unlink(m1, x))
  {
    var B', m1 := B[x := Block(B[x].size, false)], PutTags(m, x, x + B[x].size, false);
    WholeTiles(m, B, brk, F, x);
    UnlinkListed(m1, F, x);
    WithoutMembers(F, x);
    LinksOnlyTiles(m1, Unlink(m1, x), B', brk, Without(F, x));
    LinksOnlyKept(m1, Unlink(m1, x), B, brk, F);
    KeptTrans(B, m, m1, Unlink(m1, x));
    WholeCoalesced(B, brk, x);
  }

  lemma WholeCoalesced(B: Blocks, brk: int, x: int)
    requires Tiling(B, brk) && Coalesced(B, 0) && x in B
    ensures Coalesced(B[x := Block(B[x].size, false)], 0)
  {
    var B' := B[x := Block(B[x].size, false)];
    forall a {:trigger NextFree(B', a)} | a in B' && B'[a].free
      ensures !NextFree(B', a)
    {
      if a in B {
        Ends(B, brk, a, brk);
      }
      var before := NextFree(B, a);
    }
  }

  // ---------- extend_heap ----------

  /** The size that extend_heap asks for: an even number of words. */
  function EvenBytes(words: int): (size: int)
    ensures size % 8 == 0 && words * WSIZE <= size <= words * WSIZE + 4
  {
    if words % 2 == 1 then (words + 1) * WSIZE else words * WSIZE
  }

  lemma BackedByBuffer(m: Words, s: seq<Byte>, brk: int)
    requires Coherent(m, s) && brk <= |s|
    ensures Backed(m, brk)
  {
    forall p {:trigger WordAddress(p, brk)} | WordAddress(p, brk)
      ensures p in m
    {
      assert WordAddress(p, |s|);
    }
  }

  /** The blocks after the heap has grown by size bytes, before coalescing. */
  ghost function Extended(B: Blocks, brk: int, size: int): Blocks {
    B[brk := Block(size, true)]
  }

  lemma ExtendCorrect(m: Words, B: Blocks, brk: int, F: seq<int>, size: int)
    requires Tiles(m, B, brk) && Ring(m, F) && Lists(F, B, {}) && Coalesced(B, 0)
    requires Backed(m, brk + size) && size % 8 == 0 && size >= 16
    ensures var B', m' := Extended(B, brk, size), ExtendWords(m, brk, size);
            && Tiles(m', B', brk + size) && Ring(m', F) && Lists(F, B', {brk}) && Coalesced(B', brk)
            && Kept(B, m, m') && brk !in B
            && brk - 4 in m && brk + size - 8 in m && brk + size - 4 in m && 32 <= brk && brk % 8 == 0
            && SizeOf(PutTags(m, brk, brk + size, true)[brk - 4]) == size
  {
    hide Ring, Coalesced, Kept, SizeOf;
    Ends(B, brk, DUMMY, brk);
    assert WordAddress(brk + size - 4, brk + size) && WordAddress(brk + size - 8, brk + size);
    TagSize(Block(size, true));
    ExtendTiles(m, B, brk, size);
    ExtendKeeps(m, B, brk, F, size);
    ExtendCoalesced(B, brk, size);
  }

  lemma ExtendCoalesced(B: Blocks, brk: int, size: int)
    requires Tiling(B, brk) && Coalesced(B, 0)
    ensures brk !in B && Coalesced(Extended(B, brk, size), brk)
  {
    if brk in B {
      Ends(B, brk, brk, brk);
    }
    var B' := Extended(B, brk, size);
    forall a {:trigger NextFree(B', a)} | a in B' && B'[a].free && a != brk && a + B'[a].size != brk
      ensures !NextFree(B', a)
    {
      Ends(B, brk, a, brk);
      var before := NextFree(B, a);
    }
  }

  // ---------- find_fit ----------

  /** The first block of the list that holds size bytes, tags included; 0 when there is none. */
  ghost function FirstFit(B: Blocks, F: seq<int>, size: int): int {
    if F == [] then 0 else if F[0] in B && size <= B[F[0]].size then F[0] else FirstFit(B, F[1..], size)
  }

  lemma {:induction false} FirstFitFrom(B: Blocks, F: seq<int>, size: int, i: int)
    requires 0 <= i <= |F| && forall j :: 0 <= j < i ==> F[j] in B && B[F[j]].size < size
    ensures FirstFit(B, F, size) == FirstFit(B, F[i..], size)
  {
    if i > 0 {
      FirstFitFrom(B, F[1..], size, i - 1);
      assert F[1..][i - 1..] == F[i..];
    }
  }

  /** Where first fit stops. */
  lemma {:induction false} FirstFitStops(B: Blocks, F: seq<int>, size: int) returns (i: nat)
    requires forall b :: b in F ==> b in B
    ensures i <= |F| && forall j :: 0 <= j < i ==> F[j] in B && B[F[j]].size < size
    ensures i < |F| ==> F[i] in B && size <= B[F[i]].size
    ensures FirstFit(B, F, size) == if i < |F| then F[i] else 0
  {
    i := 0;
    if F != [] {
      var first := F[0];
      assert first in F;
      if B[first].size < size {
        i := FirstFitStops(B, F[1..], size);
        assert forall j :: 0 < j < |F| ==> F[j] == F[1..][j - 1];
        i := i + 1;
      }
    }
  }

  /** First fit fails exactly when every listed block is too small, and else finds the first that is not. */
  lemma FirstFitMeans(B: Blocks, F: seq<int>, size: int)
    requires 0 !in F && forall b :: b in F ==> b in B
    ensures FirstFit(B, F, size) == 0 <==> forall b :: b in F ==> B[b].size < size
    ensures FirstFit(B, F, size) != 0 ==>
              exists i :: 0 <= i < |F| && F[i] == FirstFit(B, F, size) && F[i] in B && size <= B[F[i]].size
                          && forall j :: 0 <= j < i ==> F[j] in B && B[F[j]].size < size
  {
    hide FirstFit;
    var i := FirstFitStops(B, F, size);
  }

  /** The same in terms of all free blocks, which are those of the list. */
  lemma FirstFitFree(B: Blocks, F: seq<int>, size: int)
    requires 0 !in F && Lists(F, B, {})
    ensures FirstFit(B, F, size) == 0 <==> forall b :: b in B && B[b].free ==> B[b].size < size
    ensures FirstFit(B, F, size) != 0 ==>
              exists i :: 0 <= i < |F| && F[i] == FirstFit(B, F, size) && F[i] in B && size <= B[F[i]].size
                          && forall j :: 0 <= j < i ==> F[j] in B && B[F[j]].size < size
  {
    FirstFitMeans(B, F, size);
  }

  // ---------- Payload bytes ----------

  /** The bytes of the payloads that B calls live, as buffer s has them. */
  ghost function Payloads(B: Blocks, s: seq<Byte>): map<int, seq<Byte>> {
    map x | x in B && Live(B, x) && 0 <= x <= x + B[x].size - 8 <= |s| :: s[x..x + B[x].size - 8]
  }

  ghost function WithByte(s: seq<Byte>, k: nat, v: Byte): seq<Byte>
    requires k < |s|
  {
    s[..k] + [v] + s[k + 1..]
  }

  lemma PayloadBounds(B: Blocks, brk: int, x: int)
    requires Tiling(B, brk) && Live(B, x)
    ensures DUMMY < x < x + B[x].size - 8 <= brk
    ensures x % 4 == 0 && (x + B[x].size - 8) % 4 == 0
  {
    Ends(B, brk, x, brk);
    SumOfMultiples(x, B[x].size);
  }

  /** When the words of a live payload are kept, so are its bytes. */
  lemma PayloadKept(B: Blocks, brk: int, m: Words, s: seq<Byte>, m': Words, s': seq<Byte>, x: int)
    requires Tiling(B, brk) && Live(B, x) && brk <= |s| == |s'|
    requires Coherent(m, s) && Coherent(m', s')
    requires forall q :: LiveWord(B, x, q) ==> q in m && q in m' && m'[q] == m[q]
    ensures x + B[x].size - 8 <= |s|
    ensures 0 <= x <= x + B[x].size - 8
    ensures s[x..x + B[x].size - 8] == s'[x..x + B[x].size - 8]
  {
    hide WordAt, Tiling;
    PayloadBounds(B, brk, x);
    forall q | x <= q < x + B[x].size - 8 && q % 4 == 0
      ensures q + 4 <= |s| && WordAt(s, q) == WordAt(s', q)
    {
      assert LiveWord(B, x, q);
      assert WordIs(m, s, q) && WordIs(m', s', q);
    }
    WordsDetermineBytes(s, s', x, x + B[x].size - 8);
  }

  /** What was live before the heap grew is live after. */
  lemma ExtendKeptOn(B: Blocks, brk: int, size: int, m: Words, m': Words, m'': Words)
    requires brk !in B
    requires Kept(B, m, m') && Kept(Extended(B, brk, size), m', m'')
    ensures Kept(B, m, m'')
  {
    forall y, q | LiveWord(B, y, q)
      ensures q in m && q in m'' && m''[q] == m[q]
    {
      assert LiveWord(Extended(B, brk, size), y, q);
    }
  }

  /** Payloads that are kept while a split's rest is coalesced are kept throughout. */
  lemma SplitKeptOn(B: Blocks, x: int, size: int, m: Words, m': Words, m'': Words)
    requires x in B && B[x].free && x + size !in B
    requires Kept(B, m, m') && Kept(Split(B, x, size), m', m'')
    ensures Kept(B, m, m'')
  {
    forall y, q | LiveWord(B, y, q)
      ensures q in m && q in m'' && m''[q] == m[q]
    {
      assert LiveWord(Split(B, x, size), y, q);
    }
  }

  // ---------- mm_free, before it coalesces ----------

  ghost function Freed(B: Blocks, x: int): Blocks
    requires x in B
  {
    B[x := Block(B[x].size, true)]
  }

  lemma FreeCorrect(m: Words, B: Blocks, brk: int, F: seq<int>, x: int)
    requires Tiles(m, B, brk) && Ring(m, F) && Lists(F, B, {}) && Coalesced(B, 0) && Live(B, x)
    ensures var B', m' := Freed(B, x), PutTags(m, x, x + B[x].size, true);
            && Tiles(m', B', brk) && Ring(m', F) && Lists(F, B', {x}) && Coalesced(B', x)
            && Kept(B', m, m')
  {
    FreeTiles(m, B, brk, x);
    TagsNotLinks(B, brk, F, x);
    RingFrame(m, PutTags(m, x, x + B[x].size, true), F);
    FreeKept(m, B, brk, x);
    var B' := Freed(B, x);
    forall a {:trigger NextFree(B', a)} | a in B' && B'[a].free && a != x && a + B'[a].size != x
      ensures !NextFree(B', a)
    {
      Ends(B, brk, a, brk);
      var before := NextFree(B, a);
    }
  }

  lemma FreeTiles(m: Words, B: Blocks, brk: int, x: int)
    requires Tiles(m, B, brk) && Live(B, x)
    ensures Tiles(PutTags(m, x, x + B[x].size, true), Freed(B, x), brk)
  {
    var e := x + B[x].size;
    BlockTags(m, B, brk, x);
    assert WellSized(B, brk, x);
    forall y | y in B
      ensures y <= x || e <= y
    {
      Ends(B, brk, x, y);
    }
    assert Fuse(B, x, e, true) == Freed(B, x);
    FuseTiles(m, B, brk, x, e, true);
  }

  lemma FreeKept(m: Words, B: Blocks, brk: int, x: int)
    requires Tiles(m, B, brk) && Live(B, x)
    ensures Kept(Freed(B, x), m, PutTags(m, x, x + B[x].size, true))
  {
    var B', e := Freed(B, x), x + B[x].size;
    BlockTags(m, B, brk, x);
    FreeTiles(m, B, brk, x);
    var t := Tag(Block(e - x, true));
    PutKept(m, B', brk, x, x - 4, t);
    PutKept(m[x - 4 := t], B', brk, x, e - 8, t);
    KeptTrans(B', m, m[x - 4 := t], PutTags(m, x, e, true));
  }

  /** Freeing x puts the block that x has become part of first, and takes its free neighbours off the list. */
  lemma FreedList(B: Blocks, brk: int, F: seq<int>, x: int)
    requires Tiling(B, brk) && Lists(F, B, {}) && Live(B, x)
    ensures var B1 := Freed(B, x);
            var lo := Lo(B1, x);
            && Unlisted(B1, F, x) == Without(Without(F, lo), x + B[x].size)
            && lo in Merged(B1, x) && lo <= x < lo + Merged(B1, x)[lo].size
  {
    hide Tiling, Lo, Hi, HasPrev, Unlisted;
    FreedTiling(B, brk, x);
    var B1 := Freed(B, x);
    Span(B1, brk, x);
    assert Lists(F, B1, {x});
    UnlistedBoth(B1, brk, F, x);
  }

  lemma UnlistedBoth(B: Blocks, brk: int, F: seq<int>, x: int)
    requires Tiling(B, brk) && Lists(F, B, {x}) && x in B && B[x].free
    ensures Unlisted(B, F, x) == Without(Without(F, Lo(B, x)), x + B[x].size)
  {
    hide Tiling, Tiles, Lo, HasPrev;
    var lo, next := Lo(B, x), x + B[x].size;
    if lo == x {
      WithoutAbsent(F, x);
    }
    if Hi(B, x) == next {
      if next in B {
        Ends(B, brk, next, brk);
      }
      WithoutSubset(F, lo, next);
      WithoutAbsent(Without(F, lo), next);
    }
  }

  lemma FreedTiling(B: Blocks, brk: int, x: int)
    requires Tiling(B, brk) && Live(B, x)
    ensures Tiling(Freed(B, x), brk)
  {
    var e := x + B[x].size;
    assert WellSized(B, brk, x);
    forall y | y in B
      ensures y <= x || e <= y
    {
      Ends(B, brk, x, y);
    }
    assert Fuse(B, x, e, true) == Freed(B, x);
    FuseTiling(B, brk, x, e, true);
  }

  // ---------- mm_init, before it extends ----------

  const EMPTY_HEAP: Blocks := map[PROLOGUE := Block(8, false), DUMMY := Block(16, false)]

  lemma FirstWords(m: Words, s: seq<Byte>)
    requires Coherent(m, s) && 32 <= |s|
    ensures m.Keys >= {0, 4, 8, 12, 16, 20, 24, 28}
  {
    assert WordAddress(0, |s|) && WordAddress(4, |s|) && WordAddress(8, |s|) && WordAddress(12, |s|);
    assert WordAddress(16, |s|) && WordAddress(20, |s|) && WordAddress(24, |s|) && WordAddress(28, |s|);
  }

  lemma InitTiles(m: Words)
    requires Backed(m, 32) && m.Keys >= {4, 8, 12, 16, 20, 24, 28}
    requires m[4] == 9 && m[8] == 9 && m[12] == 17 && m[16] == DUMMY && m[20] == DUMMY && m[24] == 17 && m[28] == 1
    ensures Tiles(m, EMPTY_HEAP, 32) && Ring(m, []) && Lists([], EMPTY_HEAP, {}) && Coalesced(EMPTY_HEAP, 0)
  {
    assert HasPrev(EMPTY_HEAP, 16) by {
      assert PROLOGUE in EMPTY_HEAP && PROLOGUE + EMPTY_HEAP[PROLOGUE].size == 16;
    }
    assert HasPrev(EMPTY_HEAP, 32) by {
      assert DUMMY in EMPTY_HEAP && DUMMY + EMPTY_HEAP[DUMMY].size == 32;
    }
    assert Linked(m, [], 0);
  }

  /** The first extension coalesces with nothing, and no block is live yet. */
  lemma InitGrown(size: int, s: seq<Byte>)
    requires Tiling(EMPTY_HEAP, 32) && size % 8 == 0 && size >= 16
    ensures var B := Extended(EMPTY_HEAP, 32, size);
            Lo(B, 32) == 32 && Merged(B, 32) == B && Unlisted(B, [], 32) == [] && Payloads(B, s) == map[]
  {
    var B := Extended(EMPTY_HEAP, 32, size);
    ExtendTiling(EMPTY_HEAP, 32, size);
    PrevUnique(B, 32 + size, 32, DUMMY);
    assert Hi(B, 32) == 32 + size;
    FuseSame(B, 32 + size, 32);
  }

  // ---------- mm_malloc ----------

  /** The block size that mm_malloc looks for. */
  function AdjustedSize(size: nat): (asize: int)
    ensures asize % 8 == 0 && asize >= 16
    ensures size + 8 <= asize
    ensures asize == 16 || asize < size + 16
  {
    if size <= DSIZE then 2 * DSIZE else DSIZE * ((size + DSIZE + (DSIZE - 1)) / DSIZE)
  }

  const CHUNKSIZE := 4096

  /** The size by which mm_malloc extends the heap when nothing fits. */
  function ExtendSize(asize: int): (size: int)
    ensures size >= asize && size >= CHUNKSIZE && (size == asize || size == CHUNKSIZE)
  {
    if asize > CHUNKSIZE then asize else CHUNKSIZE
  }

  /** Taking bytes of x makes x live and changes no other live block. */
  lemma PlacedLive(B: Blocks, brk: int, x: int, size: int)
    requires Tiling(B, brk) && x in B && B[x].free && x > DUMMY && size % 8 == 0 && 16 <= size <= B[x].size
    ensures Live(Placed(B, x, size), x) && !Live(B, x)
    ensures size <= Placed(B, x, size)[x].size <= size + 8
    ensures forall y :: Live(Placed(B, x, size), y) && y != x <==> Live(B, y)
    ensures forall y :: Live(B, y) ==> Placed(B, x, size)[y] == B[y]
  {
    Ends(B, brk, x, brk);
    DifferenceOfMultiples(B[x].size, size);
    if x + size in B {
      Ends(B, brk, x, x + size);
    }
  }

  /** Growing and coalescing the heap changes no live block. */
  lemma GrownLive(B: Blocks, brk: int, size: int)
    requires Tiling(B, brk) && size % 8 == 0 && size >= 16
    ensures var B1 := Extended(B, brk, size); var B2 := Merged(B1, brk);
            && brk !in B
            && (forall y :: Live(B2, y) <==> Live(B, y))
            && (forall y :: Live(B, y) ==> B2[y] == B[y])
            && Lo(B1, brk) in B2 && B2[Lo(B1, brk)].free && size <= B2[Lo(B1, brk)].size && Lo(B1, brk) > DUMMY
  {
    ExtendTiling(B, brk, size);
    Ends(B, brk, DUMMY, brk);
    var B1 := Extended(B, brk, size);
    assert brk !in B by {
      if brk in B {
        Ends(B, brk, brk, brk);
      }
    }
    MergedLive(B1, brk + size, brk);
  }

  lemma MergedLive(B: Blocks, brk: int, bp: int)
    requires Tiling(B, brk) && bp in B && B[bp].free
    ensures forall y :: Live(Merged(B, bp), y) <==> Live(B, y)
    ensures forall y :: Live(B, y) ==> y in Merged(B, bp) && Merged(B, bp)[y] == B[y]
    ensures Lo(B, bp) in Merged(B, bp) && Merged(B, bp)[Lo(B, bp)].free
    ensures B[bp].size <= Merged(B, bp)[Lo(B, bp)].size && Lo(B, bp) > DUMMY
  {
    Span(B, brk, bp);
    forall y | y in B && Lo(B, bp) <= y < Hi(B, bp)
      ensures B[y].free
    {
      InSpan(B, brk, bp, y);
    }
    LiveAfterFuse(B, Lo(B, bp), Hi(B, bp));
  }

  /** After size bytes of x have been taken, the list is what it was without x, behind the block that
      follows if that is free. */
  lemma PlacedRest(B: Blocks, brk: int, F: seq<int>, x: int, size: int)
    requires Tiling(B, brk) && Coalesced(B, 0) && x in B && B[x].free
    requires size % 8 == 0 && 16 <= size <= B[x].size
    ensures var B' := Placed(B, x, size);
            var next := x + B'[x].size;
            PlacedList(B, F, x, size) == (if next in B' && B'[next].free then [next] else []) + Without(F, x)
  {
    Ends(B, brk, x, brk);
    if x + size in B {
      Ends(B, brk, x, x + size);
    }
    assert !NextFree(B, x);
    if B[x].size - size >= 16 {
      assert x + size in Split(B, x, size);
    }
  }

  /** Growing the heap puts the grown end first and leaves the list otherwise as it is. */
  lemma GrownList(B: Blocks, brk: int, F: seq<int>, size: int)
    requires Tiling(B, brk) && Lists(F, B, {}) && size % 8 == 0 && size >= 16
    ensures var grown := Extended(B, brk, size);
            var lo := Lo(grown, brk);
            Without([lo] + Unlisted(grown, F, brk), lo) == Without(F, lo)
  {
    ExtendTiling(B, brk, size);
    var grown := Extended(B, brk, size);
    assert brk !in B by {
      if brk in B {
        Ends(B, brk, brk, brk);
      }
    }
    if brk + size in grown {
      Ends(grown, brk + size, brk + size, brk + size);
    }
    assert Hi(grown, brk) == brk + size;
    var lo := Lo(grown, brk);
    assert ([lo] + Unlisted(grown, F, brk))[1..] == Unlisted(grown, F, brk);
    if lo == brk {
      WithoutAbsent(F, brk);
    }
  }

  lemma EvenExtension(asize: int)
    requires asize % 8 == 0 && asize >= 16
    ensures EvenBytes(ExtendSize(asize) / WSIZE) == ExtendSize(asize) && ExtendSize(asize) / WSIZE >= 4
    ensures ExtendSize(asize) % 8 == 0 && ExtendSize(asize) >= 16
  {
  }

  lemma KeptOn(B: Blocks, B': Blocks, m: Words, m': Words, m'': Words)
    requires forall y :: Live(B, y) ==> Live(B', y) && B'[y] == B[y]
    requires Kept(B, m, m') && Kept(B', m', m'')
    ensures Kept(B, m, m'')
  {
    forall y, q | LiveWord(B, y, q)
      ensures q in m && q in m'' && m''[q] == m[q]
    {
      assert Live(B, y);
      assert LiveWord(B', y, q);
    }
  }

  lemma KeptSub(B: Blocks, B': Blocks, m: Words, m': Words)
    requires forall y :: Live(B, y) ==> Live(B', y) && B'[y] == B[y]
    requires Kept(B', m, m')
    ensures Kept(B, m, m')
  {
    forall y, q | LiveWord(B, y, q)
      ensures q in m && q in m' && m'[q] == m[q]
    {
      assert Live(B, y);
      assert LiveWord(B', y, q);
    }
  }

  lemma PayloadKeys(B: Blocks, brk: int, s: seq<Byte>)
    requires Tiling(B, brk) && brk <= |s|
    ensures forall y :: y in Payloads(B, s) <==> Live(B, y)
    ensures forall y :: y in Payloads(B, s) ==>
                          Payloads(B, s)[y] == s[y..y + B[y].size - 8] && |Payloads(B, s)[y]| == B[y].size - 8
  {
    forall y | Live(B, y)
      ensures y in Payloads(B, s)
    {
      PayloadBounds(B, brk, y);
    }
  }

  /** What the client sees of an operation that keeps the live blocks of B: the same bytes
      under every pointer that it held. */
  lemma PayloadsKept(B: Blocks, brk: int, m: Words, s: seq<Byte>, B': Blocks, brk': int, m': Words, s': seq<Byte>)
    requires Tiling(B, brk) && Tiling(B', brk') && brk <= |s| == |s'| && brk' <= |s|
    requires Coherent(m, s) && Coherent(m', s')
    requires forall y :: Live(B, y) ==> Live(B', y) && B'[y] == B[y]
    requires Kept(B, m, m')
    ensures forall y :: y in Payloads(B, s) ==> y in Payloads(B', s') && Payloads(B', s')[y] == Payloads(B, s)[y]
  {
    PayloadKeys(B, brk, s);
    PayloadKeys(B', brk', s');
    forall y | y in Payloads(B, s)
      ensures Payloads(B', s')[y] == Payloads(B, s)[y]
    {
      assert Live(B, y);
      PayloadKept(B, brk, m, s, m', s', y);
    }
  }

  /** What the client sees when x has become live. */
  lemma PayloadGained(
      B: Blocks, brk: int, m: Words, s: seq<Byte>, B': Blocks, brk': int, m': Words, s': seq<Byte>, x: int)
    requires Tiling(B, brk) && Tiling(B', brk') && brk <= |s| == |s'| && brk' <= |s|
    requires Coherent(m, s) && Coherent(m', s') && Kept(B, m, m')
    requires Live(B', x) && !Live(B, x)
    requires forall y :: Live(B', y) && y != x <==> Live(B, y)
    requires forall y :: Live(B, y) ==> Live(B', y) && B'[y] == B[y]
    ensures x !in Payloads(B, s) && Payloads(B', s').Keys == Payloads(B, s).Keys + {x}
    ensures x % 8 == 0 && |Payloads(B', s')[x]| == B'[x].size - 8
    ensures forall y :: y in Payloads(B, s) ==> y in Payloads(B', s') && Payloads(B', s')[y] == Payloads(B, s)[y]
  {
    hide Tiling, Coherent, Kept;
    PayloadKeys(B, brk, s);
    PayloadKeys(B', brk', s');
    forall y
      ensures y in Payloads(B', s') <==> y in Payloads(B, s) || y == x
    {
      assert Live(B', y) <==> Live(B, y) || y == x;
    }
    PayloadsKept(B, brk, m, s, B', brk', m', s');
    Ends(B', brk', x, brk');
  }

  /** What the client sees when x has stopped being live. */
  lemma PayloadLost(B: Blocks, brk: int, m: Words, s: seq<Byte>, B': Blocks, m': Words, s': seq<Byte>, x: int)
    requires Tiling(B, brk) && Tiling(B', brk) && brk <= |s| == |s'|
    requires Coherent(m, s) && Coherent(m', s') && Kept(B', m, m')
    requires Live(B, x) && !Live(B', x)
    requires forall y :: Live(B', y) <==> Live(B, y) && y != x
    requires forall y :: Live(B', y) ==> y in B && B'[y] == B[y]
    ensures x in Payloads(B, s) && Payloads(B', s') == Payloads(B, s) - {x}
  {
    hide Tiling, Coherent, Kept, Live;
    PayloadKeys(B, brk, s);
    PayloadKeys(B', brk, s');
    forall y | Live(B', y)
      ensures Payloads(B', s')[y] == Payloads(B, s)[y]
    {
      LostKept(B', m, m', y);
      PayloadKept(B', brk, m, s, m', s', y);
    }
    assert Payloads(B', s').Keys == Payloads(B, s).Keys - {x};
  }

  lemma LostKept(B: Blocks, m: Words, m': Words, x: int)
    requires Kept(B, m, m')
    ensures forall q :: LiveWord(B, x, q) ==> q in m && q in m' && m'[q] == m[q]
  {
  }

  // ---------- Stores into a live payload ----------

  /** m' and m differ in the payload of block x at most. */
  ghost predicate PayloadOnly(B: Blocks, x: int, m: Words, m': Words) {
    && m'.Keys == m.Keys
    && (forall q {:trigger LiveWord(B, x, q)} :: q in m && !LiveWord(B, x, q) ==> m'[q] == m[q])
  }

  lemma PayloadStoreTags(m: Words, m': Words, B: Blocks, brk: int, x: int, y: int)
    requires Tiles(m, B, brk) && Live(B, x) && PayloadOnly(B, x, m, m') && y in B
    ensures TagsOf(m', B, y)
  {
    assert TagsOf(m, B, y);
    Ends(B, brk, x, y);
    Ends(B, brk, y, x);
    assert !LiveWord(B, x, y - 4) && !LiveWord(B, x, y + B[y].size - 8);
  }

  /** The client may store what it likes in a live payload. */
  lemma PayloadStoreHeap(m: Words, m': Words, B: Blocks, brk: int, F: seq<int>, x: int)
    requires Tiles(m, B, brk) && Ring(m, F) && AllFree(F, B)
    requires Live(B, x) && PayloadOnly(B, x, m, m')
    ensures Tiles(m', B, brk) && Ring(m', F)
  {
    forall y {:trigger TagsOf(m', B, y)} | y in B
      ensures TagsOf(m', B, y)
    {
      PayloadStoreTags(m, m', B, brk, x, y);
    }
    Ends(B, brk, x, brk);
    assert !LiveWord(B, x, brk - 4);
    forall q {:trigger LinkWord(F, q)} | q in m && LinkWord(F, q)
      ensures m'[q] == m[q]
    {
      if LiveWord(B, x, q) {
        LiveNotLink(B, brk, F, x, q);
      }
    }
    RingFrame(m, m', F);
  }

  /** A store of bytes from a up to b, inside the payload of x, is a store into that payload. */
  lemma StoreInPayload(m: Words, s: seq<Byte>, m': Words, B: Blocks, brk: int, x: int, a: int, b: int)
    requires Tiling(B, brk) && Live(B, x) && x <= a <= b <= x + B[x].size - 8
    requires Coherent(m, s) && m'.Keys == m.Keys
    requires forall q :: q in m && (q + 4 <= a || b <= q) ==> m'[q] == m[q]
    ensures PayloadOnly(B, x, m, m')
  {
    PayloadBounds(B, brk, x);
    forall q {:trigger LiveWord(B, x, q)} | q in m && !LiveWord(B, x, q)
      ensures m'[q] == m[q]
    {
      assert WordIs(m, s, q);
    }
  }

  lemma PayloadStored(B: Blocks, brk: int, s: seq<Byte>, s': seq<Byte>, x: int)
    requires Tiling(B, brk) && brk <= |s| == |s'| && Live(B, x)
    requires forall k :: 0 <= k < |s| && !(x <= k < x + B[x].size - 8) ==> s'[k] == s[k]
    ensures Payloads(B, s').Keys == Payloads(B, s).Keys && x in Payloads(B, s)
    ensures forall y :: y in Payloads(B, s) && y != x ==> Payloads(B, s')[y] == Payloads(B, s)[y]
  {
    PayloadKeys(B, brk, s);
    PayloadKeys(B, brk, s');
    forall y | Live(B, y) && y != x
      ensures Payloads(B, s')[y] == Payloads(B, s)[y]
    {
      PayloadBounds(B, brk, y);
      Ends(B, brk, x, y);
      Ends(B, brk, y, x);
    }
  }

  lemma ByteStored(B: Blocks, brk: int, s: seq<Byte>, s': seq<Byte>, x: int, k: nat, v: Byte)
    requires Tiling(B, brk) && brk <= |s| == |s'| && Live(B, x) && k < B[x].size - 8
    requires x + k < |s| && s'[x + k] == v && forall a :: 0 <= a < |s| && a != x + k ==> s'[a] == s[a]
    ensures x in Payloads(B, s) && k < |Payloads(B, s)[x]|
    ensures Payloads(B, s') == Payloads(B, s)[x := WithByte(Payloads(B, s)[x], k, v)]
  {
    PayloadStored(B, brk, s, s', x);
    PayloadKeys(B, brk, s);
    PayloadKeys(B, brk, s');
    assert Payloads(B, s')[x] == WithByte(Payloads(B, s)[x], k, v);
  }

  // ---------- mm_realloc ----------

  /** t begins with the first n bytes of s, or with all of s when it is shorter. */
  ghost predicate SamePrefix(s: seq<Byte>, t: seq<Byte>, n: nat) {
    forall k :: 0 <= k < n && k < |s| ==> k < |t| && t[k] == s[k]
  }

  /** The copy of mm_realloc stays inside the heap and the new payload, and its two ranges are disjoint. */
  lemma CopyRanges(B: Blocks, brk: int, src: int, dst: int, n: int)
    requires Tiling(B, brk) && Live(B, src) && Live(B, dst) && src != dst
    requires 0 <= n <= B[src].size && n <= B[dst].size - 8
    ensures 0 < src && src + n <= brk && 0 < dst && dst + n <= dst + B[dst].size - 8 <= brk
    ensures dst + n <= src || src + n <= dst
  {
    Ends(B, brk, src, dst);
    Ends(B, brk, dst, src);
  }

  lemma BytesCopied(B: Blocks, brk: int, s: seq<Byte>, s': seq<Byte>, src: int, dst: int, n: int)
    requires Tiling(B, brk) && brk <= |s| == |s'| && Live(B, src) && Live(B, dst) && src != dst
    requires 0 <= n <= B[src].size && n <= B[dst].size - 8
    requires forall k :: dst <= k < dst + n ==> 0 <= src + (k - dst) < |s| && k < |s'| && s'[k] == s[src + (k - dst)]
    requires forall k :: 0 <= k < |s| && !(dst <= k < dst + n) ==> s'[k] == s[k]
    ensures Payloads(B, s').Keys == Payloads(B, s).Keys && src in Payloads(B, s) && dst in Payloads(B, s)
    ensures forall y :: y in Payloads(B, s) && y != dst ==> Payloads(B, s')[y] == Payloads(B, s)[y]
    ensures |Payloads(B, s')[dst]| == |Payloads(B, s)[dst]|
    ensures SamePrefix(Payloads(B, s)[src], Payloads(B, s')[dst], n)
  {
    PayloadStored(B, brk, s, s', dst);
    PayloadKeys(B, brk, s);
    PayloadKeys(B, brk, s');
    PayloadBounds(B, brk, dst);
    PayloadBounds(B, brk, src);
    forall k | 0 <= k < n && k < |Payloads(B, s)[src]|
      ensures k < |Payloads(B, s')[dst]| && Payloads(B, s')[dst][k] == Payloads(B, s)[src][k]
    {
      assert s'[dst + k] == s[src + (dst + k - dst)];
    }
  }

  // ---------- The address order ----------

  /** The blocks met by NEXT_BLKP from x on. */
  ghost function Walk(B: Blocks, x: int, brk: int): seq<int>
    decreases brk - x
  {
    if x in B && x < brk && B[x].size > 0 then [x] + Walk(B, x + B[x].size, brk) else []
  }

  ghost function TotalSize(B: Blocks, W: seq<int>): int {
    if W == [] then 0 else (if W[0] in B then B[W[0]].size else 0) + TotalSize(B, W[1..])
  }

  /** Walking from x up to the break meets every block from x on, and their sizes fill the way. */
  lemma {:induction false} WalkMeetsAll(B: Blocks, brk: int, x: int)
    requires Tiling(B, brk) && (x in B || x == brk)
    ensures forall y :: y in Walk(B, x, brk) <==> y in B && x <= y
    ensures forall i, j :: 0 <= i < j < |Walk(B, x, brk)| ==> Walk(B, x, brk)[i] < Walk(B, x, brk)[j]
    ensures TotalSize(B, Walk(B, x, brk)) == brk - x
    decreases brk - x
  {
    if x in B {
      Ends(B, brk, x, brk);
      assert WellSized(B, brk, x);
      WalkMeetsAll(B, brk, x + B[x].size);
      forall y | y in B && x < y
        ensures x + B[x].size <= y
      {
        Ends(B, brk, x, y);
      }
      WalkStep(B, brk, x);
    } else {
      forall y | y in B
        ensures y < brk
      {
        Ends(B, brk, y, brk);
      }
    }
  }

  lemma WalkStep(B: Blocks, brk: int, x: int)
    requires x in B && x < brk && B[x].size > 0
    ensures Walk(B, x, brk) == [x] + Walk(B, x + B[x].size, brk)
    ensures TotalSize(B, Walk(B, x, brk)) == B[x].size + TotalSize(B, Walk(B, x + B[x].size, brk))
  {
    assert Walk(B, x, brk)[1..] == Walk(B, x + B[x].size, brk);
  }

  /** Two live payloads never overlap. */
  lemma PayloadsApart(B: Blocks, brk: int, s: seq<Byte>, x: int, y: int)
    requires Tiling(B, brk) && brk <= |s| && x in Payloads(B, s) && y in Payloads(B, s) && x != y
    ensures 0 < x && 0 < y && x + |Payloads(B, s)[x]| <= brk && y + |Payloads(B, s)[y]| <= brk
    ensures x + |Payloads(B, s)[x]| <= y || y + |Payloads(B, s)[y]| <= x
  {
    PayloadKeys(B, brk, s);
    Ends(B, brk, x, y);
    Ends(B, brk, y, x);
  }
}
