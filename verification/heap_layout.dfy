/** What the words of the heap mean: boundary-tagged blocks that tile it in address
    order, and a circular doubly linked list of the free ones, threaded through
    their payloads.  Everything here is about values; mm.dfy changes the words. */
module HeapLayout {
  import opened MemLib
  import opened Sequences

  const WSIZE := 4
  const DSIZE := 8
  const PROLOGUE := 8
  const DUMMY := 16
  const EPILOGUE_TAG := 1

  datatype Block = Block(size: int, free: bool)

  type Blocks = map<int, Block>
  type Words = map<int, int>

  /** PACK, for a size that is a multiple of 8. */
  function Pack(size: int, alloc: int): int { size + alloc }

  /** GET_SIZE and GET_ALLOC of a tag word. */
  function SizeOf(w: int): int { w - w % 8 }
  function AllocOf(w: int): int { w % 2 }

  ghost function Tag(b: Block): int { Pack(b.size, if b.free then 0 else 1) }

  // ---------- The address-order view ----------

  ghost predicate WellSized(B: Blocks, brk: int, x: int) {
    && x in B
    && x % 8 == 0 && PROLOGUE <= x
    && B[x].size % 8 == 0 && B[x].size >= (if x == PROLOGUE then 8 else 16)
    && x + B[x].size <= brk
    && (x + B[x].size in B || x + B[x].size == brk)
  }

  /** Block x, if it starts before block y, also ends before it. */
  ghost predicate Apart(B: Blocks, x: int, y: int) {
    x in B && y in B && x < y ==> x + B[x].size <= y
  }

  /** Some block ends at z. */
  ghost predicate HasPrev(B: Blocks, z: int) {
    exists y :: y in B && y + B[y].size == z
  }

  ghost function PrevOf(B: Blocks, z: int): (y: int)
    requires HasPrev(B, z)
    ensures y in B && y + B[y].size == z
  {
    var y :| y in B && y + B[y].size == z;
    y
  }

  /** Blocks fill the heap from the prologue up to the epilogue without gap or overlap. */
  ghost predicate Tiling(B: Blocks, brk: int)
  {
    && brk % 8 == 0
    && PROLOGUE in B && B[PROLOGUE] == Block(8, false)
    && DUMMY in B && B[DUMMY] == Block(16, false)
    && (forall x {:trigger WellSized(B, brk, x)} :: x in B ==> WellSized(B, brk, x))
    && (forall z {:trigger HasPrev(B, z)} :: (z in B || z == brk) && z > PROLOGUE ==> HasPrev(B, z))
    && (forall x, y :: Apart(B, x, y))
  }

  ghost predicate Backed(m: Words, brk: int) {
    forall p {:trigger WordAddress(p, brk)} :: WordAddress(p, brk) ==> p in m
  }

  /** Header and footer of block x both hold its size and its allocation bit. */
  ghost predicate TagsOf(m: Words, B: Blocks, x: int) {
    && x in B
    && x - 4 in m && m[x - 4] == Tag(B[x])
    && x + B[x].size - 8 in m && m[x + B[x].size - 8] == Tag(B[x])
  }

  ghost predicate Tagged(m: Words, B: Blocks, brk: int)
  {
    && Backed(m, brk)
    && (forall x {:trigger TagsOf(m, B, x)} :: x in B ==> TagsOf(m, B, x))
    && brk - 4 in m && m[brk - 4] == EPILOGUE_TAG
  }

  ghost predicate Tiles(m: Words, B: Blocks, brk: int) {
    Tiling(B, brk) && Tagged(m, B, brk)
  }

  // ---------- The list view ----------

  /** The i-th node on the way round: the dummy, then F, then the dummy again. */
  ghost function Node(F: seq<int>, i: int): int
    requires 0 <= i <= |F| + 1
  {
    if i == 0 || i == |F| + 1 then DUMMY else F[i - 1]
  }

  ghost predicate Linked(m: Words, F: seq<int>, i: int)
    requires 0 <= i <= |F|
  {
    && Node(F, i) + 4 in m && m[Node(F, i) + 4] == Node(F, i + 1)
    && Node(F, i + 1) in m && m[Node(F, i + 1)] == Node(F, i)
  }

  /** Successor words lead from the dummy through F and back to it, predecessor words the other way. */
  ghost predicate Ring(m: Words, F: seq<int>) {
    && Distinct(F)
    && DUMMY !in F
    && (forall b :: b in F ==> b % 8 == 0)
    && (forall i :: 0 <= i <= |F| ==> Linked(m, F, i))
  }

  /** A predecessor or successor word of the dummy or of a listed block. */
  ghost predicate LinkWord(F: seq<int>, q: int) {
    q == DUMMY || q == DUMMY + 4 || q in F || q - 4 in F
  }

  /** F lists the free blocks and nothing else, except that those of X are not listed (yet). */
  ghost predicate Lists(F: seq<int>, B: Blocks, X: set<int>) {
    forall b :: b in F <==> b in B && B[b].free && b !in X
  }

  /** No two neighbouring blocks are both free, unless x is one of them. */
  ghost predicate Coalesced(B: Blocks, x: int) {
    forall a {:trigger NextFree(B, a)} :: a in B && B[a].free && a != x && a + B[a].size != x ==> !NextFree(B, a)
  }

  /** The block just after a is free. */
  ghost predicate NextFree(B: Blocks, a: int) {
    a in B && a + B[a].size in B && B[a + B[a].size].free
  }

  // ---------- Live payloads ----------

  ghost predicate Live(B: Blocks, x: int) {
    x in B && !B[x].free && x > DUMMY
  }

  /** q is a word of the payload of the live block x. */
  ghost predicate LiveWord(B: Blocks, x: int, q: int) {
    Live(B, x) && x <= q < x + B[x].size - 8 && q % 4 == 0
  }

  /** m' has the payloads that B calls live as m has them. */
  ghost predicate Kept(B: Blocks, m: Words, m': Words) {
    forall x, q :: LiveWord(B, x, q) ==> q in m && q in m' && m'[q] == m[q]
  }

  // ---------- The tags of one block, written anew ----------

  /** Blocks from a up to e become one block. */
  ghost function Fuse(B: Blocks, a: int, e: int, free: bool): Blocks {
    (map x | x in B && (x <= a || e <= x) :: B[x])[a := Block(e - a, free)]
  }

  /** PUT of the header and the footer of a block that reaches from a to e. */
  ghost function PutTags(m: Words, a: int, e: int, free: bool): Words {
    m[a - 4 := Tag(Block(e - a, free))][e - 8 := Tag(Block(e - a, free))]
  }

  lemma TagSize(b: Block)
    requires b.size % 8 == 0
    ensures SizeOf(Tag(b)) == b.size
    ensures AllocOf(Tag(b)) == if b.free then 0 else 1
  {
    var k := b.size / 8;
    assert b.size == 8 * k;
    if b.free {
      assert 8 * k % 8 == 0 && 2 * (4 * k) % 2 == 0;
    } else {
      assert (8 * k + 1) % 8 == 1 && (2 * (4 * k) + 1) % 2 == 1;
    }
  }

  /** Blocks end on multiples of 8, and one that starts before e does not reach past it. */
  lemma Ends(B: Blocks, brk: int, x: int, e: int)
    requires Tiling(B, brk)
    requires x in B && (e in B || e == brk)
    ensures x % 8 == 0 && e % 8 == 0 && e <= brk
    ensures if x < e then x + B[x].size <= e else e < x + B[x].size
    ensures B[x].size % 8 == 0 && B[x].size >= 8 && (x > PROLOGUE ==> B[x].size >= 16)
    ensures PROLOGUE <= x && x + B[x].size <= brk
  {
    assert WellSized(B, brk, x);
    if e in B {
      assert WellSized(B, brk, e) && Apart(B, x, e);
    }
  }

  lemma FuseSizes(B: Blocks, brk: int, a: int, e: int, free: bool, x: int)
    requires Tiling(B, brk)
    requires a in B && DUMMY < a < e && (e in B || e == brk)
    requires x in Fuse(B, a, e, free)
    ensures WellSized(Fuse(B, a, e, free), brk, x)
  {
    Ends(B, brk, a, e);
    assert WellSized(B, brk, x);
    if x < a {
      Ends(B, brk, x, a);
    }
  }

  lemma FusePrev(B: Blocks, brk: int, a: int, e: int, free: bool, z: int)
    requires Tiling(B, brk)
    requires a in B && DUMMY < a < e && (e in B || e == brk)
    requires (z in Fuse(B, a, e, free) || z == brk) && z > PROLOGUE
    ensures HasPrev(Fuse(B, a, e, free), z)
  {
    var B' := Fuse(B, a, e, free);
    if z == e {
      assert a in B' && a + B'[a].size == z;
    } else {
      assert HasPrev(B, z);
      var y := PrevOf(B, z);
      Ends(B, brk, y, e);
      Ends(B, brk, a, z);
      assert y in B' && y + B'[y].size == z;
    }
  }

  lemma FuseApart(B: Blocks, brk: int, a: int, e: int, free: bool, x: int, y: int)
    requires Tiling(B, brk)
    requires a in B && DUMMY < a < e && (e in B || e == brk)
    ensures Apart(Fuse(B, a, e, free), x, y)
  {
    var B' := Fuse(B, a, e, free);
    if x in B' && y in B' && x < y {
      Ends(B, brk, x, y);
      Ends(B, brk, y, e);
    }
  }

  lemma FuseTiling(B: Blocks, brk: int, a: int, e: int, free: bool)
    requires Tiling(B, brk)
    requires a in B && DUMMY < a < e && (e in B || e == brk)
    ensures Tiling(Fuse(B, a, e, free), brk)
  {
    var B' := Fuse(B, a, e, free);
    forall x {:trigger WellSized(B', brk, x)} | x in B'
      ensures WellSized(B', brk, x)
    {
      FuseSizes(B, brk, a, e, free, x);
    }
    forall z {:trigger HasPrev(B', z)} | (z in B' || z == brk) && z > PROLOGUE
      ensures HasPrev(B', z)
    {
      FusePrev(B, brk, a, e, free, z);
    }
    forall x, y
      ensures Apart(B', x, y)
    {
      FuseApart(B, brk, a, e, free, x, y);
    }
    Ends(B, brk, a, e);
  }

  lemma FuseTags(m: Words, B: Blocks, brk: int, a: int, e: int, free: bool, x: int)
    requires Tiles(m, B, brk)
    requires a in B && DUMMY < a < e && (e in B || e == brk)
    requires x in Fuse(B, a, e, free)
    ensures TagsOf(PutTags(m, a, e, free), Fuse(B, a, e, free), x)
  {
    Ends(B, brk, a, e);
    if x != a {
      assert TagsOf(m, B, x);
      Ends(B, brk, x, a);
      Ends(B, brk, x, e);
    }
  }

  lemma FuseTiles(m: Words, B: Blocks, brk: int, a: int, e: int, free: bool)
    requires Tiles(m, B, brk)
    requires a in B && DUMMY < a < e && (e in B || e == brk)
    ensures Tiles(PutTags(m, a, e, free), Fuse(B, a, e, free), brk)
  {
    FuseTiling(B, brk, a, e, free);
    Ends(B, brk, a, e);
    forall x {:trigger TagsOf(PutTags(m, a, e, free), Fuse(B, a, e, free), x)} | x in Fuse(B, a, e, free)
      ensures TagsOf(PutTags(m, a, e, free), Fuse(B, a, e, free), x)
    {
      FuseTags(m, B, brk, a, e, free, x);
    }
  }

  // ---------- The words determine both views ----------

  lemma SameTag(m: Words, B: Blocks, B': Blocks, brk: int, x: int)
    requires Tiles(m, B, brk) && Tiles(m, B', brk) && x in B && x in B'
    ensures B[x] == B'[x]
  {
    assert TagsOf(m, B, x) && TagsOf(m, B', x);
    assert WellSized(B, brk, x) && WellSized(B', brk, x);
    TagSize(B[x]);
    TagSize(B'[x]);
  }

  lemma {:induction false} SameBlock(m: Words, B: Blocks, B': Blocks, brk: int, x: int)
    requires Tiles(m, B, brk) && Tiles(m, B', brk) && x in B
    ensures x in B' && B'[x] == B[x]
    decreases x - PROLOGUE
  {
    assert WellSized(B, brk, x);
    if x > PROLOGUE {
      assert HasPrev(B, x);
      var y := PrevOf(B, x);
      assert WellSized(B, brk, y);
      SameBlock(m, B, B', brk, y);
      assert WellSized(B', brk, y);
    }
    SameTag(m, B, B', brk, x);
  }

  /** No two tilings have the same tags. */
  lemma TilesUnique(m: Words, B: Blocks, B': Blocks, brk: int)
    requires Tiles(m, B, brk) && Tiles(m, B', brk)
    ensures B == B'
  {
    forall x
      ensures x in B <==> x in B'
      ensures x in B ==> B[x] == B'[x]
    {
      if x in B {
        SameBlock(m, B, B', brk, x);
      }
      if x in B' {
        SameBlock(m, B', B, brk, x);
      }
    }
  }

  lemma {:induction false} SameNodes(m: Words, F: seq<int>, F': seq<int>, k: nat)
    requires Ring(m, F) && Ring(m, F') && k <= |F|
    ensures k <= |F'| && F[..k] == F'[..k]
  {
    if k > 0 {
      SameNodes(m, F, F', k - 1);
      assert Linked(m, F, k - 1) && Linked(m, F', k - 1);
      assert Node(F, k) == F[k - 1];
      assert k - 1 > 0 ==> F[..k - 1][k - 2] == F'[..k - 1][k - 2];
      assert F[..k] == F[..k - 1] + [F[k - 1]];
    }
  }

  /** No two rings have the same links. */
  lemma RingUnique(m: Words, F: seq<int>, F': seq<int>)
    requires Ring(m, F) && Ring(m, F')
    ensures F == F'
  {
    SameNodes(m, F, F', |F|);
    SameNodes(m, F', F, |F'|);
  }

  // ---------- Tags, links and live payloads are kept in different words ----------

  ghost predicate AllFree(F: seq<int>, B: Blocks) {
    forall b :: b in F ==> b in B && B[b].free
  }

  /** No word of block x after its first two is a link, nor is its header. */
  lemma NotLink(B: Blocks, brk: int, F: seq<int>, x: int, q: int)
    requires Tiling(B, brk) && AllFree(F, B)
    requires x in B && (q == x - 4 || x + 8 <= q < x + B[x].size - 4)
    ensures !LinkWord(F, q)
  {
    Ends(B, brk, x, brk);
    Ends(B, brk, DUMMY, x);
    Ends(B, brk, x, DUMMY);
    forall b | b in F
      ensures q != b && q != b + 4
    {
      Ends(B, brk, b, x);
      Ends(B, brk, x, b);
    }
  }

  lemma TagsNotLinks(B: Blocks, brk: int, F: seq<int>, x: int)
    requires Tiling(B, brk) && AllFree(F, B) && x in B
    ensures !LinkWord(F, x - 4) && !LinkWord(F, x + B[x].size - 8)
  {
    NotLink(B, brk, F, x, x - 4);
    Ends(B, brk, x, brk);
    if x == PROLOGUE {
      assert PROLOGUE !in F;
    } else {
      NotLink(B, brk, F, x, x + B[x].size - 8);
    }
  }

  /** Nothing from the epilogue header on is a link. */
  lemma EndNotLink(B: Blocks, brk: int, F: seq<int>, q: int)
    requires Tiling(B, brk) && AllFree(F, B) && q >= brk - 4
    ensures !LinkWord(F, q)
  {
    Ends(B, brk, DUMMY, brk);
    forall b | b in F
      ensures q != b && q != b + 4
    {
      Ends(B, brk, b, brk);
    }
  }

  lemma LiveNotLink(B: Blocks, brk: int, F: seq<int>, x: int, q: int)
    requires Tiling(B, brk) && AllFree(F, B) && LiveWord(B, x, q)
    ensures !LinkWord(F, q)
  {
    Ends(B, brk, DUMMY, x);
    forall b | b in F
      ensures q != b && q != b + 4
    {
      Ends(B, brk, b, x);
      Ends(B, brk, x, b);
    }
  }

  /** Of block x and its tags, no word belongs to the payload of another block. */
  lemma LiveApart(B: Blocks, brk: int, x: int, y: int, q: int)
    requires Tiling(B, brk) && x in B && x - 4 <= q < x + B[x].size - 4
    requires LiveWord(B, y, q)
    ensures x == y
  {
    Ends(B, brk, x, y);
    Ends(B, brk, y, x);
  }

  ghost predicate LinksOnly(F: seq<int>, m: Words, m': Words) {
    && m'.Keys == m.Keys
    && (forall q {:trigger LinkWord(F, q)} :: q in m && !LinkWord(F, q) ==> m'[q] == m[q])
  }

  lemma LinksOnlyTiles(m: Words, m': Words, B: Blocks, brk: int, F: seq<int>)
    requires Tiles(m, B, brk) && AllFree(F, B) && LinksOnly(F, m, m')
    ensures Tiles(m', B, brk)
  {
    forall x {:trigger TagsOf(m', B, x)} | x in B
      ensures TagsOf(m', B, x)
    {
      assert TagsOf(m, B, x);
      TagsNotLinks(B, brk, F, x);
    }
    EndNotLink(B, brk, F, brk - 4);
    assert Backed(m', brk);
  }

  lemma LiveBacked(m: Words, B: Blocks, brk: int, x: int, q: int)
    requires Tiling(B, brk) && Backed(m, brk) && LiveWord(B, x, q)
    ensures q in m
  {
    Ends(B, brk, x, brk);
    assert WordAddress(q, brk);
  }

  lemma LinksOnlyKept(m: Words, m': Words, B: Blocks, brk: int, F: seq<int>)
    requires Tiling(B, brk) && Backed(m, brk) && AllFree(F, B) && LinksOnly(F, m, m')
    ensures Kept(B, m, m')
  {
    forall x, q | LiveWord(B, x, q)
      ensures q in m && m'[q] == m[q]
    {
      LiveBacked(m, B, brk, x, q);
      LiveNotLink(B, brk, F, x, q);
    }
  }

  /** A store into a block that is not live, or into its tags, keeps every live payload. */
  lemma PutKept(m: Words, B: Blocks, brk: int, x: int, q: int, v: int)
    requires Tiling(B, brk) && Backed(m, brk)
    requires x in B && !Live(B, x) && x - 4 <= q < x + B[x].size - 4
    ensures Kept(B, m, m[q := v])
  {
    forall y, r | LiveWord(B, y, r)
      ensures r in m && m[q := v][r] == m[r]
    {
      LiveBacked(m, B, brk, y, r);
      if r == q {
        LiveApart(B, brk, x, y, q);
      }
    }
  }

  lemma KeptRefl(m: Words, B: Blocks, brk: int)
    requires Tiling(B, brk) && Backed(m, brk)
    ensures Kept(B, m, m)
  {
    forall x, q | LiveWord(B, x, q)
      ensures q in m
    {
      LiveBacked(m, B, brk, x, q);
    }
  }

  lemma KeptTrans(B: Blocks, m: Words, m': Words, m'': Words)
    requires Kept(B, m, m') && Kept(B, m', m'')
    ensures Kept(B, m, m'')
  {
    forall x, q | LiveWord(B, x, q)
      ensures q in m && q in m'' && m''[q] == m[q]
    {
    }
  }

  // ---------- Taking a node out of the ring and putting one in ----------

  /** The two stores of remove_from_free_list. */
  ghost function Unlink(m: Words, b: int): Words {
    if b in m && b + 4 in m then m[m[b] + 4 := m[b + 4]][m[b + 4] := m[b]] else m
  }

  /** The four stores of add_to_free_list. */
  ghost function Link(m: Words, b: int): Words {
    if DUMMY + 4 in m then
      var next := m[DUMMY + 4];
      m[b + 4 := next][next := b][b := DUMMY][DUMMY + 4 := b]
    else m
  }

  lemma NodesApart(F: seq<int>, i: int, j: int)
    requires Distinct(F) && DUMMY !in F && (forall b :: b in F ==> b % 8 == 0)
    requires 0 <= i <= |F| + 1 && 0 <= j <= |F| + 1
    ensures Node(F, i) % 8 == 0 && Node(F, i) + 4 != Node(F, j)
    ensures Node(F, i) == Node(F, j) <==> i == j || {i, j} == {0, |F| + 1}
  {
    assert i == 0 || i == |F| + 1 || Node(F, i) in F;
    assert j == 0 || j == |F| + 1 || Node(F, j) in F;
  }

  /** Neighbours of the i-th listed block. */
  lemma LinksAt(m: Words, F: seq<int>, i: int)
    requires Ring(m, F) && 0 <= i < |F|
    ensures F[i] in m && F[i] + 4 in m
    ensures m[F[i]] == Node(F, i) && m[F[i] + 4] == Node(F, i + 2)
    ensures Node(F, i) in m && Node(F, i) + 4 in m && Node(F, i + 2) in m && Node(F, i + 2) + 4 in m
  {
    assert Linked(m, F, i) && Linked(m, F, i + 1);
    assert Linked(m, F, 0) && Linked(m, F, |F|);
    assert i > 0 ==> Linked(m, F, i - 1);
    assert i + 2 <= |F| ==> Linked(m, F, i + 2);
  }

  lemma UnlinkRing(m: Words, F: seq<int>, i: int)
    requires Ring(m, F) && 0 <= i < |F|
    ensures Ring(Unlink(m, F[i]), F[..i] + F[i + 1..])
  {
    LinksAt(m, F, i);
    var F', m' := F[..i] + F[i + 1..], Unlink(m, F[i]);
    assert Distinct(F');
    assert forall b :: b in F' ==> b in F;
    assert m' == m[Node(F, i) + 4 := Node(F, i + 2)][Node(F, i + 2) := Node(F, i)];
    forall k | 0 <= k <= |F'|
      ensures Linked(m', F', k)
    {
      var k' := if k <= i then k else k + 1;
      var l' := if k + 1 <= i then k + 1 else k + 2;
      assert Node(F', k) == Node(F, k') && Node(F', k + 1) == Node(F, l');
      assert Linked(m, F, k');
      NodesApart(F, k', i);
      NodesApart(F, k', i + 2);
      NodesApart(F, l', i + 2);
      NodesApart(F, i, l');
    }
  }

  lemma UnlinkListed(m: Words, F: seq<int>, b: int)
    requires Ring(m, F) && b in F
    ensures b in m && b + 4 in m && m[b] in m && m[b] + 4 in m && m[b + 4] in m
    ensures LinkWord(F, m[b]) && LinkWord(F, m[b] + 4) && LinkWord(F, m[b + 4])
    ensures Ring(Unlink(m, b), Without(F, b))
    ensures LinksOnly(F, m, Unlink(m, b)) && LinksOnly(Without(F, b), m, Unlink(m, b))
  {
    var i :| 0 <= i < |F| && F[i] == b;
    LinksAt(m, F, i);
    UnlinkRing(m, F, i);
    WithoutAt(F, i);
    UnlinkOthers(m, F, i);
  }

  /** Unlinking writes to the neighbours of a node, never to the node. */
  lemma UnlinkOthers(m: Words, F: seq<int>, i: int)
    requires Ring(m, F) && 0 <= i < |F|
    ensures LinksOnly(F, m, Unlink(m, F[i])) && LinksOnly(Without(F, F[i]), m, Unlink(m, F[i]))
  {
    var b, F' := F[i], Without(F, F[i]);
    LinksAt(m, F, i);
    WithoutMembers(F, b);
    NodesApart(F, i, i + 1);
    NodesApart(F, i + 1, i + 2);
    assert Node(F, i) == DUMMY || Node(F, i) in F';
    assert Node(F, i + 2) == DUMMY || Node(F, i + 2) in F';
  }

  lemma LinkRing(m: Words, F: seq<int>, b: int)
    requires Ring(m, F) && b !in F && b != DUMMY && b % 8 == 0
    requires b in m && b + 4 in m
    ensures DUMMY + 4 in m && m[DUMMY + 4] in m && (m[DUMMY + 4] == DUMMY || m[DUMMY + 4] in F)
    ensures Ring(Link(m, b), [b] + F)
    ensures LinksOnly([b] + F, m, Link(m, b))
  {
    assert Linked(m, F, 0);
    var F', m' := [b] + F, Link(m, b);
    forall k | 0 <= k <= |F'|
      ensures Linked(m', F', k)
    {
      if k > 0 {
        assert Linked(m, F, k - 1);
        assert Node(F', k + 1) == Node(F, k);
        assert k > 1 ==> Node(F', k) == Node(F, k - 1);
        NodesApart(F', k, 0);
        NodesApart(F', k, 1);
        NodesApart(F', k, k + 1);
        NodesApart(F', k + 1, 1);
        NodesApart(F', k + 1, 2);
        NodesApart(F', 0, k + 1);
        NodesApart(F', 1, k + 1);
        NodesApart(F', k, 2);
      }
    }
  }

  lemma RingFrame(m: Words, m': Words, F: seq<int>)
    requires Ring(m, F)
    requires m.Keys <= m'.Keys && forall q {:trigger LinkWord(F, q)} :: q in m && LinkWord(F, q) ==> m'[q] == m[q]
    ensures Ring(m', F)
  {
    forall i | 0 <= i <= |F|
      ensures Linked(m', F, i)
    {
      assert Linked(m, F, i);
      assert Node(F, i) == DUMMY || Node(F, i) in F;
      assert Node(F, i + 1) == DUMMY || Node(F, i + 1) in F;
      assert LinkWord(F, Node(F, i) + 4) && LinkWord(F, Node(F, i + 1));
    }
  }

  // ---------- A free block split in two, the first part allocated ----------

  ghost function Split(B: Blocks, x: int, size: int): Blocks
    requires x in B
  {
    B[x := Block(size, false)][x + size := Block(B[x].size - size, true)]
  }

  ghost predicate Splittable(B: Blocks, x: int, size: int) {
    x in B && x > DUMMY && size % 8 == 0 && 16 <= size && size + 16 <= B[x].size
  }

  lemma SplitSizes(B: Blocks, brk: int, x: int, size: int, y: int)
    requires Tiling(B, brk) && Splittable(B, x, size)
    requires y in Split(B, x, size)
    ensures WellSized(Split(B, x, size), brk, y)
  {
    assert WellSized(B, brk, x);
    if y != x + size {
      assert WellSized(B, brk, y);
    }
  }

  lemma SplitPrev(B: Blocks, brk: int, x: int, size: int, z: int)
    requires Tiling(B, brk) && Splittable(B, x, size)
    requires (z in Split(B, x, size) || z == brk) && z > PROLOGUE
    ensures HasPrev(Split(B, x, size), z)
  {
    var B' := Split(B, x, size);
    Ends(B, brk, x, brk);
    assert x in B' && x + B'[x].size == x + size;
    if z != x + size {
      assert HasPrev(B, z);
      var p := PrevOf(B, z);
      Ends(B, brk, p, x);
      Ends(B, brk, x, p);
      var y := if p == x then x + size else p;
      assert y in B' && y + B'[y].size == z;
    }
  }

  lemma SplitApart(B: Blocks, brk: int, x: int, size: int, y: int, z: int)
    requires Tiling(B, brk) && Splittable(B, x, size)
    ensures Apart(Split(B, x, size), y, z)
  {
    if y in B && y != x + size {
      Ends(B, brk, y, x);
      Ends(B, brk, x, y);
    }
    if z in B {
      Ends(B, brk, x, z);
      if y in B {
        Ends(B, brk, y, z);
      }
    }
  }

  lemma SplitTiling(B: Blocks, brk: int, x: int, size: int)
    requires Tiling(B, brk) && Splittable(B, x, size)
    ensures Tiling(Split(B, x, size), brk)
  {
    var B' := Split(B, x, size);
    forall y {:trigger WellSized(B', brk, y)} | y in B'
      ensures WellSized(B', brk, y)
    {
      SplitSizes(B, brk, x, size, y);
    }
    forall z {:trigger HasPrev(B', z)} | (z in B' || z == brk) && z > PROLOGUE
      ensures HasPrev(B', z)
    {
      SplitPrev(B, brk, x, size, z);
    }
    forall y, z
      ensures Apart(B', y, z)
    {
      SplitApart(B, brk, x, size, y, z);
    }
  }

  /** What place leaves in memory after it has unlinked x and written the four tags. */
  ghost function SplitWords(m: Words, x: int, size: int, e: int): Words {
    var m1 := PutTags(m, x, x + size, false);
    PutTags(Unlink(m1, x), x + size, e, true)
  }

  /** Within a split, tags and links stay apart. */
  lemma SplitLinks(m: Words, B: Blocks, brk: int, F: seq<int>, x: int, size: int)
    requires Tiles(m, B, brk) && AllFree(F, B) && Ring(m, F)
    requires Splittable(B, x, size) && x in F
    ensures var m1 := PutTags(m, x, x + size, false);
            && Ring(m1, F)
            && x in m1 && x + 4 in m1 && m1[x] in m1 && m1[x] + 4 in m1 && m1[x + 4] in m1
            && LinksOnly(F, m1, Unlink(m1, x))
            && Ring(Unlink(m1, x), Without(F, x))
  {
    var m1 := PutTags(m, x, x + size, false);
    Ends(B, brk, x, brk);
    NotLink(B, brk, F, x, x - 4);
    NotLink(B, brk, F, x, x + size - 8);
    RingFrame(m, m1, F);
    UnlinkListed(m1, F, x);
  }

  lemma SplitRing(m: Words, B: Blocks, brk: int, F: seq<int>, x: int, size: int)
    requires Tiles(m, B, brk) && AllFree(F, B) && Ring(m, F)
    requires Splittable(B, x, size) && x in F
    ensures Ring(SplitWords(m, x, size, x + B[x].size), Without(F, x))
  {
    hide Tagged, Unlink;
    SplitLinks(m, B, brk, F, x, size);
    var m2 := Unlink(PutTags(m, x, x + size, false), x);
    Ends(B, brk, x, brk);
    NotLink(B, brk, F, x, x + size - 4);
    NotLink(B, brk, F, x, x + B[x].size - 8);
    WithoutMembers(F, x);
    RingFrame(m2, SplitWords(m, x, size, x + B[x].size), Without(F, x));
  }

  lemma SplitTags(m: Words, B: Blocks, brk: int, F: seq<int>, x: int, size: int, y: int)
    requires Tiles(m, B, brk) && AllFree(F, B) && Ring(m, F)
    requires Splittable(B, x, size) && x in F
    requires y in Split(B, x, size)
    ensures TagsOf(SplitWords(m, x, size, x + B[x].size), Split(B, x, size), y)
  {
    SplitLinks(m, B, brk, F, x, size);
    Ends(B, brk, x, brk);
    if y == x {
      NotLink(B, brk, F, x, x - 4);
      NotLink(B, brk, F, x, x + size - 8);
    } else if y != x + size {
      assert TagsOf(m, B, y);
      TagsNotLinks(B, brk, F, y);
      Ends(B, brk, x, y);
      Ends(B, brk, y, x);
    }
  }

  lemma SplitTiles(m: Words, B: Blocks, brk: int, F: seq<int>, x: int, size: int)
    requires Tiles(m, B, brk) && AllFree(F, B) && Ring(m, F)
    requires Splittable(B, x, size) && x in F
    ensures Tiles(SplitWords(m, x, size, x + B[x].size), Split(B, x, size), brk)
  {
    SplitTiling(B, brk, x, size);
    var B', m' := Split(B, x, size), SplitWords(m, x, size, x + B[x].size);
    forall y {:trigger TagsOf(m', B', y)} | y in B'
      ensures TagsOf(m', B', y)
    {
      SplitTags(m, B, brk, F, x, size, y);
    }
    SplitEnd(m, B, brk, F, x, size);
  }

  lemma SplitEnd(m: Words, B: Blocks, brk: int, F: seq<int>, x: int, size: int)
    requires Tiles(m, B, brk) && AllFree(F, B) && Ring(m, F)
    requires Splittable(B, x, size) && x in F
    ensures var m' := SplitWords(m, x, size, x + B[x].size);
            Backed(m', brk) && brk - 4 in m' && m'[brk - 4] == EPILOGUE_TAG
  {
    SplitLinks(m, B, brk, F, x, size);
    Ends(B, brk, x, brk);
    EndNotLink(B, brk, F, brk - 4);
  }

  /** A split keeps every live payload. */
  lemma SplitKept(m: Words, B: Blocks, brk: int, F: seq<int>, x: int, size: int)
    requires Tiles(m, B, brk) && AllFree(F, B) && Ring(m, F)
    requires Splittable(B, x, size) && x in F
    ensures Kept(B, m, SplitWords(m, x, size, x + B[x].size))
  {
    SplitLinks(m, B, brk, F, x, size);
    Ends(B, brk, x, brk);
    var m' := SplitWords(m, x, size, x + B[x].size);
    forall y, q | LiveWord(B, y, q)
      ensures q in m && q in m' && m'[q] == m[q]
    {
      LiveBacked(m, B, brk, y, q);
      LiveNotLink(B, brk, F, y, q);
      if x - 4 <= q < x + B[x].size - 4 {
        LiveApart(B, brk, x, y, q);
      }
    }
  }

  // ---------- A block added at the end of the heap ----------

  ghost function ExtendWords(m: Words, brk: int, size: int): Words {
    PutTags(m, brk, brk + size, true)[brk + size - 4 := EPILOGUE_TAG]
  }

  lemma ExtendPrev(B: Blocks, brk: int, size: int, z: int)
    requires Tiling(B, brk) && size % 8 == 0 && size >= 16
    requires (z in B || z == brk || z == brk + size) && z > PROLOGUE
    ensures HasPrev(B[brk := Block(size, true)], z)
  {
    var B' := B[brk := Block(size, true)];
    if z == brk + size {
      assert brk in B' && brk + B'[brk].size == z;
    } else {
      assert HasPrev(B, z);
      var y := PrevOf(B, z);
      Ends(B, brk, y, brk);
      assert y in B' && y + B'[y].size == z;
    }
  }

  lemma ExtendApart(B: Blocks, brk: int, size: int, x: int, y: int)
    requires Tiling(B, brk) && size % 8 == 0 && size >= 16
    ensures Apart(B[brk := Block(size, true)], x, y)
  {
    if x in B {
      Ends(B, brk, x, brk);
      if y in B {
        Ends(B, brk, x, y);
      }
    } else if y in B {
      Ends(B, brk, y, brk);
    }
  }

  lemma ExtendTiling(B: Blocks, brk: int, size: int)
    requires Tiling(B, brk) && size % 8 == 0 && size >= 16
    ensures Tiling(B[brk := Block(size, true)], brk + size)
  {
    var B' := B[brk := Block(size, true)];
    Ends(B, brk, DUMMY, brk);
    forall x {:trigger WellSized(B', brk + size, x)} | x in B'
      ensures WellSized(B', brk + size, x)
    {
      assert x != brk ==> WellSized(B, brk, x);
    }
    forall z {:trigger HasPrev(B', z)} | (z in B' || z == brk + size) && z > PROLOGUE
      ensures HasPrev(B', z)
    {
      ExtendPrev(B, brk, size, z);
    }
    forall x, y
      ensures Apart(B', x, y)
    {
      ExtendApart(B, brk, size, x, y);
    }
  }

  lemma ExtendTiles(m: Words, B: Blocks, brk: int, size: int)
    requires Tiles(m, B, brk) && Backed(m, brk + size) && size % 8 == 0 && size >= 16
    ensures Tiles(ExtendWords(m, brk, size), B[brk := Block(size, true)], brk + size)
  {
    ExtendTiling(B, brk, size);
    var B', m' := B[brk := Block(size, true)], ExtendWords(m, brk, size);
    forall x {:trigger TagsOf(m', B', x)} | x in B'
      ensures TagsOf(m', B', x)
    {
      if x != brk {
        assert TagsOf(m, B, x);
        Ends(B, brk, x, brk);
      }
    }
    assert Backed(m', brk + size);
  }

  lemma ExtendKeeps(m: Words, B: Blocks, brk: int, F: seq<int>, size: int)
    requires Tiles(m, B, brk) && size % 8 == 0 && size >= 16
    requires AllFree(F, B) && Ring(m, F)
    ensures Ring(ExtendWords(m, brk, size), F)
    ensures Kept(B, m, ExtendWords(m, brk, size))
  {
    EndNotLink(B, brk, F, brk - 4);
    EndNotLink(B, brk, F, brk + size - 8);
    EndNotLink(B, brk, F, brk + size - 4);
    RingFrame(m, ExtendWords(m, brk, size), F);
    forall x, q | LiveWord(B, x, q)
      ensures q in m && q < brk - 4
    {
      LiveBacked(m, B, brk, x, q);
      Ends(B, brk, x, brk);
    }
  }

  // ---------- Reading the tags ----------

  /** What HDRP and FTRP of a block lead to. */
  lemma BlockTags(m: Words, B: Blocks, brk: int, x: int)
    requires Tiles(m, B, brk) && x in B
    ensures 8 <= x && 8 <= B[x].size && x + B[x].size <= brk && x % 8 == 0 && B[x].size % 8 == 0
    ensures x - 4 in m && SizeOf(m[x - 4]) == B[x].size
    ensures AllocOf(m[x - 4]) == if B[x].free then 0 else 1
    ensures x + B[x].size - 8 in m && SizeOf(m[x + B[x].size - 8]) == B[x].size
    ensures AllocOf(m[x + B[x].size - 8]) == if B[x].free then 0 else 1
  {
    hide SizeOf, AllocOf, Tag;
    Ends(B, brk, x, brk);
    assert TagsOf(m, B, x);
    TagSize(B[x]);
  }

  /** A block after the prologue has room for two links. */
  lemma BlockLinks(m: Words, B: Blocks, brk: int, x: int)
    requires Tiles(m, B, brk) && x in B && x > PROLOGUE
    ensures x in m && x + 4 in m
  {
    Ends(B, brk, x, brk);
    assert WordAddress(x, brk) && WordAddress(x + 4, brk);
  }

  /** PREV_BLKP of a block, or of the end of the heap, leads to the block before. */
  lemma PrevTags(m: Words, B: Blocks, brk: int, z: int)
    requires Tiles(m, B, brk) && (z in B || z == brk) && z > PROLOGUE
    ensures HasPrev(B, z)
    ensures z - 8 in m && z - SizeOf(m[z - 8]) == PrevOf(B, z)
  {
    assert HasPrev(B, z);
    BlockTags(m, B, brk, PrevOf(B, z));
  }

  lemma PrevUnique(B: Blocks, brk: int, z: int, y: int)
    requires Tiling(B, brk) && y in B && y + B[y].size == z
    ensures HasPrev(B, z) && PrevOf(B, z) == y
  {
    assert HasPrev(B, z);
    Ends(B, brk, y, PrevOf(B, z));
    Ends(B, brk, PrevOf(B, z), y);
  }

  // ---------- coalesce ----------

  /** Where the block starts into which coalesce puts bp: at a free block just before bp, else at bp. */
  ghost function Lo(B: Blocks, bp: int): int {
    if HasPrev(B, bp) && B[PrevOf(B, bp)].free then PrevOf(B, bp) else bp
  }

  /** Where that block ends: at the end of a free block just after bp, else at the end of bp. */
  ghost function Hi(B: Blocks, bp: int): int
    requires bp in B
  {
    var next := bp + B[bp].size;
    if next in B && B[next].free then next + B[next].size else next
  }

  /** The free list without the free neighbours of bp. */
  ghost function Unlisted(B: Blocks, F: seq<int>, bp: int): seq<int>
    requires bp in B
  {
    var F1 := if Lo(B, bp) != bp then Without(F, Lo(B, bp)) else F;
    if Hi(B, bp) != bp + B[bp].size then Without(F1, bp + B[bp].size) else F1
  }

  /** The words after coalesce has unlinked the free neighbours of bp. */
  ghost function UnlistedWords(m: Words, B: Blocks, bp: int): Words
    requires bp in B
  {
    var m1 := if Lo(B, bp) != bp then Unlink(m, Lo(B, bp)) else m;
    if Hi(B, bp) != bp + B[bp].size then Unlink(m1, bp + B[bp].size) else m1
  }

  /** The words after the tags of the merged block have been written, when there is one. */
  ghost function MergedWords(m: Words, B: Blocks, bp: int): Words
    requires bp in B
  {
    var m2 := UnlistedWords(m, B, bp);
    if Lo(B, bp) == bp && Hi(B, bp) == bp + B[bp].size then m2
    else PutTags(m2, Lo(B, bp), Hi(B, bp), true)
  }

  ghost function CoalesceWords(m: Words, B: Blocks, bp: int): Words
    requires bp in B
  {
    Link(MergedWords(m, B, bp), Lo(B, bp))
  }

  /** The blocks after coalesce. */
  ghost function Merged(B: Blocks, bp: int): Blocks
    requires bp in B
  {
    Fuse(B, Lo(B, bp), Hi(B, bp), true)
  }

  lemma UnlinkStep(m: Words, B: Blocks, brk: int, F: seq<int>, b: int)
    requires Tiles(m, B, brk) && AllFree(F, B) && Ring(m, F) && b in F
    ensures Tiles(Unlink(m, b), B, brk) && AllFree(Without(F, b), B) && Ring(Unlink(m, b), Without(F, b))
    ensures Kept(B, m, Unlink(m, b))
  {
    UnlinkListed(m, F, b);
    WithoutMembers(F, b);
    LinksOnlyTiles(m, Unlink(m, b), B, brk, F);
    LinksOnlyKept(m, Unlink(m, b), B, brk, F);
  }

  lemma LinkStep(m: Words, B: Blocks, brk: int, F: seq<int>, b: int)
    requires Tiles(m, B, brk) && AllFree(F, B) && Ring(m, F)
    requires b in B && B[b].free && b !in F
    ensures Tiles(Link(m, b), B, brk) && AllFree([b] + F, B) && Ring(Link(m, b), [b] + F)
    ensures Kept(B, m, Link(m, b))
  {
    BlockTags(m, B, brk, b);
    Ends(B, brk, DUMMY, b);
    Ends(B, brk, b, DUMMY);
    BlockLinks(m, B, brk, b);
    LinkRing(m, F, b);
    LinksOnlyTiles(m, Link(m, b), B, brk, [b] + F);
    LinksOnlyKept(m, Link(m, b), B, brk, [b] + F);
  }

  lemma FuseStep(m: Words, B: Blocks, brk: int, F: seq<int>, a: int, e: int)
    requires Tiles(m, B, brk) && AllFree(F, B) && Ring(m, F)
    requires a in B && a < e && HasPrev(B, e) && (e in B || e == brk)
    requires forall x :: x in B && a <= x < e ==> B[x].free && x !in F
    ensures Tiles(PutTags(m, a, e, true), Fuse(B, a, e, true), brk)
    ensures AllFree(F, Fuse(B, a, e, true)) && Ring(PutTags(m, a, e, true), F)
    ensures Kept(B, m, PutTags(m, a, e, true))
  {
    var y := PrevOf(B, e);
    Ends(B, brk, a, y);
    Ends(B, brk, y, a);
    Ends(B, brk, a, DUMMY);
    BlockTags(m, B, brk, a);
    BlockTags(m, B, brk, y);
    FuseTiles(m, B, brk, a, e, true);
    TagsNotLinks(B, brk, F, a);
    TagsNotLinks(B, brk, F, y);
    RingFrame(m, PutTags(m, a, e, true), F);
    var t := Tag(Block(e - a, true));
    PutKept(m, B, brk, a, a - 4, t);
    PutKept(m[a - 4 := t], B, brk, y, e - 8, t);
    KeptTrans(B, m, m[a - 4 := t], PutTags(m, a, e, true));
  }
}
