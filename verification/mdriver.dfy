/** The validity test of mdriver.c: it replays a trace of requests against the allocator and
    checks, after each one, what the allocator promises.  Here it is shown when the test fails:
    for want of memory, and by an alarm of its own at some reallocations. */
module MDriver {
  import opened Arithmetic
  import opened MemLib
  import opened HeapLayout
  import opened Placing
  import opened MM

  const ALIGNMENT := 8

  datatype Op = Alloc(index: nat, size: nat) | Realloc(index: nat, size: nat) | Free(index: nat)

  type Payload = map<int, seq<Byte>>

  /** The addresses and the sizes of the blocks of a trace, by index. */
  type Starts = map<nat, int>
  type Sizes = map<nat, nat>

  datatype Range = Range(lo: int, hi: int)

  datatype Verdict = Passed | InitFailed | MallocFailed | ReallocFailed | BadRange | LostData

  /** A trace asks for at least one byte, allocates an index that is not in use, and reallocates
      and frees indices that are. */
  ghost predicate WellFormed(ops: seq<Op>, used: set<nat>) {
    ops == [] || match ops[0]
      case Alloc(i, n) => n > 0 && i !in used && WellFormed(ops[1..], used + {i})
      case Realloc(i, n) => n > 0 && i in used && WellFormed(ops[1..], used)
      case Free(i) => i in used && WellFormed(ops[1..], used - {i})
  }

  /** The sizes of the indices in use after a trace. */
  ghost function Held(ops: seq<Op>): Sizes {
    if ops == [] then map[] else
      var held := Held(ops[..|ops| - 1]);
      match ops[|ops| - 1]
      case Alloc(i, n) => held[i := n]
      case Realloc(i, n) => held[i := n]
      case Free(i) => held - {i}
  }

  /** How far the heap can grow in the course of a trace. */
  ghost function Growth(ops: seq<Op>): nat {
    if ops == [] then 0 else
      var op := ops[|ops| - 1];
      Growth(ops[..|ops| - 1]) + if op.Free? then 0 else ExtendSize(AdjustedSize(op.size))
  }

  lemma GrowthNext(ops: seq<Op>, k: nat)
    requires k < |ops|
    ensures Growth(ops[..k + 1]) == Growth(ops[..k]) + if ops[k].Free? then 0 else ExtendSize(AdjustedSize(ops[k].size))
  {
    assert ops[..k + 1][..k] == ops[..k];
  }

  lemma {:induction false} GrowthGrows(ops: seq<Op>, k: nat)
    requires k <= |ops|
    ensures Growth(ops[..k]) <= Growth(ops)
  {
    if k < |ops| {
      assert ops[..|ops| - 1][..k] == ops[..k];
      GrowthGrows(ops[..|ops| - 1], k);
    } else {
      assert ops[..k] == ops;
    }
  }

  /** Request k is the last one of index i. */
  ghost predicate LastUse(ops: seq<Op>, i: nat, k: int) {
    0 <= k < |ops| && ops[k].index == i && forall j :: k < j < |ops| ==> ops[j].index != i
  }

  /** An index is in use exactly when its last request does not free it, with the size of that request. */
  lemma {:induction false} HeldMeans(ops: seq<Op>, i: nat)
    ensures i in Held(ops) <==> exists k :: LastUse(ops, i, k) && !ops[k].Free?
    ensures forall k :: LastUse(ops, i, k) && !ops[k].Free? ==> i in Held(ops) && Held(ops)[i] == ops[k].size
  {
    if ops != [] {
      var n := |ops| - 1;
      if ops[n].index == i {
        assert LastUse(ops, i, n);
      } else {
        HeldMeans(ops[..n], i);
        assert forall k :: LastUse(ops, i, k) <==> LastUse(ops[..n], i, k);
      }
    }
  }

  /** Requests of at most n bytes let the heap grow by no more than a chunk or a block each. */
  lemma {:induction false} GrowthBound(ops: seq<Op>, n: nat)
    requires forall op :: op in ops && !op.Free? ==> op.size <= n
    ensures Growth(ops) <= |ops| * Max(n + 16, CHUNKSIZE)
  {
    if ops != [] {
      var before, m := ops[..|ops| - 1], Max(n + 16, CHUNKSIZE);
      GrowthBound(before, n);
      assert ops[|ops| - 1] in ops;
      assert |ops| * m == |before| * m + m;
    }
  }

  lemma HeldNext(ops: seq<Op>, k: nat)
    requires k < |ops|
    ensures Held(ops[..k + 1]) == match ops[k]
                                  case Alloc(i, n) => Held(ops[..k])[i := n]
                                  case Realloc(i, n) => Held(ops[..k])[i := n]
                                  case Free(i) => Held(ops[..k]) - {i}
  {
    assert ops[..k + 1][..k] == ops[..k];
  }

  /** A byte as a plain char, which is signed where gcc builds the driver for the x86. */
  function CharValue(b: Byte): int { if b < 128 then b else b - 256 }

  /** The n bytes that a reallocation has to keep are still in some live block, each the low byte of its index. */
  ghost predicate DataKept(P: Payload, op: Op, n: nat) {
    exists p :: p in P && AllBytes(P[p], n, op.index % 256)
  }

  /** A trace of two requests at which the driver raises its alarm. */
  const MISREAD_TRACE: seq<Op> := [Alloc(128, 1), Realloc(128, 2)]

  lemma MisreadTrace()
    ensures WellFormed(MISREAD_TRACE, {}) && MISREAD_TRACE[1].index % 256 >= 128
    ensures Growth(MISREAD_TRACE) == 2 * CHUNKSIZE
  {
    var ops := MISREAD_TRACE;
    assert ops[1..][1..] == [];
    assert WellFormed(ops[1..][1..], {128});
    assert WellFormed(ops[1..], {} + {128});
    assert ops[..0] == [] && ops[..2] == ops;
    GrowthNext(ops, 0);
    GrowthNext(ops, 1);
  }

  /** The live blocks are exactly those of the used indices, each filled with the byte of its index. */
  ghost predicate Filled(P: Payload, used: set<nat>, blocks: Starts, sizes: Sizes) {
    && used <= blocks.Keys && used <= sizes.Keys
    && (forall i :: i in used ==> blocks[i] in P && 0 < sizes[i] <= |P[blocks[i]]|)
    && (forall i :: i in used ==> AllBytes(P[blocks[i]], sizes[i], i % 256))
    && (forall i, j :: i in used && j in used && blocks[i] == blocks[j] ==> i == j)
    && (forall p :: p in P ==> exists i :: i in used && blocks[i] == p)
  }

  ghost predicate AllBytes(s: seq<Byte>, n: nat, v: Byte) {
    n <= |s| && forall k :: 0 <= k < n ==> s[k] == v
  }

  /** The recorded ranges are those of the used indices, and no two start at the same address. */
  ghost predicate Recorded(ranges: seq<Range>, used: set<nat>, blocks: Starts, sizes: Sizes) {
    && used <= blocks.Keys && used <= sizes.Keys
    && (forall r :: r in ranges ==> exists i :: i in used && r == Range(blocks[i], blocks[i] + sizes[i] - 1))
    && (forall i :: i in used ==> Range(blocks[i], blocks[i] + sizes[i] - 1) in ranges)
    && StartsApart(ranges)
  }

  ghost predicate StartsApart(ranges: seq<Range>) {
    forall a, b :: 0 <= a < b < |ranges| ==> ranges[a].lo != ranges[b].lo
  }

  /** Block i is given payload p, of which the first n bytes have been filled. */
  lemma FilledGain(P: Payload, P': Payload, used: set<nat>, blocks: Starts, sizes: Sizes, i: nat, p: int, n: nat)
    requires Filled(P, used - {i}, blocks, sizes) && n > 0
    requires p in P' && AllBytes(P'[p], n, i % 256)
    requires forall j :: j in used && j != i ==> blocks[j] != p && blocks[j] in P' && P'[blocks[j]] == P[blocks[j]]
    requires forall q :: q in P' ==> q in P || q == p
    ensures Filled(P', used + {i}, blocks[i := p], sizes[i := n])
  {
    var blocks' := blocks[i := p];
    OthersUsed(P, P', used, blocks, blocks', i, p);
  }

  lemma OthersUsed(P: Payload, P': Payload, used: set<nat>, blocks: Starts, blocks': Starts, i: nat, p: int)
    requires used - {i} <= blocks.Keys && (forall q :: q in P ==> exists j :: j in used - {i} && blocks[j] == q)
    requires blocks' == blocks[i := p] && forall q :: q in P' ==> q in P || q == p
    ensures forall q :: q in P' ==> exists j :: j in used + {i} && blocks'[j] == q
  {
    forall q | q in P'
      ensures exists j :: j in used + {i} && blocks'[j] == q
    {
      var j: nat := i;
      if q != p {
        j :| j in used - {i} && blocks[j] == q;
      }
      assert j in used + {i} && blocks'[j] == q;
    }
  }

  lemma RecordedGain(ranges: seq<Range>, used: set<nat>, blocks: Starts, sizes: Sizes, i: nat, p: int, n: nat)
    requires Recorded(ranges, used - {i}, blocks, sizes)
    requires forall r :: r in ranges ==> r.lo != p
    ensures Recorded([Range(p, p + n - 1)] + ranges, used + {i}, blocks[i := p], sizes[i := n])
  {
    var blocks', sizes' := blocks[i := p], sizes[i := n];
    var ranges', used' := [Range(p, p + n - 1)] + ranges, used + {i};
    forall r | r in ranges'
      ensures exists j :: j in used' && r == Range(blocks'[j], blocks'[j] + sizes'[j] - 1)
    {
      var j: nat := i;
      if r in ranges && r.lo != p {
        j :| j in used - {i} && r == Range(blocks[j], blocks[j] + sizes[j] - 1);
      }
      assert j in used' && r == Range(blocks'[j], blocks'[j] + sizes'[j] - 1);
    }
    assert Range(p, p + n - 1) == ranges'[0];
  }

  /** What realloc keeps of a filled block is filled. */
  lemma PrefixFilled(s: seq<Byte>, t: seq<Byte>, size: nat, n: nat, v: Byte)
    requires AllBytes(s, size, v) && forall k :: 0 <= k < n && k < |s| ==> k < |t| && t[k] == s[k]
    ensures AllBytes(t, if n < size then n else size, v)
  {
    var c := Min(n, size);
    assert c > 0 ==> s[c - 1] == v;
  }

  /** Block i is given up. */
  lemma FilledLoss(P: Payload, P': Payload, used: set<nat>, blocks: Starts, sizes: Sizes, i: nat)
    requires Filled(P, used, blocks, sizes) && i in used
    requires P' == P - {blocks[i]}
    ensures Filled(P', used - {i}, blocks, sizes)
  {
    forall q | q in P'
      ensures exists j :: j in used - {i} && blocks[j] == q
    {
      var j :| j in used && blocks[j] == q;
      assert j in used - {i};
    }
  }

  lemma RecordedLoss(ranges: seq<Range>, ranges': seq<Range>, used: set<nat>, blocks: Starts, sizes: Sizes, i: nat)
    requires Recorded(ranges, used, blocks, sizes) && i in used
    requires forall j :: j in used && j != i ==> blocks[j] != blocks[i]
    requires ranges' == WithoutFirst(ranges, blocks[i])
    ensures Recorded(ranges', used - {i}, blocks, sizes)
    ensures forall r :: r in ranges' ==> r.lo != blocks[i]
  {
    WithoutFirstMeans(ranges, blocks[i]);
    forall r | r in ranges'
      ensures exists j :: j in used - {i} && r == Range(blocks[j], blocks[j] + sizes[j] - 1)
    {
      var j :| j in used && r == Range(blocks[j], blocks[j] + sizes[j] - 1);
      assert j in used - {i};
    }
  }

  /** The records without the first one that starts at lo. */
  function WithoutFirst(ranges: seq<Range>, lo: int): seq<Range> {
    if ranges == [] then []
    else if ranges[0].lo == lo then ranges[1..]
    else [ranges[0]] + WithoutFirst(ranges[1..], lo)
  }

  /** Of records with distinct starts, exactly the one that starts at lo is gone. */
  lemma {:induction false} WithoutFirstMeans(ranges: seq<Range>, lo: int)
    requires StartsApart(ranges)
    ensures forall r :: r in WithoutFirst(ranges, lo) <==> r in ranges && r.lo != lo
    ensures StartsApart(WithoutFirst(ranges, lo))
  {
    if ranges != [] {
      var first, others := ranges[0], ranges[1..];
      assert ranges == [first] + others;
      OthersApart(first, others);
      WithoutFirstMeans(others, lo);
      if first.lo != lo {
        OthersApart(first, WithoutFirst(others, lo));
      }
    }
  }

  lemma OthersApart(first: Range, others: seq<Range>)
    ensures StartsApart([first] + others) <==> StartsApart(others) && forall r :: r in others ==> r.lo != first.lo
  {
    var ranges := [first] + others;
    if StartsApart(ranges) {
      forall k | 0 <= k < |others|
        ensures others[k].lo != first.lo && forall j :: 0 <= j < k ==> others[j].lo != others[k].lo
      {
        assert ranges[k + 1] == others[k] && ranges[0] == first;
        assert forall j :: 0 <= j < k ==> others[j] == ranges[j + 1];
      }
    } else {
      var a, b :| 0 <= a < b < |ranges| && ranges[a].lo == ranges[b].lo;
      assert ranges[b] == others[b - 1];
      assert a > 0 ==> ranges[a] == others[a - 1];
    }
  }

  lemma {:induction false} WithoutFirstAt(ranges: seq<Range>, lo: int, k: nat)
    requires k <= |ranges| && forall j :: 0 <= j < k ==> ranges[j].lo != lo
    requires k < |ranges| ==> ranges[k].lo == lo
    ensures WithoutFirst(ranges, lo) == if k < |ranges| then ranges[..k] + ranges[k + 1..] else ranges
  {
    if k > 0 {
      WithoutFirstAt(ranges[1..], lo, k - 1);
    }
  }

  ghost predicate Agree(used: set<nat>, sizes: Sizes, held: Sizes) {
    used == held.Keys && used <= sizes.Keys && forall i :: i in used ==> sizes[i] == held[i]
  }

  lemma NoneHeld(ops: seq<Op>, P: Payload)
    requires P == map[]
    ensures Agree({}, map[], Held(ops[..0])) && Filled(P, {}, map[], map[]) && Recorded([], {}, map[], map[])
    ensures ops[0..] == ops
  {
  }

  /** The indices in use after an operation. */
  ghost function Using(op: Op, used: set<nat>): set<nat> {
    match op
    case Alloc(i, _) => used + {i}
    case Realloc(_, _) => used
    case Free(i) => used - {i}
  }

  /** What a trace owes its next operation, and what the bookkeeping of that operation keeps. */
  lemma OpNext(ops: seq<Op>, k: nat, used: set<nat>, sizes: Sizes)
    requires k < |ops| && WellFormed(ops[k..], used) && Agree(used, sizes, Held(ops[..k]))
    ensures ops[k].Alloc? <==> ops[k].index !in used
    ensures !ops[k].Free? ==> ops[k].size > 0
    ensures WellFormed(ops[k + 1..], Using(ops[k], used))
    ensures var sizes' := if ops[k].Free? then sizes else sizes[ops[k].index := ops[k].size];
            Agree(Using(ops[k], used), sizes', Held(ops[..k + 1]))
  {
    assert ops[k..][0] == ops[k] && ops[k..][1..] == ops[k + 1..];
    HeldNext(ops, k);
  }

  lemma FilledHeld(P: Payload, used: set<nat>, blocks: Starts, sizes: Sizes, held: Sizes)
    requires Filled(P, used, blocks, sizes) && Agree(used, sizes, held)
    ensures Filled(P, held.Keys, blocks, held)
    ensures forall i, k :: i in held && 0 <= k < held[i] ==>
                             i in blocks && blocks[i] in P && k < |P[blocks[i]]| && P[blocks[i]][k] == i % 256
  {
  }

  lemma DataHeld(P: Payload, used: set<nat>, sizes: Sizes, held: Sizes, op: Op)
    requires Agree(used, sizes, held) && op.Realloc? && op.index in used
    requires DataKept(P, op, Min(op.size, sizes[op.index]))
    ensures op.index in held && DataKept(P, op, Min(op.size, held[op.index]))
  {
  }

  class Driver {
    const mm: Allocator

    constructor (mm: Allocator)
      ensures this.mm == mm
    {
      this.mm := mm;
    }

    /** memset of the first n bytes of a payload. */
    method Memset(p: int, v: Byte, n: nat)
      requires mm.Valid() && p in mm.Payload() && n <= |mm.Payload()[p]|
      modifies mm.mem`words, mm.mem.bytes
      ensures mm.Valid()
      ensures mm.Payload().Keys == old(mm.Payload().Keys)
      ensures forall q :: q in mm.Payload() && q != p ==> mm.Payload()[q] == old(mm.Payload())[q]
      ensures |mm.Payload()[p]| == |old(mm.Payload())[p]| && AllBytes(mm.Payload()[p], n, v)
      ensures mm.Payload()[p][n..] == old(mm.Payload())[p][n..]
    {
      hide Payloads, Tiles, Ring, Lists, Coalesced;
      var i := 0;
      while i < n
        invariant 0 <= i <= n && mm.Valid()
        invariant mm.Payload().Keys == old(mm.Payload().Keys)
        invariant forall q :: q in mm.Payload() && q != p ==> mm.Payload()[q] == old(mm.Payload())[q]
        invariant |mm.Payload()[p]| == |old(mm.Payload())[p]| && AllBytes(mm.Payload()[p], i, v)
        invariant mm.Payload()[p][n..] == old(mm.Payload())[p][n..]
      {
        mm.ClientStore(p, i, v);
        i := i + 1;
      }
    }

    /** The driver's check that the first n chars of a payload are v, which no char is from 128 on. */
    method HoldsBytes(p: int, v: Byte, n: nat) returns (ok: bool)
      requires mm.Valid() && p in mm.Payload() && n <= |mm.Payload()[p]|
      ensures ok <==> AllBytes(mm.Payload()[p], n, v) && (n == 0 || v < 128)
      ensures ok <==> forall k :: 0 <= k < n ==> mm.Payload()[p][k] == v && v < 128
    {
      hide Payloads, Tiles, Ring, Lists, Coalesced;
      var j := 0;
      while j < n
        invariant 0 <= j <= n && AllBytes(mm.Payload()[p], j, v) && (j == 0 || v < 128)
      {
        var b := mm.ClientLoad(p, j);
        if CharValue(b) != v {
          return false;
        }
        j := j + 1;
      }
      return true;
    }

    /** add_range: the three tests of a payload from lo on, and its record. */
    method AddRange(ranges: seq<Range>, lo: int, size: nat) returns (ok: bool, ranges': seq<Range>)
      requires size > 0
      ensures ok <==>
                && lo % ALIGNMENT == 0
                && 0 <= lo && lo + size <= mm.mem.brk
                && forall r :: r in ranges ==> !(r.lo <= lo <= r.hi) && !(r.lo <= lo + size - 1 <= r.hi)
      ensures ranges' == if ok then [Range(lo, lo + size - 1)] + ranges else ranges
    {
      var hi := lo + size - 1;
      ranges' := ranges;
      if lo % ALIGNMENT != 0 {
        return false, ranges;
      }
      var heapLo, heapHi := 0, mm.mem.brk - 1;
      if lo < heapLo || lo > heapHi || hi < heapLo || hi > heapHi {
        return false, ranges;
      }
      var k := 0;
      while k < |ranges|
        invariant 0 <= k <= |ranges|
        invariant forall j :: 0 <= j < k ==>
                                !(ranges[j].lo <= lo <= ranges[j].hi) && !(ranges[j].lo <= hi <= ranges[j].hi)
      {
        var r := ranges[k];
        if (lo >= r.lo && lo <= r.hi) || (hi >= r.lo && hi <= r.hi) {
          return false, ranges;
        }
        k := k + 1;
      }
      return true, [Range(lo, hi)] + ranges;
    }

    /** remove_range: drop the first record that starts at lo, if there is one. */
    method RemoveRange(ranges: seq<Range>, lo: int) returns (ranges': seq<Range>)
      ensures ranges' == WithoutFirst(ranges, lo)
    {
      var k := 0;
      while k < |ranges| && ranges[k].lo != lo
        invariant 0 <= k <= |ranges|
        invariant forall j :: 0 <= j < k ==> ranges[j].lo != lo
      {
        k := k + 1;
      }
      WithoutFirstAt(ranges, lo, k);
      return if k < |ranges| then ranges[..k] + ranges[k + 1..] else ranges;
    }

    /** eval_mm_valid; at is the number of requests that have passed all tests.  The allocator is never
        at fault: the test stops where there is no room, or at a misread reallocation that has kept the
        data.  Where there is room for every request, it passes exactly the traces without those. */
    method EvalMmValid(ops: seq<Op>) returns (verdict: Verdict, at: nat, blocks: Starts)
      requires mm.mem.Valid() && WellFormed(ops, {})
      modifies mm, mm.mem, mm.mem.bytes
      ensures verdict != BadRange
      ensures verdict == InitFailed <==> 32 + CHUNKSIZE > mm.mem.maxHeap
      ensures at <= |ops| && forall k :: 0 <= k < at && ops[k].Realloc? ==> ops[k].index % 256 < 128
      ensures verdict == Passed ==> at == |ops|
      ensures verdict == MallocFailed ==> at < |ops| && ops[at].Alloc? && mm.NoRoom(ops[at].size)
      ensures verdict == ReallocFailed ==> at < |ops| && ops[at].Realloc? && mm.NoRoom(ops[at].size)
      ensures verdict == LostData ==>
                && at < |ops| && ops[at].Realloc? && ops[at].index % 256 >= 128
                && mm.Valid() && ops[at].index in Held(ops[..at])
                && exists p :: p in mm.Payload() &&
                     AllBytes(mm.Payload()[p], Min(ops[at].size, Held(ops[..at])[ops[at].index]), ops[at].index % 256)
      ensures verdict != InitFailed && verdict != LostData ==>
                mm.Valid() && Filled(mm.Payload(), Held(ops[..at]).Keys, blocks, Held(ops[..at]))
      ensures verdict != InitFailed && verdict != LostData ==>
                forall i, k :: i in Held(ops[..at]) && 0 <= k < Held(ops[..at])[i] ==>
                                 && i in blocks && blocks[i] in mm.Payload() && k < |mm.Payload()[blocks[i]]|
                                 && mm.Payload()[blocks[i]][k] == i % 256
      ensures 32 + CHUNKSIZE + Growth(ops) <= mm.mem.maxHeap ==>
                && verdict in {Passed, LostData}
                && (verdict == Passed <==> forall k :: 0 <= k < |ops| && ops[k].Realloc? ==> ops[k].index % 256 < 128)
    {
      hide Payloads, Tiles, Ring, Lists, Coalesced, Filled, Recorded, Agree, Held, WellFormed;
      hide Growth, ExtendSize, AdjustedSize;
      mm.mem.ResetBrk();
      var ret := mm.MmInit();
      blocks := map[];
      at := 0;
      if ret < 0 {
        return InitFailed, at, blocks;
      }
      var ranges: seq<Range> := [];
      var sizes: Sizes := map[];
      ghost var used: set<nat> := {};
      NoneHeld(ops, mm.Payload());
      while at < |ops|
        invariant 0 <= at <= |ops| && WellFormed(ops[at..], used)
        invariant mm.Valid() && Agree(used, sizes, Held(ops[..at]))
        invariant mm.mem.brk <= 32 + CHUNKSIZE + Growth(ops[..at])
        invariant forall k :: 0 <= k < at && ops[k].Realloc? ==> ops[k].index % 256 < 128
        invariant Filled(mm.Payload(), used, blocks, sizes) && Recorded(ranges, used, blocks, sizes)
      {
        OpNext(ops, at, used, sizes);
        GrowthNext(ops, at);
        GrowthGrows(ops, at + 1);
        match ops[at] {
        case Alloc(i, n) =>
          verdict, ranges, blocks, sizes := DoAlloc(i, n, ranges, blocks, sizes, used);
          if verdict != Passed {
            assert 32 + CHUNKSIZE + Growth(ops) > mm.mem.maxHeap;
            FilledHeld(mm.Payload(), used, blocks, sizes, Held(ops[..at]));
            return;
          }
          used := used + {i};
        case Realloc(i, n) =>
          verdict, ranges, blocks, sizes := DoRealloc(i, n, ranges, blocks, sizes, used);
          if verdict == LostData {
            DataHeld(mm.Payload(), used, sizes, Held(ops[..at]), ops[at]);
            return;
          } else if verdict != Passed {
            assert 32 + CHUNKSIZE + Growth(ops) > mm.mem.maxHeap;
            FilledHeld(mm.Payload(), used, blocks, sizes, Held(ops[..at]));
            return;
          }
        case Free(i) =>
          ranges := DoFree(i, ranges, blocks, sizes, used);
          used := used - {i};
        }
        at := at + 1;
      }
      FilledHeld(mm.Payload(), used, blocks, sizes, Held(ops[..at]));
      return Passed, at, blocks;
    }

    /** Two requests are enough for the alarm. */
    method EvalMisreadTrace() returns (verdict: Verdict)
      requires mm.mem.Valid() && 32 + 3 * CHUNKSIZE <= mm.mem.maxHeap
      modifies mm, mm.mem, mm.mem.bytes
      ensures verdict == LostData
    {
      MisreadTrace();
      var at, blocks;
      verdict, at, blocks := EvalMmValid(MISREAD_TRACE);
    }

    method DoFree(i: nat, ranges: seq<Range>, blocks: Starts, sizes: Sizes, ghost used: set<nat>)
      returns (ranges': seq<Range>)
      requires mm.Valid() && i in used
      requires Filled(mm.Payload(), used, blocks, sizes) && Recorded(ranges, used, blocks, sizes)
      modifies mm, mm.mem, mm.mem.bytes
      ensures mm.Valid() && mm.mem.brk == old(mm.mem.brk)
      ensures Filled(mm.Payload(), used - {i}, blocks, sizes) && Recorded(ranges', used - {i}, blocks, sizes)
    {
      hide Payloads, Tiles, Ring, Lists, Coalesced;
      var p := blocks[i];
      ranges' := RemoveRange(ranges, p);
      RecordedLoss(ranges, ranges', used, blocks, sizes, i);
      FilledLoss(mm.Payload(), mm.Payload() - {p}, used, blocks, sizes, i);
      mm.MmFree(p);
    }

    method DoAlloc(i: nat, n: nat, ranges: seq<Range>, blocks: Starts, sizes: Sizes, ghost used: set<nat>)
      returns (verdict: Verdict, ranges': seq<Range>, blocks': Starts, sizes': Sizes)
      requires mm.Valid() && i !in used && n > 0
      requires Filled(mm.Payload(), used, blocks, sizes) && Recorded(ranges, used, blocks, sizes)
      modifies mm, mm.mem, mm.mem.bytes
      ensures mm.Valid() && verdict in {Passed, MallocFailed}
      ensures old(mm.mem.brk) <= mm.mem.brk <= old(mm.mem.brk) + ExtendSize(AdjustedSize(n))
      ensures verdict == Passed ==>
                && Filled(mm.Payload(), used + {i}, blocks', sizes') && Recorded(ranges', used + {i}, blocks', sizes')
                && sizes' == sizes[i := n]
      ensures verdict == MallocFailed <==> old(mm.NoRoom(n))
      ensures verdict == MallocFailed ==>
                mm.NoRoom(n) && mm.Payload() == old(mm.Payload()) && blocks' == blocks && sizes' == sizes
    {
      hide Payloads, Tiles, Ring, Lists, Coalesced, Recorded, AllBytes;
      ranges', blocks', sizes' := ranges, blocks, sizes;
      ghost var P := mm.Payload();
      var p := mm.MmMalloc(n);
      if p == NULL {
        return MallocFailed, ranges, blocks, sizes;
      }
      forall j | j in used
        ensures blocks[j] in mm.Payload() && mm.Payload()[blocks[j]] == P[blocks[j]]
      {
        var q := blocks[j];
        assert q in old(mm.Payload()) && mm.Payload()[q] == old(mm.Payload()[q]);
      }
      RangeClear(used, ranges, blocks, sizes, p, n);
      var ok;
      ok, ranges' := AddRange(ranges, p, n);
      if !ok {
        return BadRange, ranges', blocks, sizes;
      }
      Memset(p, i % 256, n);
      assert used - {i} == used;
      FilledGain(P, mm.Payload(), used, blocks, sizes, i, p, n);
      RecordedGain(ranges, used, blocks, sizes, i, p, n);
      blocks', sizes' := blocks[i := p], sizes[i := n];
      verdict := Passed;
    }

    lemma NotNull(p: int)
      requires mm.Valid() && p in mm.Payload()
      ensures p != NULL
    {
      PayloadKeys(mm.B, mm.mem.brk, mm.mem.bytes[..]);
    }

    /** A fresh payload clears the tests of add_range. */
    lemma RangeClear(used: set<nat>, ranges: seq<Range>, blocks: Starts, sizes: Sizes, p: int, n: nat)
      requires mm.Valid() && Recorded(ranges, used, blocks, sizes)
      requires forall i :: i in used ==> blocks[i] in mm.Payload() && 0 < sizes[i] <= |mm.Payload()[blocks[i]]|
      requires p in mm.Payload() && 0 < n <= |mm.Payload()[p]| && forall i :: i in used ==> blocks[i] != p
      ensures 0 < p && p + n <= mm.mem.brk
      ensures forall r :: r in ranges ==> !(r.lo <= p <= r.hi) && !(r.lo <= p + n - 1 <= r.hi) && r.lo != p
    {
      PayloadKeys(mm.B, mm.mem.brk, mm.mem.bytes[..]);
      PayloadBounds(mm.B, mm.mem.brk, p);
      forall r | r in ranges
        ensures !(r.lo <= p <= r.hi) && !(r.lo <= p + n - 1 <= r.hi) && r.lo != p
      {
        var i :| i in used && r == Range(blocks[i], blocks[i] + sizes[i] - 1);
        PayloadsApart(mm.B, mm.mem.brk, mm.mem.bytes[..], blocks[i], p);
      }
    }

    method DoRealloc(i: nat, n: nat, ranges: seq<Range>, blocks: Starts, sizes: Sizes, ghost used: set<nat>)
      returns (verdict: Verdict, ranges': seq<Range>, blocks': Starts, sizes': Sizes)
      requires mm.Valid() && i in used && n > 0
      requires Filled(mm.Payload(), used, blocks, sizes) && Recorded(ranges, used, blocks, sizes)
      modifies mm, mm.mem, mm.mem.bytes
      ensures mm.Valid() && verdict in {Passed, ReallocFailed, LostData}
      ensures verdict == ReallocFailed <==> old(mm.NoRoom(n))
      ensures verdict != ReallocFailed ==> (verdict == LostData <==> i % 256 >= 128)
      ensures verdict == LostData ==>
                exists p :: p in mm.Payload() && AllBytes(mm.Payload()[p], Min(n, sizes[i]), i % 256)
      ensures verdict == LostData ==> sizes' == sizes
      ensures old(mm.mem.brk) <= mm.mem.brk <= old(mm.mem.brk) + ExtendSize(AdjustedSize(n))
      ensures verdict == Passed ==>
                && Filled(mm.Payload(), used, blocks', sizes') && Recorded(ranges', used, blocks', sizes')
                && sizes' == sizes[i := n]
      ensures verdict == ReallocFailed ==>
                mm.NoRoom(n) && mm.Payload() == old(mm.Payload()) && blocks' == blocks && sizes' == sizes
    {
      hide Payloads, Tiles, Ring, Lists, Coalesced, Recorded, AllBytes;
      ranges', blocks', sizes' := ranges, blocks, sizes;
      var oldp := blocks[i];
      ghost var P := mm.Payload();
      NotNull(oldp);
      var newp := mm.MmRealloc(oldp, n);
      if newp == NULL {
        return ReallocFailed, ranges, blocks, sizes;
      }
      ranges' := RemoveRange(ranges, oldp);
      RecordedLoss(ranges, ranges', used, blocks, sizes, i);
      ghost var R := ranges';
      PrefixFilled(P[oldp], mm.Payload()[newp], sizes[i], n, i % 256);
      forall j | j in used - {i}
        ensures mm.Payload()[blocks[j]] == P[blocks[j]]
      {
      }
      RangeClear(used - {i}, ranges', blocks, sizes, newp, n);
      var ok;
      ok, ranges' := AddRange(ranges', newp, n);
      if !ok {
        return BadRange, ranges', blocks, sizes;
      }
      var oldsize := sizes[i];
      if n < oldsize {
        oldsize := n;
      }
      var kept := HoldsBytes(newp, i % 256, oldsize);
      if !kept {
        return LostData, ranges', blocks, sizes;
      }
      Memset(newp, i % 256, n);
      FilledLoss(P, P - {oldp}, used, blocks, sizes, i);
      FilledGain(P - {oldp}, mm.Payload(), used, blocks, sizes, i, newp, n);
      RecordedGain(R, used, blocks, sizes, i, newp, n);
      assert used + {i} == used;
      blocks', sizes' := blocks[i := newp], sizes[i := n];
      verdict := Passed;
    }
  }
}
