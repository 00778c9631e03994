/** The cache simulator of csim.c: every set is a circular doubly linked list of lines,
    most recently used first, with a dummy node as its anchor. */
module CacheSim {
  import opened Arithmetic
  import opened Sequences
  import opened Lru

  class CacheLine {
    var valid: bool
    var tag: nat
    var prev: CacheLine?
    var next: CacheLine?

    constructor ()
      ensures !valid && tag == 0
    {
      valid, tag, prev, next := false, 0, null, null;
    }
  }

  /** The i-th node on the way round a ring: the dummy d, then the lines, then the dummy again. */
  ghost function Node(d: CacheLine, lines: seq<CacheLine>, i: int): CacheLine
    requires 0 <= i <= |lines| + 1
  {
    if i == 0 || i == |lines| + 1 then d else lines[i - 1]
  }

  ghost predicate Linked(d: CacheLine, lines: seq<CacheLine>, R: set<CacheLine>, i: int)
    requires 0 <= i <= |lines|
    reads R`next, R`prev
  {
    var a, b := Node(d, lines, i), Node(d, lines, i + 1);
    a in R && b in R && a.next == b && b.prev == a
  }

  /** A ring of distinct nodes, linked both ways through the dummy. */
  ghost predicate Ring(d: CacheLine, lines: seq<CacheLine>, R: set<CacheLine>)
    reads R`next, R`prev
  {
    && Distinct(lines) && d !in lines && d in R
    && (forall l :: l in lines ==> l in R)
    && (forall i :: 0 <= i <= |lines| ==> Linked(d, lines, R, i))
  }

  lemma RingIn(d: CacheLine, lines: seq<CacheLine>, R: set<CacheLine>, R': set<CacheLine>)
    requires Ring(d, lines, R) && R <= R'
    ensures Ring(d, lines, R')
  {
    forall i | 0 <= i <= |lines|
      ensures Linked(d, lines, R', i)
    {
      assert Linked(d, lines, R, i);
    }
  }

  lemma NodesApart(d: CacheLine, lines: seq<CacheLine>, i: int, j: int)
    requires Distinct(lines) && d !in lines
    requires 0 <= i <= |lines| + 1 && 0 <= j <= |lines| + 1
    ensures Node(d, lines, i) == Node(d, lines, j) <==> i == j || {i, j} == {0, |lines| + 1}
  {
  }

  /** Insert a line after the dummy. */
  method InsertFront(d: CacheLine, ghost lines: seq<CacheLine>, ghost R: set<CacheLine>, line: CacheLine)
    requires Ring(d, lines, R) && line in R && line !in lines && line != d
    modifies R`next, R`prev
    ensures Ring(d, [line] + lines, R)
  {
    assert Linked(d, lines, R, 0);
    label before:
    line.next := d.next;
    line.prev := d;
    d.next.prev := line;
    d.next := line;
    ghost var lines' := [line] + lines;
    forall k | 0 <= k <= |lines'|
      ensures Linked(d, lines', R, k)
    {
      if k > 0 {
        assert old@before(Linked(d, lines, R, k - 1));
        NodesApart(d, lines, k - 1, 0);
        NodesApart(d, lines, k, 1);
      }
    }
  }

  /** Take the i-th line out of the ring. */
  method Unlink(d: CacheLine, ghost lines: seq<CacheLine>, ghost R: set<CacheLine>, line: CacheLine, ghost i: nat)
    requires Ring(d, lines, R) && i < |lines| && lines[i] == line
    modifies R`next, R`prev
    ensures Ring(d, lines[..i] + lines[i + 1..], R)
  {
    assert Linked(d, lines, R, i) && Linked(d, lines, R, i + 1);
    label before:
    line.prev.next := line.next;
    line.next.prev := line.prev;
    ghost var lines' := lines[..i] + lines[i + 1..];
    forall k | 0 <= k <= |lines'|
      ensures Linked(d, lines', R, k)
    {
      UnlinkedNodes(d, lines, i, k);
      var k' := if k <= i then k else k + 1;
      assert old@before(Linked(d, lines, R, k'));
    }
  }

  lemma UnlinkedNodes(d: CacheLine, lines: seq<CacheLine>, i: nat, k: nat)
    requires Distinct(lines) && d !in lines && i < |lines| && k < |lines|
    ensures var lines' := lines[..i] + lines[i + 1..];
            var k', l' := if k <= i then k else k + 1, if k + 1 <= i then k + 1 else k + 2;
            && Node(d, lines', k) == Node(d, lines, k') && Node(d, lines', k + 1) == Node(d, lines, l')
            && (Node(d, lines, k') == Node(d, lines, i) <==> k == i)
            && (Node(d, lines, l') == Node(d, lines, i + 2) <==> k == i)
  {
    var k', l' := if k <= i then k else k + 1, if k + 1 <= i then k + 1 else k + 2;
    NodesApart(d, lines, k', i);
    NodesApart(d, lines, l', i + 2);
  }

  class CacheSet {
    const dummy: CacheLine
    const numLines: nat

    /** The lines from the dummy's successor on, and the tags of the valid ones. */
    ghost var lines: seq<CacheLine>
    ghost var content: seq<nat>
    ghost const repr: set<CacheLine>

    /** Valid lines come first, and their tags are distinct. */
    ghost predicate Valid()
      reads this, repr
    {
      && Ring(dummy, lines, repr)
      && |lines| == numLines && numLines >= 1
      && |content| <= |lines| && Distinct(content)
      && (forall i :: 0 <= i < |content| ==> lines[i].valid && lines[i].tag == content[i])
      && (forall i :: |content| <= i < |lines| ==> !lines[i].valid)
    }

    /** createCacheSet. */
    constructor (E: nat)
      requires E >= 1
      ensures Valid() && numLines == E && content == [] && fresh(repr)
    {
      var d := new CacheLine();
      d.next := d;
      d.prev := d;
      ghost var R, ls: seq<CacheLine> := {d}, [];
      for i := 0 to E
        invariant fresh(R) && Ring(d, ls, R) && |ls| == i
        invariant forall l :: l in ls ==> !l.valid
      {
        var newLine := new CacheLine();
        RingIn(d, ls, R, R + {newLine});
        R := R + {newLine};
        InsertFront(d, ls, R, newLine);
        ls := [newLine] + ls;
      }
      dummy, numLines := d, E;
      lines, content, repr := ls, [], R;
    }

    /** The six stores that take a line out and insert it after the dummy. */
    method MoveToFront(line: CacheLine, ghost i: nat)
      requires Ring(dummy, lines, repr) && i < |lines| && lines[i] == line
      modifies `lines, repr`next, repr`prev
      ensures Ring(dummy, lines, repr) && lines == [line] + old(lines[..i] + lines[i + 1..])
    {
      Unlink(dummy, lines, repr, line, i);
      InsertFront(dummy, lines[..i] + lines[i + 1..], repr, line);
      lines := [line] + (lines[..i] + lines[i + 1..]);
    }

    /** checkAndUpdateSet: a hit moves its line to the front. */
    method CheckAndUpdate(tag: nat) returns (hit: bool)
      requires Valid()
      modifies `lines, `content, repr`next, repr`prev
      ensures Valid()
      ensures hit <==> tag in old(content)
      ensures content == if hit then Touch(old(content), numLines, tag) else old(content)
    {
      assert Linked(dummy, lines, repr, 0);
      var current := dummy.next;
      ghost var i := 0;
      while current != dummy
        invariant 0 <= i <= |lines| && current == Node(dummy, lines, i + 1)
        invariant forall j :: 0 <= j < i && j < |content| ==> content[j] != tag
        invariant unchanged(this) && unchanged(repr)
        decreases |lines| - i
      {
        NodesApart(dummy, lines, i + 1, |lines| + 1);
        if current.valid && current.tag == tag {
          Hit(current, i);
          return true;
        }
        assert Linked(dummy, lines, repr, i + 1);
        current := current.next;
        i := i + 1;
      }
      return false;
    }

    /** A hit in the i-th line. */
    method Hit(line: CacheLine, ghost i: nat)
      requires Valid() && i < |lines| && lines[i] == line && line.valid
      modifies `lines, `content, repr`next, repr`prev
      ensures Valid()
      ensures line.tag in old(content) && content == Touch(old(content), numLines, line.tag)
    {
      hide Ring, Distinct, Without;
      assert i < |content| && content[i] == line.tag;
      WithoutAt(content, i);
      TouchShape(content, numLines, line.tag);
      MoveToFront(line, i);
      content := [line.tag] + (content[..i] + content[i + 1..]);
    }

    /** addOrReplaceLine: the last line takes the tag and moves to the front. */
    method AddOrReplaceLine(tag: nat)
      requires Valid() && tag !in content
      modifies `lines, `content, repr
      ensures Valid()
      ensures content == Touch(old(content), numLines, tag)
    {
      ghost var n := |lines| - 1;
      assert Linked(dummy, lines, repr, n + 1);
      var last := dummy.prev;
      if !last.valid {
        last.valid := true;
        last.tag := tag;
      } else {
        last.tag := tag;
      }
      MoveToFront(last, n);
      content := Touch(content, numLines, tag);
    }

    /** Is the last line of the set in use? */
    method LastValid() returns (v: bool)
      requires Valid()
      ensures v <==> |content| == numLines
    {
      assert Linked(dummy, lines, repr, |lines|);
      v := dummy.prev.valid;
    }
  }

  // ---------- Addresses ----------

  /** getSetIndexAndTag: the shifts and the mask, as division and remainder; for shift counts that C defines. */
  function SetIndexAndTag(s: nat, b: nat, address: nat): (a: Access)
    ensures a.index < Pow2(s)
  {
    Access(address / Pow2(b) % Pow2(s), address / Pow2(s + b))
  }

  lemma MulAtLeast(k: int, d: int)
    requires k >= 1 && d > 0
    ensures k * d >= d
  {
  }

  lemma SmallMultiple(k: int, d: int)
    requires d > 0 && -d < k * d < d
    ensures k == 0
  {
    if k > 0 {
      MulAtLeast(k, d);
    } else if k < 0 {
      MulAtLeast(-k, d);
    }
  }

  lemma DivisionUnique(x: int, d: int, q: int, r: int)
    requires d > 0 && x == q * d + r && 0 <= r < d
    ensures x / d == q && x % d == r
  {
    var q', r' := x / d, x % d;
    assert x == q' * d + r';
    assert (q' - q) * d == q' * d - q * d;
    SmallMultiple(q' - q, d);
  }

  lemma DigitBound(r: int, d: int, r': int, e: int)
    requires 0 <= r < d && 0 <= r' < e
    ensures 0 <= r' * d + r < d * e
  {
    assert r' * d <= (e - 1) * d;
  }

  lemma DigitSum(q: int, e: int, r: int, d: int)
    ensures (q * e + r) * d == q * (d * e) + r * d
  {
  }

  /** Dividing twice is dividing by the product. */
  lemma DivideTwice(x: nat, d: nat, e: nat, p: nat)
    requires d > 0 && e > 0 && p == d * e > 0
    ensures x / p == x / d / e
  {
    var q, r := x / d, x % d;
    var q', r' := q / e, q % e;
    DigitSum(q', e, r', d);
    DigitBound(r, d, r', e);
    DivisionUnique(x, p, q', r' * d + r);
  }

  lemma QuotientAndRemainder(p: nat, q: nat, d: nat)
    requires d > 0 && p / d == q / d && p % d == q % d
    ensures p == q
  {
    assert p == p / d * d + p % d && q == q / d * d + q % d;
  }

  /** The set index and the tag together are the block number: two addresses share both exactly
      when they lie in the same block of 2^b bytes. */
  lemma SameBlock(s: nat, b: nat, x: nat, y: nat)
    ensures SetIndexAndTag(s, b, x) == SetIndexAndTag(s, b, y) <==> x / Pow2(b) == y / Pow2(b)
  {
    hide Pow2;
    Pow2Sum(s, b);
    var d, e, p := Pow2(b), Pow2(s), Pow2(s + b);
    DivideTwice(x, d, e, p);
    DivideTwice(y, d, e, p);
    if SetIndexAndTag(s, b, x) == SetIndexAndTag(s, b, y) {
      QuotientAndRemainder(x / d, y / d, e);
    }
  }

  /** The address lies in the block that a set index and a tag name, read as the middle and the upper part
      of an address. */
  ghost predicate NamesBlock(s: nat, b: nat, a: Access, address: nat) {
    && a.index < Pow2(s)
    && a.tag * Pow2(s + b) + a.index * Pow2(b) <= address < a.tag * Pow2(s + b) + (a.index + 1) * Pow2(b)
  }

  /** getSetIndexAndTag splits the address. */
  lemma AddressSplit(s: nat, b: nat, address: nat)
    ensures NamesBlock(s, b, SetIndexAndTag(s, b, address), address)
    ensures var a := SetIndexAndTag(s, b, address);
            && a.index < Pow2(s)
            && a.tag * Pow2(s + b) + a.index * Pow2(b) <= address < a.tag * Pow2(s + b) + (a.index + 1) * Pow2(b)
  {
    hide Pow2;
    Pow2Sum(s, b);
    var d, e, p := Pow2(b), Pow2(s), Pow2(s + b);
    DivideTwice(address, d, e, p);
    var a := SetIndexAndTag(s, b, address);
    var q, r := address / d, address % d;
    assert q == a.tag * e + a.index;
    assert address == q * d + r;
    DigitSum(a.tag, e, a.index, d);
    assert (a.index + 1) * d == a.index * d + d;
  }

  lemma SameRemainder(x: nat, y: nat, e: nat)
    requires e > 0
    ensures x % e == y % e <==> (x - y) % e == 0
  {
    var k, l := x / e, y / e;
    assert x == k * e + x % e && y == l * e + y % e;
    if x % e == y % e {
      assert x - y == (k - l) * e;
      DivisionUnique(x - y, e, k - l, 0);
    }
    if (x - y) % e == 0 {
      var m := (x - y) / e;
      assert x - y == m * e;
      assert x == (l + m) * e + y % e;
      DivisionUnique(x, e, l + m, y % e);
    }
  }

  /** Two addresses share a set exactly when their block numbers differ by a multiple of 2^s. */
  lemma SameSet(s: nat, b: nat, x: nat, y: nat)
    ensures SetIndexAndTag(s, b, x).index == SetIndexAndTag(s, b, y).index <==>
            (x / Pow2(b) - y / Pow2(b)) % Pow2(s) == 0
  {
    hide Pow2;
    var d, e := Pow2(b), Pow2(s);
    SameRemainder(x / d, y / d, e);
  }

  /** The accesses that a line of the trace file makes. */
  ghost function Expand(s: nat, b: nat, op: char, address: nat): Trace {
    var a := SetIndexAndTag(s, b, address);
    if op == 'I' then [] else if op == 'M' then [a, a] else [a]
  }

  ghost function ExpandAll(s: nat, b: nat, file: seq<(char, nat)>): Trace {
    if file == [] then [] else
    ExpandAll(s, b, file[..|file| - 1]) + Expand(s, b, file[|file| - 1].0, file[|file| - 1].1)
  }

  /** start[j] is the number of accesses that the lines before line j of the file have made. */
  ghost predicate Starts(s: nat, b: nat, file: seq<(char, nat)>, n: nat, trace: Trace, start: seq<nat>) {
    && n <= |file| && |start| == n + 1 && start[0] == 0 && start[n] == |trace|
    && (forall j :: 0 <= j < n ==>
          start[j + 1] == start[j] + if file[j].0 == 'I' then 0 else if file[j].0 == 'M' then 2 else 1)
    && (forall j :: 0 <= j <= n ==> start[j] <= |trace|)
    && (forall j, k :: 0 <= j < n && start[j] <= k < start[j + 1] ==> NamesBlock(s, b, trace[k], file[j].1))
  }

  lemma StartsFirst(s: nat, b: nat, file: seq<(char, nat)>, trace: Trace)
    requires trace == []
    ensures Starts(s, b, file, 0, trace, [0])
  {
  }

  lemma StartsNext(s: nat, b: nat, file: seq<(char, nat)>, n: nat, trace: Trace, trace': Trace, start: seq<nat>)
    requires Starts(s, b, file, n, trace, start) && n < |file| && trace <= trace'
    requires |trace'| == |trace| + if file[n].0 == 'I' then 0 else if file[n].0 == 'M' then 2 else 1
    requires forall k :: |trace| <= k < |trace'| ==> NamesBlock(s, b, trace'[k], file[n].1)
    ensures Starts(s, b, file, n + 1, trace', start + [|trace'|])
  {
    hide NamesBlock;
  }

  lemma StartsMeans(s: nat, b: nat, file: seq<(char, nat)>, trace: Trace, start: seq<nat>)
    requires Starts(s, b, file, |file|, trace, start)
    ensures |start| == |file| + 1 && start[0] == 0 && start[|file|] == |trace|
    ensures forall j :: 0 <= j < |file| ==>
              start[j + 1] == start[j] + if file[j].0 == 'I' then 0 else if file[j].0 == 'M' then 2 else 1
    ensures forall j, k :: 0 <= j < |file| && start[j] <= k < start[j + 1] && k < |trace| ==>
                             NamesBlock(s, b, trace[k], file[j].1)
  {
  }

  class Simulator {
    const s: nat
    const b: nat
    const E: nat
    const cache: seq<CacheSet>
    var hits: nat
    var misses: nat
    var evictions: nat

    /** Every access so far. */
    ghost var trace: Trace

    ghost function Nodes(): set<CacheLine> {
      set k, n | 0 <= k < |cache| && n in cache[k].repr :: n
    }

    /** Distinct sets share no line. */
    ghost predicate Separate() {
      forall j, k :: 0 <= j < k < |cache| ==> cache[j] != cache[k] && cache[j].repr !! cache[k].repr
    }

    ghost predicate SetValid(k: nat)
      requires k < |cache| && E >= 1
      reads this, cache, Nodes()
    {
      && cache[k].repr <= Nodes()
      && cache[k].Valid() && cache[k].numLines == E
      && cache[k].content == State(trace, E, k)
    }

    ghost predicate Valid()
      reads this, cache, Nodes()
    {
      && E >= 1 && |cache| == Pow2(s) && Separate()
      && (forall k :: 0 <= k < |cache| ==> SetValid(k))
      && (forall a :: a in trace ==> a.index < |cache|)
      && hits == HitCount(trace, E) && misses == Misses(trace, E) && evictions == Evictions(trace, E)
    }

    /** createCache, with the counters at zero. */
    constructor (s: nat, E: nat, b: nat)
      requires E >= 1
      ensures Valid() && trace == [] && this.s == s && this.E == E && this.b == b
      ensures fresh(cache) && fresh(Nodes())
    {
      hide Ring, Distinct, Pow2;
      var sets: seq<CacheSet> := [];
      var numSets := Pow2(s);
      for i := 0 to numSets
        invariant |sets| == i && fresh(sets)
        invariant forall k :: 0 <= k < i ==> sets[k].Valid() && sets[k].numLines == E && sets[k].content == []
        invariant forall k :: 0 <= k < i ==> fresh(sets[k].repr)
        invariant forall j, k :: 0 <= j < k < i ==> sets[j] != sets[k] && sets[j].repr !! sets[k].repr
      {
        var cacheSet := new CacheSet(E);
        sets := sets + [cacheSet];
      }
      this.s, this.E, this.b, cache := s, E, b, sets;
      hits, misses, evictions, trace := 0, 0, 0, [];
      new;
      assert forall k :: 0 <= k < |cache| ==> cache[k].repr <= Nodes();
    }

    /** A set whose lines have not been written is as it was. */
    twostate lemma SetFrame(k: nat)
      requires k < |cache| && E >= 1 && old(allocated(cache[k])) && old(allocated(cache[k].repr))
      requires old(SetValid(k)) && unchanged(cache[k]) && unchanged(cache[k].repr)
      requires State(trace, E, k) == old(State(trace, E, k))
      ensures SetValid(k)
    {
    }

    /** accessCache. */
    method AccessCache(address: nat) returns (hit: bool, evicted: bool)
      requires Valid()
      modifies this`hits, this`misses, this`evictions, this`trace, cache, Nodes()
      ensures Valid() && trace == old(trace) + [SetIndexAndTag(s, b, address)]
      ensures NamesBlock(s, b, trace[|old(trace)|], address)
      ensures hit <==> Hits(old(trace), E, SetIndexAndTag(s, b, address))
      ensures evicted <==> Evicts(old(trace), E, SetIndexAndTag(s, b, address))
    {
      hide CacheSet.Valid, NamesBlock, Pow2, SetIndexAndTag, Ring, Touch, Distinct, HitCount, Misses, Evictions, State;
      AddressSplit(s, b, address);
      var a := SetIndexAndTag(s, b, address);
      var cacheSet := cache[a.index];
      assert SetValid(a.index);
      ghost var trace' := trace + [a];
      AppendAccess(trace, E, a);
      StateShape(trace, E, a.index);
      hit := cacheSet.CheckAndUpdate(a.tag);
      evicted := false;
      if !hit {
        misses := misses + 1;
        var full := cacheSet.LastValid();
        if full {
          evicted := true;
          evictions := evictions + 1;
        }
        cacheSet.AddOrReplaceLine(a.tag);
      } else {
        hits := hits + 1;
      }
      trace := trace';
      assert cacheSet.content == State(trace, E, a.index);
      forall k | 0 <= k < |cache|
        ensures SetValid(k)
      {
        assert old(SetValid(k));
        if k != a.index {
          assert cache[k] != cacheSet && cache[k].repr !! cacheSet.repr;
          SetFrame(k);
        }
      }
    }

    /** parseLine, on an operation and an address: instruction loads are ignored, and a modify is
        two accesses, of which the second always hits. */
    method ParseLine(op: char, address: nat)
      requires Valid()
      modifies this`hits, this`misses, this`evictions, this`trace, cache, Nodes()
      ensures Valid() && trace == old(trace) + Expand(s, b, op, address)
      ensures |trace| == |old(trace)| + (if op == 'I' then 0 else if op == 'M' then 2 else 1)
      ensures forall k :: |old(trace)| <= k < |trace| ==> NamesBlock(s, b, trace[k], address)
      ensures op == 'M' ==> hits >= old(hits) + 1 && misses <= old(misses) + 1
    {
      hide SetValid, Separate, SetIndexAndTag, State, HitCount, Misses, Evictions;
      ghost var t := trace;
      AddressSplit(s, b, address);
      if op != 'I' {
        var hit, evicted := AccessCache(address);
        if op == 'M' {
          ghost var a := SetIndexAndTag(s, b, address);
          assert t + [a] + [a] == t + [a, a];
          RepeatHits(t, E, a);
          AppendAccess(t, E, a);
          AppendAccess(t + [a], E, a);
          hit, evicted := AccessCache(address);
        }
      }
    }

    /** The main loop over the lines of a trace file, and the totals that it prints. */
    method Run(file: seq<(char, nat)>) returns (h: nat, m: nat, e: nat, ghost start: seq<nat>)
      requires Valid() && trace == []
      modifies this`hits, this`misses, this`evictions, this`trace, cache, Nodes()
      ensures Valid() && trace == ExpandAll(s, b, file)
      ensures |start| == |file| + 1 && start[0] == 0 && start[|file|] == |trace|
      ensures forall j :: 0 <= j < |file| ==>
                start[j + 1] == start[j] + if file[j].0 == 'I' then 0 else if file[j].0 == 'M' then 2 else 1
      ensures forall j, k :: 0 <= j < |file| && start[j] <= k < start[j + 1] && k < |trace| ==>
                               NamesBlock(s, b, trace[k], file[j].1)
      ensures h == |set k | 0 <= k < |trace| && Hits(trace[..k], E, trace[k])|
      ensures e == |set k | 0 <= k < |trace| && Evicts(trace[..k], E, trace[k])|
      ensures h == HitCount(trace, E) && m == Misses(trace, E) && e == Evictions(trace, E)
      ensures h + m == |trace|
      ensures m - e == Occupied(trace, E, |cache|)
    {
      hide SetValid, Separate, SetIndexAndTag, State, HitCount, Misses, Evictions, Occupied, Expand, Hits, Evicts;
      hide NamesBlock, Pow2, Starts;
      start := [0];
      StartsFirst(s, b, file, trace);
      for k := 0 to |file|
        invariant Valid() && trace == ExpandAll(s, b, file[..k])
        invariant Starts(s, b, file, k, trace, start)
      {
        ghost var t := trace;
        ParseLine(file[k].0, file[k].1);
        StartsNext(s, b, file, k, t, trace, start);
        start := start + [|trace|];
        assert file[..k + 1][..k] == file[..k];
      }
      assert file[..|file|] == file;
      h, m, e := hits, misses, evictions;
      StartsMeans(s, b, file, trace, start);
      HitsAndMisses(trace, E);
      HitsCounted(trace, E);
      EvictionsCounted(trace, E);
      MissesFill(trace, E, |cache|);
    }
  }
}
