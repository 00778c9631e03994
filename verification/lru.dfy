/** What a set-associative cache with least-recently-used replacement does to a whole trace.
    An access is a pair of a set index and a tag; the recency order of a set lists the tags
    of its valid lines, most recently used first. */
module Lru {
  import opened Sequences

  datatype Access = Access(index: nat, tag: nat)

  type Trace = seq<Access>

  // ---------- One set ----------

  /** A set with E lines and recency order L, after an access to tag t. */
  ghost function Touch(L: seq<nat>, E: nat, t: nat): seq<nat>
    requires E >= 1
  {
    if t in L then [t] + Without(L, t)
    else if |L| < E then [t] + L
    else [t] + L[..E - 1]
  }

  /** The recency order of a set after a trace. */
  ghost function State(accs: Trace, E: nat, s: nat): seq<nat>
    requires E >= 1
  {
    if accs == [] then [] else
    var before := State(accs[..|accs| - 1], E, s);
    var a := accs[|accs| - 1];
    if a.index == s then Touch(before, E, a.tag) else before
  }

  /** Does the access after the trace hit? */
  ghost predicate Hits(accs: Trace, E: nat, a: Access)
    requires E >= 1
  {
    a.tag in State(accs, E, a.index)
  }

  /** Does it evict?  Only when it misses in a full set. */
  ghost predicate Evicts(accs: Trace, E: nat, a: Access)
    requires E >= 1
  {
    !Hits(accs, E, a) && |State(accs, E, a.index)| >= E
  }

  lemma {:induction false} StateShape(accs: Trace, E: nat, s: nat)
    requires E >= 1
    ensures Distinct(State(accs, E, s)) && |State(accs, E, s)| <= E
  {
    if accs != [] {
      StateShape(accs[..|accs| - 1], E, s);
      TouchShape(State(accs[..|accs| - 1], E, s), E, accs[|accs| - 1].tag);
    }
  }

  lemma TouchShape(L: seq<nat>, E: nat, t: nat)
    requires E >= 1 && Distinct(L) && |L| <= E
    ensures Distinct(Touch(L, E, t)) && |Touch(L, E, t)| <= E && t in Touch(L, E, t)
    ensures |Touch(L, E, t)| == if t in L || |L| >= E then |L| else |L| + 1
  {
    if t in L {
      WithoutMembers(L, t);
    }
  }

  // ---------- The unbounded stack ----------

  /** All tags of set s that the trace has touched, most recent first. */
  ghost function Stack(accs: Trace, s: nat): seq<nat> {
    if accs == [] then [] else
    var before := Stack(accs[..|accs| - 1], s);
    var a := accs[|accs| - 1];
    if a.index == s then Push(before, a.tag) else before
  }

  ghost function Push(L: seq<nat>, t: nat): seq<nat> {
    if t in L then [t] + Without(L, t) else [t] + L
  }

  /** The first E entries of a sequence, or all of a shorter one. */
  ghost function Top(L: seq<nat>, E: nat): seq<nat> {
    if |L| <= E then L else L[..E]
  }

  lemma PushDistinct(L: seq<nat>, t: nat)
    requires Distinct(L)
    ensures Distinct(Push(L, t))
  {
    if t in L {
      WithoutMembers(L, t);
    }
  }

  lemma {:induction false} StackDistinct(accs: Trace, s: nat)
    ensures Distinct(Stack(accs, s))
  {
    if accs != [] {
      StackDistinct(accs[..|accs| - 1], s);
      PushDistinct(Stack(accs[..|accs| - 1], s), accs[|accs| - 1].tag);
    }
  }

  lemma TouchTopHit(L: seq<nat>, E: nat, i: nat)
    requires E >= 1 && Distinct(L) && i < |L| && i < E
    ensures Touch(Top(L, E), E, L[i]) == Top(Push(L, L[i]), E)
  {
    WithoutAt(L, i);
    if E < |L| {
      var t, K := L[i], L[..E];
      assert K[i] == t;
      WithoutAt(K, i);
      assert K[..i] == L[..i] && K[i + 1..] == L[i + 1..E];
      PrefixOfSplice(t, L, i, E);
    }
  }

  lemma PrefixOfSplice(t: nat, L: seq<nat>, i: nat, E: nat)
    requires i < E < |L|
    ensures ([t] + (L[..i] + L[i + 1..]))[..E] == [t] + (L[..i] + L[i + 1..E])
  {
  }

  lemma TouchTopMiss(L: seq<nat>, E: nat, i: nat)
    requires E >= 1 && Distinct(L) && E <= i < |L|
    ensures Touch(Top(L, E), E, L[i]) == Top(Push(L, L[i]), E)
  {
    WithoutAt(L, i);
    assert L[i] !in L[..E];
    assert Push(L, L[i]) == [L[i]] + (L[..i] + L[i + 1..]);
    assert L[..E][..E - 1] == L[..i][..E - 1];
  }

  /** Touching the top of a stack is the top of pushing onto it. */
  lemma TouchTop(L: seq<nat>, E: nat, t: nat)
    requires E >= 1 && Distinct(L)
    ensures Touch(Top(L, E), E, t) == Top(Push(L, t), E)
  {
    if t in L {
      var i :| 0 <= i < |L| && L[i] == t;
      if i < E {
        TouchTopHit(L, E, i);
      } else {
        TouchTopMiss(L, E, i);
      }
    }
  }

  /** Stack property: the lines of an E-way set are the E most recent tags. */
  lemma {:induction false} StateIsTop(accs: Trace, E: nat, s: nat)
    requires E >= 1
    ensures State(accs, E, s) == Top(Stack(accs, s), E)
  {
    if accs != [] {
      StateIsTop(accs[..|accs| - 1], E, s);
      StackDistinct(accs[..|accs| - 1], s);
      TouchTop(Stack(accs[..|accs| - 1], s), E, accs[|accs| - 1].tag);
    }
  }

  // ---------- Associativity ----------

  /** Inclusion: what an E-way set holds is a prefix of what a wider set holds. */
  lemma Inclusion(accs: Trace, E: nat, E': nat, s: nat)
    requires 1 <= E <= E'
    ensures State(accs, E, s) <= State(accs, E', s)
  {
    StateIsTop(accs, E, s);
    StateIsTop(accs, E', s);
  }

  ghost function Misses(accs: Trace, E: nat): nat
    requires E >= 1
  {
    if accs == [] then 0 else
    Misses(accs[..|accs| - 1], E) + if Hits(accs[..|accs| - 1], E, accs[|accs| - 1]) then 0 else 1
  }

  ghost function HitCount(accs: Trace, E: nat): nat
    requires E >= 1
  {
    if accs == [] then 0 else
    HitCount(accs[..|accs| - 1], E) + if Hits(accs[..|accs| - 1], E, accs[|accs| - 1]) then 1 else 0
  }

  ghost function Evictions(accs: Trace, E: nat): nat
    requires E >= 1
  {
    if accs == [] then 0 else
    Evictions(accs[..|accs| - 1], E) + if Evicts(accs[..|accs| - 1], E, accs[|accs| - 1]) then 1 else 0
  }

  /** More ways never cost a miss. */
  lemma {:induction false} MissesMonotone(accs: Trace, E: nat, E': nat)
    requires 1 <= E <= E'
    ensures Misses(accs, E') <= Misses(accs, E)
  {
    if accs != [] {
      MissesMonotone(accs[..|accs| - 1], E, E');
      Inclusion(accs[..|accs| - 1], E, E', accs[|accs| - 1].index);
    }
  }

  // ---------- Reuse distance ----------

  /** The tags of set s that the trace touches after position i. */
  ghost function Since(accs: Trace, s: nat, i: int): set<nat> {
    set j | 0 <= j < |accs| && i < j && accs[j].index == s :: accs[j].tag
  }

  lemma SinceAppend(accs: Trace, a: Access, s: nat, i: int)
    requires i < |accs|
    ensures Since(accs + [a], s, i) == Since(accs, s, i) + if a.index == s then {a.tag} else {}
  {
    var accs' := accs + [a];
    forall t
      ensures t in Since(accs', s, i) <==> t in Since(accs, s, i) || (a.index == s && t == a.tag)
    {
      if t in Since(accs, s, i) {
        var j :| 0 <= j < |accs| && i < j && accs[j].index == s && accs[j].tag == t;
        assert accs'[j] == accs[j];
      }
      if a.index == s && t == a.tag {
        assert accs'[|accs|] == a;
      }
      if t in Since(accs', s, i) {
        var j :| 0 <= j < |accs'| && i < j && accs'[j].index == s && accs'[j].tag == t;
        assert j < |accs| ==> accs[j] == accs'[j];
      }
    }
  }

  /** Where a tag stands on the stack after a push, and what stands above it. */
  lemma PushDepth(L: seq<nat>, t: nat, d: nat)
    requires Distinct(L) && 0 < d < |Push(L, t)|
    ensures exists e :: 0 <= e < |L| && L[e] == Push(L, t)[d]
                        && Elements(Push(L, t)[..d]) == Elements(L[..e]) + {t}
  {
    var P := Push(L, t);
    if t in L {
      var i :| 0 <= i < |L| && L[i] == t;
      WithoutAt(L, i);
      var e := if d <= i then d - 1 else d;
      assert L[e] == P[d];
      PushAbove(L, t, i, d, e);
    } else {
      assert P[..d] == [t] + L[..d - 1];
      assert L[d - 1] == P[d];
      ElementsCons(t, L[..d - 1]);
    }
  }

  lemma ElementsCons(t: nat, L: seq<nat>)
    ensures Elements([t] + L) == Elements(L) + {t}
  {
  }

  lemma PushAbove(L: seq<nat>, t: nat, i: nat, d: nat, e: nat)
    requires Distinct(L) && i < |L| && L[i] == t && 0 < d < |L| == |Push(L, t)|
    requires e == if d <= i then d - 1 else d
    ensures Elements(Push(L, t)[..d]) == Elements(L[..e]) + {t}
  {
    WithoutAt(L, i);
    var P := Push(L, t);
    assert P == [t] + (L[..i] + L[i + 1..]);
    if d <= i {
      assert P[..d] == [t] + L[..d - 1];
      ElementsCons(t, L[..d - 1]);
    } else {
      PrefixOfSplice(t, L, i, d);
      assert P[..d] == [t] + (L[..i] + L[i + 1..d]);
      assert L[..d] == L[..i] + [t] + L[i + 1..d];
    }
  }

  /** The tag at depth d of the stack was last touched at some position of the trace, and the
      tags above it are exactly those touched since. */
  lemma {:induction false} StackDepth(accs: Trace, s: nat, d: nat)
    requires d < |Stack(accs, s)|
    ensures exists i :: 0 <= i < |accs| && accs[i] == Access(s, Stack(accs, s)[d])
                        && Since(accs, s, i) == Elements(Stack(accs, s)[..d])
  {
    var n := |accs| - 1;
    var before, a := accs[..n], accs[n];
    assert accs == before + [a];
    if a.index == s && d == 0 {
      assert Since(accs, s, n) == {} == Elements(Stack(accs, s)[..0]);
      assert accs[n] == Access(s, Stack(accs, s)[d]);
    } else {
      var e := d;
      StackDistinct(before, s);
      if a.index == s {
        PushDepth(Stack(before, s), a.tag, d);
        e :| 0 <= e < |Stack(before, s)| && Stack(before, s)[e] == Push(Stack(before, s), a.tag)[d]
             && Elements(Push(Stack(before, s), a.tag)[..d]) == Elements(Stack(before, s)[..e]) + {a.tag};
      }
      StackDepth(before, s, e);
      var i :| 0 <= i < |before| && before[i] == Access(s, Stack(before, s)[e])
               && Since(before, s, i) == Elements(Stack(before, s)[..e]);
      SinceAppend(before, a, s, i);
      assert accs[i] == before[i];
    }
  }

  /** Every touched tag is on the stack. */
  lemma {:induction false} StackHolds(accs: Trace, s: nat, i: nat)
    requires i < |accs| && accs[i].index == s
    ensures accs[i].tag in Stack(accs, s)
  {
    var n := |accs| - 1;
    var before, a := accs[..n], accs[n];
    if i < n {
      StackHolds(before, s, i);
      StackDistinct(before, s);
      if a.index == s && a.tag in Stack(before, s) {
        WithoutMembers(Stack(before, s), a.tag);
      }
    }
  }

  /** An access was made at position i, and fewer than E other tags of its set have been touched since. */
  ghost predicate ReusedWithin(accs: Trace, E: nat, a: Access, i: int) {
    0 <= i < |accs| && accs[i] == a && |Since(accs, a.index, i) - {a.tag}| < E
  }

  /** Reuse distance decides hits: an access hits exactly when the same block was accessed before
      with fewer than E distinct other tags of its set in between. */
  lemma ReuseDistance(accs: Trace, E: nat, a: Access)
    requires E >= 1
    ensures Hits(accs, E, a) <==> exists i :: ReusedWithin(accs, E, a, i)
  {
    var s, L := a.index, Stack(accs, a.index);
    StateIsTop(accs, E, s);
    StackDistinct(accs, s);
    if Hits(accs, E, a) {
      var d :| 0 <= d < |L| && L[d] == a.tag && d < E;
      HitReuses(accs, E, a, d);
    }
    if i :| ReusedWithin(accs, E, a, i) {
      ReuseHits(accs, E, a, i);
    }
  }

  lemma HitReuses(accs: Trace, E: nat, a: Access, d: nat)
    requires d < |Stack(accs, a.index)| && Stack(accs, a.index)[d] == a.tag && d < E
    ensures exists i :: ReusedWithin(accs, E, a, i)
  {
    var L := Stack(accs, a.index);
    StackDepth(accs, a.index, d);
    var i :| 0 <= i < |accs| && accs[i] == a && Since(accs, a.index, i) == Elements(L[..d]);
    StackDistinct(accs, a.index);
    DistinctSize(L[..d]);
    SubsetSize(Elements(L[..d]) - {a.tag}, Elements(L[..d]));
    assert ReusedWithin(accs, E, a, i);
  }

  lemma SinceShrinks(accs: Trace, s: nat, i: int, j: int)
    requires i <= j
    ensures Since(accs, s, j) <= Since(accs, s, i)
  {
  }

  lemma NotAbove(L: seq<nat>, d: nat)
    requires Distinct(L) && d < |L|
    ensures Distinct(L[..d]) && L[d] !in Elements(L[..d])
  {
  }

  /** An occurrence after which the tag was not touched is the last one. */
  lemma LastOccurrence(accs: Trace, a: Access, i: int, last: int)
    requires 0 <= i < |accs| && accs[i] == a && a.tag !in Since(accs, a.index, last)
    ensures i <= last
  {
  }

  lemma ReuseHits(accs: Trace, E: nat, a: Access, i: int)
    requires E >= 1 && ReusedWithin(accs, E, a, i)
    ensures Hits(accs, E, a)
  {
    hide Stack, State, Distinct, Since, Elements;
    var s, L := a.index, Stack(accs, a.index);
    StackHolds(accs, s, i);
    var d :| 0 <= d < |L| && L[d] == a.tag;
    StackDepth(accs, s, d);
    var last :| 0 <= last < |accs| && accs[last] == a && Since(accs, s, last) == Elements(L[..d]);
    StackDistinct(accs, s);
    NotAbove(L, d);
    LastOccurrence(accs, a, i, last);
    SinceShrinks(accs, s, i, last);
    DistinctSize(L[..d]);
    SubsetSize(Elements(L[..d]), Since(accs, s, i) - {a.tag});
    StateIsTop(accs, E, s);
    assert Top(L, E)[d] == a.tag;
  }

  /** The stack holds exactly the tags of the set that the trace has touched. */
  lemma StackTags(accs: Trace, s: nat)
    ensures Elements(Stack(accs, s)) == Since(accs, s, -1)
  {
    var L := Stack(accs, s);
    forall t
      ensures t in Elements(L) <==> t in Since(accs, s, -1)
    {
      if t in L {
        var d :| 0 <= d < |L| && L[d] == t;
        StackDepth(accs, s, d);
        var i :| 0 <= i < |accs| && accs[i] == Access(s, t);
      }
      if t in Since(accs, s, -1) {
        var i :| 0 <= i < |accs| && accs[i].index == s && accs[i].tag == t;
        StackHolds(accs, s, i);
      }
    }
  }

  /** An access evicts exactly when it misses and at least E distinct tags of its set were touched before. */
  lemma EvictsWhenFull(accs: Trace, E: nat, a: Access)
    requires E >= 1
    ensures Evicts(accs, E, a) <==>
              && (forall i :: !ReusedWithin(accs, E, a, i))
              && |set j | 0 <= j < |accs| && accs[j].index == a.index :: accs[j].tag| >= E
  {
    ReuseDistance(accs, E, a);
    StateIsTop(accs, E, a.index);
    StackTags(accs, a.index);
    StackDistinct(accs, a.index);
    DistinctSize(Stack(accs, a.index));
    assert Since(accs, a.index, -1) == set j | 0 <= j < |accs| && accs[j].index == a.index :: accs[j].tag;
  }

  // ---------- Counts ----------

  /** The counters count: each is the number of accesses of its kind. */
  lemma {:induction false} HitsCounted(accs: Trace, E: nat)
    requires E >= 1
    ensures HitCount(accs, E) == |set k | 0 <= k < |accs| && Hits(accs[..k], E, accs[k])|
  {
    hide Hits;
    if accs != [] {
      var n := |accs| - 1;
      var before := accs[..n];
      HitsCounted(before, E);
      assert forall k :: 0 <= k < n ==> before[..k] == accs[..k] && before[k] == accs[k];
      var h := set k | 0 <= k < n && Hits(before[..k], E, before[k]);
      assert (set k | 0 <= k < |accs| && Hits(accs[..k], E, accs[k]))
          == h + if Hits(before, E, accs[n]) then {n} else {};
    }
  }

  lemma {:induction false} EvictionsCounted(accs: Trace, E: nat)
    requires E >= 1
    ensures Evictions(accs, E) == |set k | 0 <= k < |accs| && Evicts(accs[..k], E, accs[k])|
  {
    hide Evicts;
    if accs != [] {
      var n := |accs| - 1;
      var before := accs[..n];
      EvictionsCounted(before, E);
      assert forall k :: 0 <= k < n ==> before[..k] == accs[..k] && before[k] == accs[k];
      var e := set k | 0 <= k < n && Evicts(before[..k], E, before[k]);
      assert (set k | 0 <= k < |accs| && Evicts(accs[..k], E, accs[k]))
          == e + if Evicts(before, E, accs[n]) then {n} else {};
    }
  }

  lemma {:induction false} HitsAndMisses(accs: Trace, E: nat)
    requires E >= 1
    ensures HitCount(accs, E) + Misses(accs, E) == |accs|
  {
    if accs != [] {
      HitsAndMisses(accs[..|accs| - 1], E);
    }
  }

  /** The number of valid lines of the first n sets. */
  ghost function Occupied(accs: Trace, E: nat, n: nat): nat
    requires E >= 1
  {
    if n == 0 then 0 else Occupied(accs, E, n - 1) + |State(accs, E, n - 1)|
  }

  lemma {:induction false} OccupiedStep(accs: Trace, E: nat, n: nat)
    requires E >= 1 && accs != []
    ensures var before, a := accs[..|accs| - 1], accs[|accs| - 1];
            Occupied(accs, E, n) == Occupied(before, E, n)
                                    + if a.index < n && !Hits(before, E, a) && !Evicts(before, E, a) then 1 else 0
  {
    if n > 0 {
      OccupiedStep(accs, E, n - 1);
      var before, a := accs[..|accs| - 1], accs[|accs| - 1];
      StateShape(before, E, a.index);
      TouchShape(State(before, E, a.index), E, a.tag);
    }
  }

  /** A miss that does not evict fills a line: misses less evictions is the number of valid lines. */
  lemma {:induction false} MissesFill(accs: Trace, E: nat, n: nat)
    requires E >= 1 && forall a :: a in accs ==> a.index < n
    ensures Misses(accs, E) - Evictions(accs, E) == Occupied(accs, E, n)
  {
    if accs != [] {
      var before := accs[..|accs| - 1];
      assert forall a :: a in before ==> a in accs;
      MissesFill(before, E, n);
      OccupiedStep(accs, E, n);
      assert accs[|accs| - 1] in accs;
    } else {
      EmptyOccupied(E, n);
    }
  }

  lemma {:induction false} EmptyOccupied(E: nat, n: nat)
    requires E >= 1
    ensures Occupied([], E, n) == 0
  {
    if n > 0 {
      EmptyOccupied(E, n - 1);
    }
  }

  /** One access more. */
  lemma AppendAccess(accs: Trace, E: nat, a: Access)
    requires E >= 1
    ensures HitCount(accs + [a], E) == HitCount(accs, E) + if Hits(accs, E, a) then 1 else 0
    ensures Misses(accs + [a], E) == Misses(accs, E) + if Hits(accs, E, a) then 0 else 1
    ensures Evictions(accs + [a], E) == Evictions(accs, E) + if Evicts(accs, E, a) then 1 else 0
    ensures forall s {:trigger State(accs + [a], E, s)} ::
              State(accs + [a], E, s) == if s == a.index then Touch(State(accs, E, s), E, a.tag) else State(accs, E, s)
  {
    assert (accs + [a])[..|accs|] == accs;
  }

  /** An access that repeats the one just made hits. */
  lemma RepeatHits(accs: Trace, E: nat, a: Access)
    requires E >= 1
    ensures Hits(accs + [a], E, a)
  {
    assert (accs + [a])[..|accs|] == accs;
    StateShape(accs, E, a.index);
    TouchShape(State(accs, E, a.index), E, a.tag);
  }
}
