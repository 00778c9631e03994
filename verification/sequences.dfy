/** Sequences without repetitions, and the removal of one element. */
module Sequences {

  ghost predicate Distinct<T>(F: seq<T>) {
    forall i, j :: 0 <= i < j < |F| ==> F[i] != F[j]
  }

  ghost function Without<T>(F: seq<T>, b: T): seq<T> {
    if F == [] then [] else if F[0] == b then F[1..] else [F[0]] + Without(F[1..], b)
  }

  lemma {:induction false} WithoutAt<T(!new)>(F: seq<T>, i: int)
    requires Distinct(F) && 0 <= i < |F|
    ensures Without(F, F[i]) == F[..i] + F[i + 1..]
  {
    if i > 0 {
      assert Distinct(F[1..]);
      WithoutAt(F[1..], i - 1);
      assert F[1..][..i - 1] == F[1..i] && F[1..][i..] == F[i + 1..];
    }
  }

  lemma WithoutMembers<T(!new)>(F: seq<T>, b: T)
    requires Distinct(F) && b in F
    ensures Distinct(Without(F, b)) && |Without(F, b)| == |F| - 1
    ensures forall c :: c in Without(F, b) <==> c in F && c != b
  {
    var i :| 0 <= i < |F| && F[i] == b;
    WithoutAt(F, i);
  }

  lemma {:induction false} WithoutAbsent<T(!new)>(F: seq<T>, b: T)
    requires b !in F
    ensures Without(F, b) == F
  {
    if F != [] {
      WithoutAbsent(F[1..], b);
    }
  }

  lemma {:induction false} WithoutSubset<T(!new)>(F: seq<T>, b: T, c: T)
    requires c !in F
    ensures c !in Without(F, b)
  {
    if F != [] && F[0] != b {
      WithoutSubset(F[1..], b, c);
    }
  }

  ghost function Elements<T>(F: seq<T>): set<T> {
    set x | x in F
  }

  lemma {:induction false} DistinctSize<T(!new)>(F: seq<T>)
    requires Distinct(F)
    ensures |Elements(F)| == |F|
  {
    if F != [] {
      DistinctSize(F[1..]);
      assert Elements(F) == Elements(F[1..]) + {F[0]};
    }
  }

  lemma SubsetSize<T>(a: set<T>, b: set<T>)
    requires a <= b
    ensures |a| <= |b|
  {
    assert b == a + (b - a);
  }
}
