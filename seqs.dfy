/**
 * Order-preserving filtering of sequences (`List.filter` with a set's
 * `has` as the test) and the distinctness facts the orderings rely on.
 */
module Seqs {

  predicate Distinct<T(==)>(s: seq<T>)
  {
    forall i, j :: 0 <= i < j < |s| ==> s[i] != s[j]
  }

  /** The elements of `s`, as a set. */
  function Members<T>(s: seq<T>): set<T>
  {
    set x | x in s
  }

  /** `s.filter(S.has)`: the elements of `s` that are in `S`, in their order in `s`. */
  function Keep<T(==,!new)>(s: seq<T>, S: set<T>): (r: seq<T>)
    ensures forall x :: x in r <==> x in s && x in S
    ensures |r| <= |s|
    decreases |s|
  {
    if s == [] then []
    else
      var n := |s| - 1;
      Keep(s[..n], S) + (if s[n] in S then [s[n]] else [])
  }

  /** Nothing of `s` is in `S`: nothing is kept. */
  lemma {:induction false} KeepNone<T(!new)>(s: seq<T>, S: set<T>)
    requires forall x :: x in s ==> x !in S
    ensures Keep(s, S) == []
    decreases |s|
  {
    if s != [] {
      KeepNone(s[..|s| - 1], S);
      assert s[|s| - 1] in s;
    }
  }

  /** Everything of `s` is in `S`: everything is kept. */
  lemma {:induction false} KeepAll<T(!new)>(s: seq<T>, S: set<T>)
    requires forall x :: x in s ==> x in S
    ensures Keep(s, S) == s
    decreases |s|
  {
    if s != [] {
      var n := |s| - 1;
      KeepAll(s[..n], S);
      assert s[n] in s;
      LastSplit(s);
    }
  }

  /** A non-empty sequence is its front followed by its last element. */
  lemma LastSplit<T>(s: seq<T>)
    requires s != []
    ensures s[..|s| - 1] + [s[|s| - 1]] == s
  {
  }

  /** Only membership of the elements of `s` matters to the filter. */
  lemma {:induction false} KeepAgree<T(!new)>(s: seq<T>, S: set<T>, S': set<T>)
    requires forall x :: x in s ==> (x in S <==> x in S')
    ensures Keep(s, S) == Keep(s, S')
    decreases |s|
  {
    if s != [] {
      var n := |s| - 1;
      KeepAgree(s[..n], S, S');
    }
  }

  /** Filtering keeps relative order: two kept elements come from two increasing positions of `s`. */
  lemma {:induction false} KeepOrder<T(!new)>(s: seq<T>, S: set<T>, i: nat, j: nat)
    requires i < j < |Keep(s, S)|
    ensures exists a, b :: 0 <= a < b < |s| && s[a] == Keep(s, S)[i] && s[b] == Keep(s, S)[j]
    decreases |s|
  {
    var n := |s| - 1;
    var pre := Keep(s[..n], S);
    if j < |pre| {
      KeepOrder(s[..n], S, i, j);
      var a, b :| 0 <= a < b < n && s[..n][a] == pre[i] && s[..n][b] == pre[j];
      assert s[a] == s[..n][a] && s[b] == s[..n][b];
    } else {
      assert Keep(s, S)[i] == pre[i] && pre[i] in s[..n];
      var a :| 0 <= a < n && s[..n][a] == pre[i];
      assert s[a] == Keep(s, S)[i] && s[n] == Keep(s, S)[j];
    }
  }

  /** Filtering a sequence without repetitions yields one without repetitions. */
  lemma {:induction false} KeepDistinct<T(!new)>(s: seq<T>, S: set<T>)
    requires Distinct(s)
    ensures Distinct(Keep(s, S))
    decreases |s|
  {
    if s != [] {
      var n := |s| - 1;
      assert Distinct(s[..n]);
      KeepDistinct(s[..n], S);
      assert s[n] !in s[..n];
    }
  }

  /** A sequence without repetitions has as many distinct elements as positions. */
  lemma {:induction false} DistinctCard<T>(s: seq<T>)
    requires Distinct(s)
    ensures |Members(s)| == |s|
    decreases |s|
  {
    if s != [] {
      var n := |s| - 1;
      assert Distinct(s[..n]);
      DistinctCard(s[..n]);
      assert s[n] !in s[..n];
      assert Members(s) == Members(s[..n]) + {s[n]};
    }
  }

  lemma SubsetCard<T>(A: set<T>, B: set<T>)
    requires A <= B
    ensures |A| <= |B|
  {
    assert B == A + (B - A) && A * (B - A) == {};
  }
}
