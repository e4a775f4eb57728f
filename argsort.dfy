/** What the retrieval relies on from numpy's `argsort` with its default
    (quicksort, not stable) kind: the result is a permutation of the row
    indices along which the scores never decrease. The order among equal
    scores is left open; `IsArgsort` admits every such order, and `Argsort`
    shows that one always exists. */
module Argsort {

  /** No index occurs twice. */
  predicate Distinct(s: seq<nat>) {
    forall a, b :: 0 <= a < b < |s| ==> s[a] != s[b]
  }

  /** `order` lists every index below `n` exactly once. */
  predicate IsIndexPermutation(order: seq<nat>, n: nat) {
    && |order| == n
    && InRange(order, n)
    && Distinct(order)
    && (forall i :: 0 <= i < n ==> i in order)
  }

  /** Every index in `order` is below `n`. */
  predicate InRange(order: seq<nat>, n: nat) {
    forall k :: 0 <= k < |order| ==> order[k] < n
  }

  /** The scores read along `order` never decrease. */
  predicate AscendingBy(scores: seq<real>, order: seq<nat>)
    requires InRange(order, |scores|)
  {
    forall a, b :: 0 <= a < b < |order| ==> scores[order[a]] <= scores[order[b]]
  }

  /** `order` is a possible result of `np.argsort(scores)`. */
  predicate IsArgsort(scores: seq<real>, order: seq<nat>) {
    IsIndexPermutation(order, |scores|) && AscendingBy(scores, order)
  }

  /** Every score read along `order` is at least `bound`. */
  predicate LowerBound(scores: seq<real>, order: seq<nat>, bound: real)
    requires InRange(order, |scores|)
  {
    forall k :: 0 <= k < |order| ==> bound <= scores[order[k]]
  }

  /** Inserts index `x` into `order` before the first index whose score is at
      least that of `x`. */
  function Insert(scores: seq<real>, order: seq<nat>, x: nat): (r: seq<nat>)
    requires x < |scores| && InRange(order, |scores|)
    ensures |r| == |order| + 1
    ensures forall y :: y in r <==> y == x || y in order
    ensures InRange(r, |scores|)
    decreases |order|
  {
    if order == [] then [x]
    else if scores[x] <= scores[order[0]] then [x] + order
    else
      var r := [order[0]] + Insert(scores, order[1..], x);
      assert order == [order[0]] + order[1..];
      assert forall k :: 0 <= k < |r| ==> r[k] in r;
      r
  }

  lemma {:induction false} InsertKeepsDistinct(scores: seq<real>, order: seq<nat>, x: nat)
    requires x < |scores| && InRange(order, |scores|)
    requires Distinct(order) && x !in order
    ensures Distinct(Insert(scores, order, x))
  {
    if order != [] && scores[order[0]] < scores[x] {
      assert order == [order[0]] + order[1..];
      assert Distinct(order[1..]);
      InsertKeepsDistinct(scores, order[1..], x);
      assert order[0] !in order[1..];
    }
  }

  lemma {:induction false} InsertKeepsLowerBound(scores: seq<real>, order: seq<nat>, x: nat, b: real)
    requires x < |scores| && InRange(order, |scores|)
    requires LowerBound(scores, order, b) && b <= scores[x]
    ensures LowerBound(scores, Insert(scores, order, x), b)
  {
    if order != [] && scores[order[0]] < scores[x] {
      InsertKeepsLowerBound(scores, order[1..], x, b);
    }
  }

  lemma {:induction false} InsertKeepsAscending(scores: seq<real>, order: seq<nat>, x: nat)
    requires x < |scores| && InRange(order, |scores|)
    requires AscendingBy(scores, order)
    ensures AscendingBy(scores, Insert(scores, order, x))
  {
    if order != [] {
      if scores[x] <= scores[order[0]] {
        assert LowerBound(scores, order, scores[x]);
      } else {
        var rest := order[1..];
        InsertKeepsAscending(scores, rest, x);
        assert LowerBound(scores, rest, scores[order[0]]);
        InsertKeepsLowerBound(scores, rest, x, scores[order[0]]);
      }
    }
  }

  /** Inserting the next index into a permutation of the indices below it
      gives a permutation of one more index. */
  lemma InsertExtendsPermutation(scores: seq<real>, order: seq<nat>, n: nat)
    requires n < |scores| && IsIndexPermutation(order, n)
    ensures IsIndexPermutation(Insert(scores, order, n), n + 1)
  {
    var r := Insert(scores, order, n);
    assert n !in order;
    InsertKeepsDistinct(scores, order, n);
    forall k | 0 <= k < |r| ensures r[k] < n + 1 {
      assert r[k] in r;
    }
  }

  /** An ascending argsort of the first `n` scores, by insertion. */
  function ArgsortPrefix(scores: seq<real>, n: nat): (r: seq<nat>)
    requires n <= |scores|
    ensures IsIndexPermutation(r, n)
    ensures InRange(r, |scores|) && AscendingBy(scores, r)
  {
    if n == 0 then []
    else
      var prefix := ArgsortPrefix(scores, n - 1);
      InsertExtendsPermutation(scores, prefix, n - 1);
      InsertKeepsAscending(scores, prefix, n - 1);
      Insert(scores, prefix, n - 1)
  }

  /** One result `np.argsort` may give, so that `IsArgsort` can be met for
      every score vector. */
  function Argsort(scores: seq<real>): (r: seq<nat>)
    ensures IsArgsort(scores, r)
  {
    ArgsortPrefix(scores, |scores|)
  }

  /** The indices occurring in `s`. */
  function Elements(s: seq<nat>): set<nat> {
    set x | x in s
  }

  lemma {:induction false} DistinctElements(s: seq<nat>)
    requires Distinct(s)
    ensures |Elements(s)| == |s|
  {
    if s != [] {
      assert Distinct(s[1..]);
      DistinctElements(s[1..]);
      assert Elements(s) == {s[0]} + Elements(s[1..]);
      assert s[0] !in Elements(s[1..]);
    }
  }

  lemma SubsetCard(a: set<nat>, b: set<nat>)
    requires a <= b
    ensures |a| <= |b|
  {
    assert b == a + (b - a);
  }

  /** Position `k` of any argsort reads a score at least that at position
      `k` of any other: fewer than `k + 1` indices score below the latter,
      since all of them come before position `k` in the other argsort. */
  lemma ArgsortPositionBound(scores: seq<real>, o1: seq<nat>, o2: seq<nat>, k: nat)
    requires IsArgsort(scores, o1) && IsArgsort(scores, o2)
    requires k < |scores|
    ensures scores[o2[k]] <= scores[o1[k]]
  {
    var b := scores[o2[k]];
    var below := set i | 0 <= i < |scores| && scores[i] < b;
    var low2 := Elements(o2[..k]);
    forall x | x in below ensures x in low2 {
      assert x in o2;
      var p :| 0 <= p < |o2| && o2[p] == x;
      assert p < k;
      assert o2[..k][p] == x;
    }
    assert Distinct(o2[..k]);
    DistinctElements(o2[..k]);
    SubsetCard(below, low2);
    if scores[o1[k]] < b {
      var low1 := Elements(o1[..k + 1]);
      forall x | x in low1 ensures x in below {
        var p :| 0 <= p < k + 1 && o1[..k + 1][p] == x;
        assert scores[o1[p]] <= scores[o1[k]];
      }
      assert Distinct(o1[..k + 1]);
      DistinctElements(o1[..k + 1]);
      SubsetCard(low1, below);
    }
  }

  /** Whatever order numpy gives equal scores, the scores read along any two
      argsorts of the same vector are the same sequence. */
  lemma ArgsortScoresAgree(scores: seq<real>, o1: seq<nat>, o2: seq<nat>)
    requires IsArgsort(scores, o1) && IsArgsort(scores, o2)
    ensures forall k :: 0 <= k < |scores| ==> scores[o1[k]] == scores[o2[k]]
  {
    forall k | 0 <= k < |scores| ensures scores[o1[k]] == scores[o2[k]] {
      ArgsortPositionBound(scores, o1, o2, k);
      ArgsortPositionBound(scores, o2, o1, k);
    }
  }

  /** With pairwise distinct scores the argsort is unique. */
  lemma ArgsortUniqueWithoutTies(scores: seq<real>, o1: seq<nat>, o2: seq<nat>)
    requires IsArgsort(scores, o1) && IsArgsort(scores, o2)
    requires forall i, j :: 0 <= i < |scores| && 0 <= j < |scores| && i != j ==> scores[i] != scores[j]
    ensures o1 == o2
  {
    ArgsortScoresAgree(scores, o1, o2);
  }
}
