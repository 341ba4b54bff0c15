/** What ranking means, without heaps or lazily cleaned tables: a score per document, and the
    k best scored documents in descending (score, docid) order. */
module Ranking {
  import opened Order
  import opened MinHeap

  // ----- the naive specification

  /** The best of the documents below `n`. */
  function BestBefore(score: seq<nat>, n: nat): (b: nat)
    requires 1 <= n <= |score|
    ensures b < n
  {
    if n == 1 then 0
    else
      var b := BestBefore(score, n - 1);
      if Below(score, b, n - 1) then n - 1 else b
  }

  lemma {:induction false} NoneBetter(score: seq<nat>, n: nat, d: nat)
    requires d < n <= |score|
    ensures AtMost(score, d, BestBefore(score, n))
  {
    if d < n - 1 {
      NoneBetter(score, n - 1, d);
    }
  }

  /** Repeatedly takes the best document and strikes it out. */
  function NaiveTopK(score: seq<nat>, k: nat): seq<nat>
    decreases k
  {
    if k == 0 || |score| == 0 then []
    else
      var b := BestBefore(score, |score|);
      if score[b] == 0 then [] else [b] + NaiveTopK(score[b := 0], k - 1)
  }

  /** The k best scored documents, best first. */
  ghost predicate IsRanking(score: seq<nat>, out: seq<nat>, k: nat)
  {
    && InRange(out, |score|) && |out| <= k
    && (forall i :: 0 <= i < |out| ==> score[out[i]] > 0)
    && (forall i, j :: 0 <= i < j < |out| ==> Below(score, out[j], out[i]))
    && (forall d, i :: 0 <= d < |score| && score[d] > 0 && d !in out && 0 <= i < |out| ==> Below(score, d, out[i]))
    && (|out| < k ==> forall d :: 0 <= d < |score| && score[d] > 0 ==> d in out)
  }

  /** There is exactly one such list, and striking out finds it. */
  lemma {:induction false} RankingIsNaive(score: seq<nat>, out: seq<nat>, k: nat)
    requires IsRanking(score, out, k)
    ensures out == NaiveTopK(score, k)
    decreases k
  {
    if |score| == 0 || k == 0 {
      NoRanking(score, out, k);
    } else {
      var b := BestBefore(score, |score|);
      FirstIsBest(score, out, k, b);
      if score[b] > 0 {
        var rest, struck := out[1..], score[b := 0];
        RestIsRanking(score, out, k, rest, struck);
        RankingIsNaive(struck, rest, k - 1);
        TakesBest(score, k, b, rest, out, struck);
      }
    }
  }

  lemma TakesBest(score: seq<nat>, k: nat, b: nat, rest: seq<nat>, out: seq<nat>, struck: seq<nat>)
    requires k > 0 && |score| > 0 && b == BestBefore(score, |score|) && score[b] > 0
    requires struck == score[b := 0] && rest == NaiveTopK(struck, k - 1) && out != [] && out[0] == b && rest == out[1..]
    ensures out == NaiveTopK(score, k)
  {
    assert out == [b] + rest;
  }

  lemma NoRanking(score: seq<nat>, out: seq<nat>, k: nat)
    requires IsRanking(score, out, k) && (|score| == 0 || k == 0)
    ensures out == []
  {
    if |out| > 0 {
      InRangeAt(out, |score|);
    }
  }

  lemma InRangeAt(s: seq<nat>, n: nat)
    requires InRange(s, n) && s != []
    ensures n > 0
  {
    assert s[0] < n;
  }

  lemma FirstIsBest(score: seq<nat>, out: seq<nat>, k: nat, b: nat)
    requires IsRanking(score, out, k) && k > 0 && |score| > 0 && b == BestBefore(score, |score|)
    ensures if score[b] > 0 then out != [] && out[0] == b else out == []
  {
    if out != [] {
      NoneBetter(score, |score|, out[0]);
      if b in out {
        var i :| 0 <= i < |out| && out[i] == b;
      }
    }
  }

  lemma RestIsRanking(score: seq<nat>, out: seq<nat>, k: nat, rest: seq<nat>, struck: seq<nat>)
    requires IsRanking(score, out, k) && out != [] && rest == out[1..] && struck == score[out[0] := 0]
    ensures IsRanking(struck, rest, k - 1)
  {
    forall i | 0 <= i < |rest| ensures struck[rest[i]] == score[rest[i]] {
      assert Below(score, out[i + 1], out[0]);
    }
    assert forall d :: d in rest <==> d in out && d != out[0] by {
      assert forall i :: 1 <= i < |out| ==> out[i] == rest[i - 1] && Below(score, out[i], out[0]);
    }
  }

  /** The greater score comes first and, of equal scores, the greater docid; every scored document that
      is left out comes after all of these. */
  ghost predicate BestFirst(score: seq<nat>, out: seq<nat>) {
    && InRange(out, |score|)
    && (forall i, j :: 0 <= i < j < |out| ==>
          score[out[i]] > score[out[j]] || (score[out[i]] == score[out[j]] && out[i] > out[j]))
    && (forall d, i :: 0 <= d < |score| && score[d] > 0 && d !in out && 0 <= i < |out| ==>
          score[out[i]] > score[d] || (score[out[i]] == score[d] && out[i] > d))
  }

  /** As many as there are scored documents, but no more than k. */
  ghost predicate ShowsAll(score: seq<nat>, out: seq<nat>, k: nat) {
    && InRange(out, |score|) && (forall i :: 0 <= i < |out| ==> score[out[i]] > 0)
    && |out| == if |Scored(score)| < k then |Scored(score)| else k
  }

  lemma RankingIsBestFirst(score: seq<nat>, out: seq<nat>, k: nat)
    requires IsRanking(score, out, k)
    ensures BestFirst(score, out) && ShowsAll(score, out, k)
  {
    assert Distinct(out) by {
      assert forall i, j :: 0 <= i < j < |out| ==> Below(score, out[j], out[i]);
    }
    DistinctCardinality(out);
    if |out| < k {
      assert Members(out) == Scored(score);
    } else {
      SubsetCardinality(Members(out), Scored(score));
    }
  }

  /** Striking out finds a ranking. */
  lemma {:induction false} NaiveIsRanking(score: seq<nat>, k: nat)
    ensures IsRanking(score, NaiveTopK(score, k), k)
    decreases k
  {
    if k > 0 && |score| > 0 {
      var b := BestBefore(score, |score|);
      if score[b] == 0 {
        forall d: nat | d < |score| ensures score[d] == 0 {
          NoneBetter(score, |score|, d);
        }
      } else {
        NaiveIsRanking(score[b := 0], k - 1);
        BestAhead(score, NaiveTopK(score[b := 0], k - 1), k, b, NaiveTopK(score, k));
      }
    }
  }

  lemma StruckBelow(score: seq<nat>, b: nat, x: nat, y: nat)
    requires b < |score| && x < |score| && y < |score| && x != b && y != b && Below(score[b := 0], x, y)
    ensures Below(score, x, y)
  {
  }

  lemma BestIsAbove(score: seq<nat>, b: nat, x: nat)
    requires |score| > 0 && b == BestBefore(score, |score|) && x < |score| && x != b
    ensures Below(score, x, b)
  {
    NoneBetter(score, |score|, x);
  }

  lemma BestAhead(score: seq<nat>, rest: seq<nat>, k: nat, b: nat, out: seq<nat>)
    requires k > 0 && |score| > 0 && b == BestBefore(score, |score|) && score[b] > 0
    requires IsRanking(score[b := 0], rest, k - 1) && out == [b] + rest
    ensures IsRanking(score, out, k)
  {
    var struck := score[b := 0];
    assert b !in rest by {
      assert forall i :: 0 <= i < |rest| ==> struck[rest[i]] > 0;
    }
    assert forall i :: 1 <= i < |out| ==> out[i] == rest[i - 1] != b;
    forall i, j | 0 <= i < j < |out| ensures Below(score, out[j], out[i]) {
      if i > 0 {
        StruckBelow(score, b, out[j], out[i]);
      } else {
        BestIsAbove(score, b, out[j]);
      }
    }
    forall d, i | 0 <= d < |score| && score[d] > 0 && d !in out && 0 <= i < |out| ensures Below(score, d, out[i]) {
      assert d != out[0] && d !in rest;
      if i > 0 {
        StruckBelow(score, b, d, out[i]);
      } else {
        BestIsAbove(score, b, d);
      }
    }
    if |out| < k {
      forall d | 0 <= d < |score| && score[d] > 0 ensures d in out {
        assert d != b ==> struck[d] > 0;
      }
    }
  }

  // ----- the invariant that add_rsv keeps

  /** `p` holds, without duplicates, the k best scored documents; once full it is a min-heap
      and every document outside it is below its root. */
  ghost predicate TopKState(score: seq<nat>, p: seq<nat>, k: nat)
  {
    && InRange(p, |score|) && Distinct(p) && |p| <= k
    && (forall i :: 0 <= i < |p| ==> score[p[i]] > 0)
    && (|p| < k ==> forall d :: 0 <= d < |score| && score[d] > 0 ==> d in p)
    && (|p| == k > 0 ==> IsHeap(score, p) && forall d :: 0 <= d < |score| && d !in p ==> Below(score, d, p[0]))
  }

  lemma {:induction false} DistinctBounded(p: seq<nat>, n: nat)
    requires InRange(p, n) && Distinct(p)
    ensures |p| <= n
    decreases n
  {
    if n > 0 {
      if n - 1 in p {
        var i :| 0 <= i < |p| && p[i] == n - 1;
        var q := p[..i] + p[i + 1..];
        assert InRange(q, n - 1) && Distinct(q);
        DistinctBounded(q, n - 1);
      } else {
        DistinctBounded(p, n - 1);
      }
    }
  }

  /** Heap order looks only at the members' scores. */
  lemma SameScoresSameHeap(score: seq<nat>, score': seq<nat>, p: seq<nat>)
    requires InRange(p, |score|) && InRange(p, |score'|)
    requires forall i :: 0 <= i < |p| ==> score[p[i]] == score'[p[i]]
    ensures IsHeap(score, p) <==> IsHeap(score', p)
  {
  }

  lemma GrownMember(score: seq<nat>, p: seq<nat>, i: nat, grown: nat)
    requires InRange(p, |score|) && Distinct(p) && i < |p| && IsHeap(score, p) && score[p[i]] <= grown
    ensures HeapButFor(score[p[i] := grown], p, 0, i)
  {
    forall j | 1 <= j < |p| && Parent(j) != i
      ensures AtMost(score[p[i] := grown], p[Parent(j)], p[j])
    {
      assert AtMost(score, p[Parent(j)], p[j]);
    }
    if i >= 1 {
      forall j | 1 <= j < |p| && Parent(j) == i
        ensures AtMost(score[p[i] := grown], p[Parent(i)], p[j])
      {
        assert AtMost(score, p[Parent(i)], p[i]) && AtMost(score, p[i], p[j]);
        assert Parent(i) < i < j;
      }
    }
  }

  /** A full state's documents outside the heap are exactly those below its root:
      being at least the root means being in the heap. */
  lemma AtLeastRootIsMember(score: seq<nat>, p: seq<nat>, k: nat, d: nat)
    requires TopKState(score, p, k) && |p| == k > 0 && d < |score|
    ensures d in p <==> !Below(score, d, p[0])
  {
    if d in p {
      var i :| 0 <= i < |p| && p[i] == d;
      RootIsLeast(score, p, i);
    }
  }

  /** `p` holds every scored document, once. */
  ghost predicate Collected(score: seq<nat>, p: seq<nat>)
  {
    && InRange(p, |score|) && Distinct(p)
    && (forall i :: 0 <= i < |p| ==> score[p[i]] > 0)
    && (forall x :: 0 <= x < |score| && score[x] > 0 ==> x in p)
  }

  lemma CollectedIsState(score: seq<nat>, p: seq<nat>, k: nat)
    requires Collected(score, p) && |p| < k
    ensures TopKState(score, p, k)
  {
  }

  lemma Plonk(score: seq<nat>, p: seq<nat>, q: seq<nat>, k: nat, d: nat, s: nat)
    requires TopKState(score, p, k) && |p| < k && d < |score| && s >= 1
    requires q == if score[d] == 0 then p + [d] else p
    ensures Collected(score[d := score[d] + s], q)
  {
    assert forall x :: x in p ==> x in q;
    assert d in q by {
      if score[d] == 0 {
        assert q[|p|] == d;
      }
    }
    if score[d] == 0 {
      assert d !in p;
    }
  }

  /** The heap has just been built over the first k scored documents. */
  lemma JustFull(score: seq<nat>, p: seq<nat>, q: seq<nat>, k: nat)
    requires Collected(score, p) && |p| == k > 0
    requires multiset(p) == multiset(q) && InRange(q, |score|) && IsHeap(score, q)
    ensures TopKState(score, q, k)
  {
    SameElements(p, q, |score|);
    assert forall i :: 0 <= i < |q| ==> q[i] in p;
    assert score[q[0]] > 0;
  }

  /** A member's score grew and the heap was repaired. */
  lemma MemberUpdated(score: seq<nat>, p: seq<nat>, q: seq<nat>, k: nat, d: nat, s: nat)
    requires TopKState(score, p, k) && |p| == k > 0 && d in p && d < |score|
    requires multiset(p) == multiset(q) && InRange(q, |score|) && IsHeap(score[d := score[d] + s], q)
    ensures TopKState(score[d := score[d] + s], q, k)
  {
    var score' := score[d := score[d] + s];
    SameElements(p, q, |score|);
    assert forall i :: 0 <= i < |q| ==> q[i] in p;
    var i :| 0 <= i < |p| && p[i] == q[0];
    RootIsLeast(score, p, i);
    forall x | 0 <= x < |score| && x !in q
      ensures Below(score', x, q[0])
    {
      assert Below(score, x, p[0]);
    }
  }

  /** A document outside grew but is still below the root. */
  lemma StillOutside(score: seq<nat>, p: seq<nat>, k: nat, d: nat, s: nat)
    requires TopKState(score, p, k) && |p| == k > 0 && d !in p && d < |score|
    requires Below(score[d := score[d] + s], d, p[0])
    ensures TopKState(score[d := score[d] + s], p, k)
  {
    SameScoresSameHeap(score, score[d := score[d] + s], p);
  }

  /** A document outside overtook the root and replaced it. */
  lemma RootReplaced(score: seq<nat>, p: seq<nat>, q: seq<nat>, k: nat, d: nat, s: nat)
    requires TopKState(score, p, k) && |p| == k > 0 && d !in p && d < |score|
    requires Below(score[d := score[d] + s], p[0], d)
    requires multiset(p[0 := d]) == multiset(q) && InRange(q, |score|) && IsHeap(score[d := score[d] + s], q)
    ensures TopKState(score[d := score[d] + s], q, k)
  {
    var score', swapped := score[d := score[d] + s], p[0 := d];
    SameElements(swapped, q, |score|);
    forall i | 0 <= i < |swapped| ensures Below(score', p[0], swapped[i]) {
      RootIsLeast(score, p, i);
    }
    assert forall i :: 0 <= i < |q| ==> q[i] in swapped;
    assert Below(score', p[0], q[0]);
    forall x | 0 <= x < |score| && x !in q
      ensures Below(score', x, q[0])
    {
      assert x !in swapped;
      if x != p[0] {
        assert x !in p by {
          assert forall i :: 1 <= i < |p| ==> p[i] == swapped[i];
        }
        assert d == swapped[0];
        assert Below(score, x, p[0]);
      }
    }
  }

  // ----- the invariant means: the min(k, scored) greatest

  function Scored(score: seq<nat>): set<nat> {
    set d | 0 <= d < |score| && score[d] > 0
  }

  /** The state holds exactly the min(k, number scored) greatest documents. */
  lemma StateIsTopK(score: seq<nat>, p: seq<nat>, k: nat)
    requires TopKState(score, p, k) && k > 0
    ensures |p| == if |Scored(score)| < k then |Scored(score)| else k
    ensures forall d, i :: 0 <= d < |score| && d !in p && 0 <= i < |p| ==> Below(score, d, p[i])
  {
    var members := Members(p);
    DistinctCardinality(p);
    assert members <= Scored(score);
    if |p| < k {
      assert members == Scored(score);
    } else {
      SubsetCardinality(members, Scored(score));
    }
    forall d, i | 0 <= d < |score| && d !in p && 0 <= i < |p|
      ensures Below(score, d, p[i])
    {
      if |p| == k {
        RootIsLeast(score, p, i);
        assert Below(score, d, p[0]);
      }
    }
  }

  lemma SubsetCardinality(a: set<nat>, b: set<nat>)
    requires a <= b
    ensures |a| <= |b|
  {
    assert b == a + (b - a);
  }

  function Members(p: seq<nat>): set<nat> {
    set x | x in p
  }

  lemma {:induction false} DistinctCardinality(p: seq<nat>)
    requires Distinct(p)
    ensures |Members(p)| == |p|
  {
    if p != [] {
      var init, last := p[..|p| - 1], p[|p| - 1];
      DistinctCardinality(init);
      assert Members(p) == Members(init) + {last};
      assert last !in Members(init);
    }
  }

  /** Sorting a top-k state far enough gives the ranking, also of fewer than its k documents. */
  lemma SortedStateIsRanking(score: seq<nat>, p: seq<nat>, q: seq<nat>, k: nat, shown: nat)
    requires TopKState(score, p, k) && 0 < k && shown <= k
    requires multiset(p) == multiset(q) && InRange(q, |score|)
    requires forall i, j :: 0 <= i < j < |q| && i < shown ==> AtMost(score, q[j], q[i])
    ensures IsRanking(score, q[..if |q| < shown then |q| else shown], shown)
  {
    StateIsTopK(score, p, k);
    SameElements(p, q, |score|);
    var m := if |q| < shown then |q| else shown;
    var out := q[..m];
    assert forall i :: 0 <= i < |q| ==> q[i] in p;
    forall i, j | 0 <= i < j < |out| ensures Below(score, out[j], out[i]) {
      assert q[i] != q[j];
    }
    forall d, i | 0 <= d < |score| && score[d] > 0 && d !in out && 0 <= i < |out|
      ensures Below(score, d, out[i])
    {
      if d in q {
        var j :| 0 <= j < |q| && q[j] == d;
        assert q[i] != q[j];
      } else {
        assert d !in p;
        var j :| 0 <= j < |p| && p[j] == q[i];
      }
    }
  }
}
