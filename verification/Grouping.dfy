/** A term's postings, in order of impact, become segments of documents of one impact. */
module Grouping {
  import opened Order
  import opened Impacts

  datatype Posting = Posting(docid: nat, impact: nat)

  /** The postings of one segment. */
  function PostingsOf(impact: nat, docids: seq<nat>): (r: seq<Posting>)
    ensures |r| == |docids|
  {
    seq(|docids|, i requires 0 <= i < |docids| => Posting(docids[i], impact))
  }

  /** The postings of all segments. */
  function Ungroup(quanta: seq<Quantum>): seq<Posting> {
    if quanta == [] then []
    else Ungroup(quanta[..|quanta| - 1]) + PostingsOf(quanta[|quanta| - 1].impact, quanta[|quanta| - 1].docids)
  }

  lemma UngroupSnoc(quanta: seq<Quantum>, q: Quantum)
    ensures Ungroup(quanta + [q]) == Ungroup(quanta) + PostingsOf(q.impact, q.docids)
  {
    assert (quanta + [q])[..|quanta|] == quanta;
  }

  /** Segments are never empty, and neighbours differ in impact. */
  ghost predicate Grouped(quanta: seq<Quantum>) {
    && (forall q :: 0 <= q < |quanta| ==> quanta[q].docids != [])
    && (forall q, r :: 0 <= q && r == q + 1 && r < |quanta| ==> quanta[q].impact != quanta[r].impact)
  }

  /** Settled segments, and documents remembered for the next one. */
  ghost predicate Remembering(quanta: seq<Quantum>, impact: nat, remembered: seq<nat>, postings: seq<Posting>) {
    && Grouped(quanta) && (quanta != [] ==> quanta[|quanta| - 1].impact != impact)
    && Ungroup(quanta) + PostingsOf(impact, remembered) == postings
  }

  lemma Remember(quanta: seq<Quantum>, impact: nat, remembered: seq<nat>, postings: seq<Posting>, docid: nat)
    requires Remembering(quanta, impact, remembered, postings)
    ensures Remembering(quanta, impact, remembered + [docid], postings + [Posting(docid, impact)])
  {
    assert PostingsOf(impact, remembered + [docid]) == PostingsOf(impact, remembered) + [Posting(docid, impact)];
  }

  lemma NewSegment(quanta: seq<Quantum>, impact: nat, remembered: seq<nat>, postings: seq<Posting>, next: nat)
    requires Remembering(quanta, impact, remembered, postings) && remembered != []
    ensures Grouped(quanta + [Quantum(impact, remembered)])
            && Ungroup(quanta + [Quantum(impact, remembered)]) == postings
    ensures next != impact ==> Remembering(quanta + [Quantum(impact, remembered)], next, [], postings)
  {
    UngroupSnoc(quanta, Quantum(impact, remembered));
    assert PostingsOf(next, []) == [];
  }

  /** Starts a new segment whenever the impact changes. */
  method Group(postings: seq<Posting>) returns (quanta: seq<Quantum>)
    requires postings != []
    ensures quanta != [] && Grouped(quanta) && Ungroup(quanta) == postings
  {
    quanta := [];
    var remembered: seq<nat>, previousImpact := [], postings[0].impact;
    var i := 0;
    ghost var seen: seq<Posting> := [];
    assert Remembering(quanta, previousImpact, remembered, seen);
    while i < |postings|
      invariant i <= |postings| && (i == 0 ==> previousImpact == postings[0].impact) && (i > 0 ==> remembered != [])
      invariant seen == postings[..i] && Remembering(quanta, previousImpact, remembered, seen)
    {
      var docid, impact := postings[i].docid, postings[i].impact;
      if impact != previousImpact {
        NewSegment(quanta, previousImpact, remembered, seen, impact);
        quanta := quanta + [Quantum(previousImpact, remembered)];
        remembered, previousImpact := [], impact;
      }
      Remember(quanta, previousImpact, remembered, seen, docid);
      seen := seen + [Posting(docid, previousImpact)];
      remembered := remembered + [docid];
      i := i + 1;
    }
    NewSegment(quanta, previousImpact, remembered, seen, previousImpact);
    quanta := quanta + [Quantum(previousImpact, remembered)];
  }

  // ----- sorted postings make well-formed segments

  /** Postings as the indexer gets them: by impact, each document once. */
  ghost predicate AreSorted(postings: seq<Posting>, documents: nat) {
    && (forall i :: 0 <= i < |postings| ==> postings[i].docid < documents && 1 <= postings[i].impact < 0x1_0000)
    && (forall i, j :: 0 <= i < j < |postings| ==>
        postings[i].impact >= postings[j].impact && postings[i].docid != postings[j].docid)
  }

  function Offset(quanta: seq<Quantum>, q: nat): nat
    requires q <= |quanta|
  {
    if q == 0 then 0 else Offset(quanta, q - 1) + |quanta[q - 1].docids|
  }

  lemma {:induction false} OffsetIs(quanta: seq<Quantum>, q: nat)
    requires q <= |quanta|
    ensures |Ungroup(quanta[..q])| == Offset(quanta, q)
  {
    if q > 0 {
      OffsetIs(quanta, q - 1);
      assert quanta[..q] == quanta[..q - 1] + [quanta[q - 1]];
      UngroupSnoc(quanta[..q - 1], quanta[q - 1]);
    }
  }

  lemma {:induction false} PostingAt(quanta: seq<Quantum>, n: nat, q: nat, i: nat)
    requires q < n <= |quanta| && i < |quanta[q].docids|
    ensures Offset(quanta, q) + i < Offset(quanta, q + 1) <= |Ungroup(quanta[..n])|
    ensures Ungroup(quanta[..n])[Offset(quanta, q) + i] == Posting(quanta[q].docids[i], quanta[q].impact)
    decreases n
  {
    assert quanta[..n] == quanta[..n - 1] + [quanta[n - 1]];
    UngroupSnoc(quanta[..n - 1], quanta[n - 1]);
    OffsetIs(quanta, n - 1);
    if q < n - 1 {
      PostingAt(quanta, n - 1, q, i);
    }
  }

  lemma {:induction false} OffsetGrows(quanta: seq<Quantum>, q: nat, r: nat)
    requires q <= r <= |quanta|
    ensures Offset(quanta, q) <= Offset(quanta, r)
    decreases r
  {
    if q < r {
      OffsetGrows(quanta, q, r - 1);
    }
  }

  /** Documents of segments q and r, at places i and j of them, come in this order among the postings. */
  lemma InOrder(quanta: seq<Quantum>, documents: nat, q: nat, i: nat, r: nat, j: nat)
    requires AreSorted(Ungroup(quanta), documents) && q < |quanta| && r < |quanta| && (q < r || (q == r && i < j))
    requires i < |quanta[q].docids| && j < |quanta[r].docids|
    ensures quanta[q].docids[i] != quanta[r].docids[j] && quanta[q].impact >= quanta[r].impact
  {
    assert quanta[..|quanta|] == quanta;
    PostingAt(quanta, |quanta|, q, i);
    PostingAt(quanta, |quanta|, r, j);
    if q < r {
      OffsetGrows(quanta, q + 1, r);
    }
  }

  lemma SegmentsAreWellFormed(quanta: seq<Quantum>, documents: nat)
    requires Grouped(quanta) && AreSorted(Ungroup(quanta), documents)
    ensures WellFormedList(quanta, documents)
  {
    assert quanta[..|quanta|] == quanta;
    forall q: nat | q < |quanta|
      ensures 1 <= quanta[q].impact < 0x1_0000 && InRange(quanta[q].docids, documents) && Distinct(quanta[q].docids)
    {
      PostingAt(quanta, |quanta|, q, 0);
      SegmentInRange(quanta, documents, q);
      SegmentIsDistinct(quanta, documents, q);
    }
    forall q: nat, r: nat | q < r < |quanta| ensures quanta[q].impact > quanta[r].impact {
      InOrder(quanta, documents, q, 0, q + 1, 0);
      if q + 1 < r {
        InOrder(quanta, documents, q + 1, 0, r, 0);
      }
    }
    forall q: nat, r: nat, d | q < r < |quanta| && d in quanta[q].docids ensures d !in quanta[r].docids {
      NotInBoth(quanta, documents, q, r, d);
    }
  }

  lemma SegmentInRange(quanta: seq<Quantum>, documents: nat, q: nat)
    requires AreSorted(Ungroup(quanta), documents) && q < |quanta|
    ensures InRange(quanta[q].docids, documents)
  {
    assert quanta[..|quanta|] == quanta;
    forall i: nat | i < |quanta[q].docids| ensures quanta[q].docids[i] < documents {
      PostingAt(quanta, |quanta|, q, i);
    }
  }

  lemma SegmentIsDistinct(quanta: seq<Quantum>, documents: nat, q: nat)
    requires AreSorted(Ungroup(quanta), documents) && q < |quanta|
    ensures Distinct(quanta[q].docids)
  {
    forall i: nat, j: nat | i < j < |quanta[q].docids| ensures quanta[q].docids[i] != quanta[q].docids[j] {
      InOrder(quanta, documents, q, i, q, j);
    }
  }

  lemma NotInBoth(quanta: seq<Quantum>, documents: nat, q: nat, r: nat, d: nat)
    requires AreSorted(Ungroup(quanta), documents) && q < r < |quanta| && d in quanta[q].docids
    ensures d !in quanta[r].docids
  {
    var i :| 0 <= i < |quanta[q].docids| && quanta[q].docids[i] == d;
    forall j: nat | j < |quanta[r].docids| ensures quanta[r].docids[j] != d {
      InOrder(quanta, documents, q, i, r, j);
    }
  }

  // ----- what the segments are worth

  function PostingScore(postings: seq<Posting>, d: nat): nat {
    if postings == [] then 0
    else
      PostingScore(postings[..|postings| - 1], d)
      + (if postings[|postings| - 1].docid == d then postings[|postings| - 1].impact else 0)
  }

  /** A document scores the impact of its posting, and nothing if it has none. */
  lemma {:induction false} PostingScoreIs(postings: seq<Posting>, documents: nat, d: nat)
    requires AreSorted(postings, documents)
    ensures forall i :: 0 <= i < |postings| && postings[i].docid == d ==>
              PostingScore(postings, d) == postings[i].impact
    ensures (forall i :: 0 <= i < |postings| ==> postings[i].docid != d) ==> PostingScore(postings, d) == 0
  {
    if postings != [] {
      PostingScoreIs(postings[..|postings| - 1], documents, d);
    }
  }

  lemma {:induction false} ScoreJoins(a: seq<Posting>, b: seq<Posting>, d: nat)
    ensures PostingScore(a + b, d) == PostingScore(a, d) + PostingScore(b, d)
    decreases |b|
  {
    if b == [] {
      assert a + b == a;
    } else {
      ScoreJoins(a, b[..|b| - 1], d);
      assert (a + b)[..|a + b| - 1] == a + b[..|b| - 1];
    }
  }

  /** A segment scores each of its documents once. */
  lemma {:induction false} SegmentScore(impact: nat, docids: seq<nat>, d: nat)
    requires Distinct(docids)
    ensures PostingScore(PostingsOf(impact, docids), d) == Gain(Quantum(impact, docids), d)
    decreases |docids|
  {
    if docids != [] {
      var n := |docids| - 1;
      var front := docids[..n];
      SegmentScore(impact, front, d);
      assert PostingsOf(impact, docids)[..n] == PostingsOf(impact, front);
      assert docids == front + [docids[n]];
      assert d in docids <==> d in front || d == docids[n];
    }
  }

  /** Scoring by segments is scoring by postings. */
  lemma {:induction false} UngroupScores(quanta: seq<Quantum>, n: nat, d: nat)
    requires n <= |quanta| && forall q :: 0 <= q < n ==> Distinct(quanta[q].docids)
    ensures TermScore(quanta, n, d) == PostingScore(Ungroup(quanta[..n]), d)
  {
    if n > 0 {
      UngroupScores(quanta, n - 1, d);
      var q := quanta[n - 1];
      assert quanta[..n] == quanta[..n - 1] + [q];
      UngroupSnoc(quanta[..n - 1], q);
      ScoreJoins(Ungroup(quanta[..n - 1]), PostingsOf(q.impact, q.docids), d);
      SegmentScore(q.impact, q.docids, d);
    }
  }
}
