/** Impact-ordered postings: what a query's segments add to each document, what has been added
    so far, and how much can still be added. */
module Impacts {
  import opened Order

  /** One segment: the documents that the term scores with this impact. */
  datatype Quantum = Quantum(impact: nat, docids: seq<nat>)

  /** An entry of `quantum_order`: a segment of one of the query's postings lists. */
  datatype Entry = Entry(term: nat, which: nat)

  /** A term's segments have strictly decreasing impacts and share no document. */
  ghost predicate WellFormedList(list: seq<Quantum>, documents: nat) {
    && (forall q :: 0 <= q < |list| ==>
          1 <= list[q].impact < 0x1_0000 && InRange(list[q].docids, documents) && Distinct(list[q].docids))
    && (forall q, r :: 0 <= q < r < |list| ==> list[q].impact > list[r].impact)
    && (forall q, r, d :: 0 <= q < r < |list| && d in list[q].docids ==> d !in list[r].docids)
  }

  ghost predicate WellFormed(lists: seq<seq<Quantum>>, documents: nat) {
    forall t :: 0 <= t < |lists| ==> |lists[t]| >= 1 && WellFormedList(lists[t], documents)
  }

  function Gain(q: Quantum, d: nat): nat {
    if d in q.docids then q.impact else 0
  }

  /** What the first `n` segments of a term add to `d`. */
  function TermScore(list: seq<Quantum>, n: nat, d: nat): nat
    requires n <= |list|
  {
    if n == 0 then 0 else TermScore(list, n - 1, d) + Gain(list[n - 1], d)
  }

  /** `(current_header + 1)->impact`: a zero header ends every list. */
  function NextImpact(list: seq<Quantum>, n: nat): nat {
    if n < |list| then list[n].impact else 0
  }

  ghost predicate Counts(lists: seq<seq<Quantum>>, next: seq<nat>) {
    |next| == |lists| && forall t :: 0 <= t < |lists| ==> next[t] <= |lists[t]|
  }

  /** The score of `d` from the first `m` terms, of each of which the first next[t] segments were processed. */
  function PartialScore(lists: seq<seq<Quantum>>, next: seq<nat>, m: nat, d: nat): nat
    requires Counts(lists, next) && m <= |lists|
  {
    if m == 0 then 0
    else PartialScore(lists, next, m - 1, d) + TermScore(lists[m - 1], next[m - 1], d)
  }

  /** The sum over the first `m` terms of the next unprocessed segment's impact. */
  function RemainingImpact(lists: seq<seq<Quantum>>, next: seq<nat>, m: nat): nat
    requires |next| == |lists| && m <= |lists|
  {
    if m == 0 then 0
    else RemainingImpact(lists, next, m - 1) + NextImpact(lists[m - 1], next[m - 1])
  }

  function Lengths(lists: seq<seq<Quantum>>): (r: seq<nat>)
    ensures |r| == |lists| && forall t :: 0 <= t < |r| ==> r[t] == |lists[t]|
  {
    seq(|lists|, t requires 0 <= t < |lists| => |lists[t]|)
  }

  function PartialScores(lists: seq<seq<Quantum>>, next: seq<nat>, documents: nat): (r: seq<nat>)
    requires Counts(lists, next)
    ensures |r| == documents
    ensures forall d :: 0 <= d < documents ==> r[d] == PartialScore(lists, next, |lists|, d)
  {
    seq(documents, d requires 0 <= d => PartialScore(lists, next, |lists|, d))
  }

  /** The naive scores: every segment of every term. */
  function FullScores(lists: seq<seq<Quantum>>, documents: nat): (r: seq<nat>)
    ensures |r| == documents
  {
    PartialScores(lists, Lengths(lists), documents)
  }

  // ----- one term

  /** A document is in at most one later segment, none of which has a greater impact than the next. */
  lemma {:induction false} TermRest(list: seq<Quantum>, documents: nat, n: nat, m: nat, d: nat)
    requires WellFormedList(list, documents) && n <= m <= |list|
    ensures TermScore(list, n, d) <= TermScore(list, m, d) <= TermScore(list, n, d) + NextImpact(list, n)
    ensures (forall q :: n <= q < m ==> d !in list[q].docids) ==> TermScore(list, m, d) == TermScore(list, n, d)
    decreases m
  {
    if n < m {
      TermRest(list, documents, n, m - 1, d);
      if d in list[m - 1].docids {
        assert forall q :: n <= q < m - 1 ==> d !in list[q].docids;
        assert list[m - 1].impact <= NextImpact(list, n);
      }
    }
  }

  // ----- all terms

  lemma {:induction false} RestIsBounded(lists: seq<seq<Quantum>>, documents: nat, next: seq<nat>, m: nat, d: nat)
    requires WellFormed(lists, documents) && Counts(lists, next) && m <= |lists|
    ensures PartialScore(lists, next, m, d) <= PartialScore(lists, Lengths(lists), m, d)
    ensures PartialScore(lists, Lengths(lists), m, d)
         <= PartialScore(lists, next, m, d) + RemainingImpact(lists, next, m)
  {
    if m > 0 {
      RestIsBounded(lists, documents, next, m - 1, d);
      TermRest(lists[m - 1], documents, next[m - 1], |lists[m - 1]|, d);
    }
  }

  /** Processing one more segment of term `t` changes that term's share only. */
  lemma {:induction false} OneMore(lists: seq<seq<Quantum>>, next: seq<nat>, t: nat, m: nat, d: nat)
    requires Counts(lists, next) && t < |lists| && next[t] < |lists[t]| && m <= |lists|
    ensures Counts(lists, next[t := next[t] + 1])
    ensures PartialScore(lists, next[t := next[t] + 1], m, d)
         == PartialScore(lists, next, m, d) + if t < m then Gain(lists[t][next[t]], d) else 0
  {
    if m > 0 {
      OneMore(lists, next, t, m - 1, d);
    }
  }

  lemma {:induction false} OneMoreRemaining(lists: seq<seq<Quantum>>, next: seq<nat>, t: nat, m: nat)
    requires Counts(lists, next) && t < |lists| && next[t] < |lists[t]| && m <= |lists|
    ensures var next' := next[t := next[t] + 1];
            if t < m then
              && lists[t][next[t]].impact <= RemainingImpact(lists, next, m)
              && RemainingImpact(lists, next', m)
                 == RemainingImpact(lists, next, m) - lists[t][next[t]].impact + NextImpact(lists[t], next[t] + 1)
            else RemainingImpact(lists, next', m) == RemainingImpact(lists, next, m)
  {
    if m > 0 {
      OneMoreRemaining(lists, next, t, m - 1);
    }
  }

  /** Nothing is left once every segment has been processed. */
  lemma {:induction false} NothingRemains(lists: seq<seq<Quantum>>, m: nat)
    requires m <= |lists|
    ensures RemainingImpact(lists, Lengths(lists), m) == 0
  {
    if m > 0 {
      NothingRemains(lists, m - 1);
    }
  }

  // ----- the merged order

  ghost predicate IsEntry(lists: seq<seq<Quantum>>, e: Entry) {
    e.term < |lists| && e.which < |lists[e.term]|
  }

  function Header(lists: seq<seq<Quantum>>, e: Entry): Quantum
    requires e.term < |lists| && e.which < |lists[e.term]|
  {
    lists[e.term][e.which]
  }

  /** `quantum_compare`: highest impact first; on a tie the shortest segment first. */
  function QuantumCompare(a: Quantum, b: Quantum): int {
    if a.impact > b.impact then -1
    else if a.impact < b.impact then 1
    else if |a.docids| > |b.docids| then 1
    else if |a.docids| == |b.docids| then 0
    else -1
  }

  /** Any list that sorting all the query's segments by `quantum_compare` may yield. */
  ghost predicate IsSegmentOrder(lists: seq<seq<Quantum>>, order: seq<Entry>) {
    && (forall i :: 0 <= i < |order| ==> IsEntry(lists, order[i]))
    && (forall i, j :: 0 <= i < j < |order| ==> order[i] != order[j])
    && (forall e :: IsEntry(lists, e) ==> e in order)
    && (forall i, j :: 0 <= i < j < |order| ==>
          QuantumCompare(Header(lists, order[i]), Header(lists, order[j])) <= 0)
  }

  /** Greater impacts come first and, of equal impacts, the segments with fewer documents. */
  lemma OrderIsByImpact(lists: seq<seq<Quantum>>, order: seq<Entry>, i: nat, j: nat)
    requires IsSegmentOrder(lists, order) && i < j < |order|
    ensures IsEntry(lists, order[i]) && IsEntry(lists, order[j])
    ensures var a, b := lists[order[i].term][order[i].which], lists[order[j].term][order[j].which];
            a.impact > b.impact || (a.impact == b.impact && |a.docids| <= |b.docids|)
  {
    assert QuantumCompare(Header(lists, order[i]), Header(lists, order[j])) <= 0;
  }

  /** The first `n` entries of the order are the first next[t] segments of each term t. */
  ghost predicate Progress(lists: seq<seq<Quantum>>, order: seq<Entry>, n: nat, next: seq<nat>) {
    && Counts(lists, next) && n <= |order|
    && forall e :: IsEntry(lists, e) ==> (e in order[..n] <==> e.which < next[e.term])
  }

  lemma InPrefix(order: seq<Entry>, n: nat, j: nat)
    requires n <= |order| && j < |order|
    requires forall i, k :: 0 <= i < k < |order| ==> order[i] != order[k]
    ensures order[j] in order[..n] <==> j < n
  {
    if j < n {
      assert order[..n][j] == order[j];
    }
  }

  /** Impact order never takes a term's segments out of turn. */
  lemma InTurn(lists: seq<seq<Quantum>>, documents: nat, order: seq<Entry>, n: nat, next: seq<nat>)
    requires WellFormed(lists, documents) && IsSegmentOrder(lists, order) && Progress(lists, order, n, next)
             && n < |order|
    ensures IsEntry(lists, order[n]) && order[n].which == next[order[n].term]
  {
    var e := order[n];
    InPrefix(order, n, n);
    assert IsEntry(lists, e) && WellFormedList(lists[e.term], documents);
    var f := Entry(e.term, next[e.term]);
    assert IsEntry(lists, f);
    var j :| 0 <= j < |order| && order[j] == f;
    InPrefix(order, n, j);
    assert QuantumCompare(Header(lists, e), Header(lists, f)) <= 0;
  }

  lemma Advance(lists: seq<seq<Quantum>>, order: seq<Entry>, n: nat, next: seq<nat>)
    requires IsSegmentOrder(lists, order) && Progress(lists, order, n, next) && n < |order|
    requires IsEntry(lists, order[n]) && order[n].which == next[order[n].term]
    ensures var t := order[n].term; Progress(lists, order, n + 1, next[t := next[t] + 1])
  {
    assert order[..n + 1] == order[..n] + [order[n]];
  }

  /** How far each term has come depends only on the place in the order. */
  lemma ProgressOnce(lists: seq<seq<Quantum>>, order: seq<Entry>, n: nat, next: seq<nat>, next': seq<nat>)
    requires Progress(lists, order, n, next) && Progress(lists, order, n, next')
    ensures next == next'
  {
    forall t | 0 <= t < |lists| ensures next[t] == next'[t] {
      if next[t] != next'[t] {
        var e := Entry(t, if next[t] < next'[t] then next[t] else next'[t]);
        assert IsEntry(lists, e);
      }
    }
  }

  lemma AllProcessed(lists: seq<seq<Quantum>>, order: seq<Entry>, next: seq<nat>)
    requires IsSegmentOrder(lists, order) && Progress(lists, order, |order|, next)
    ensures next == Lengths(lists)
  {
    assert order[..|order|] == order;
    forall t | 0 <= t < |lists| ensures next[t] == |lists[t]| {
      if next[t] < |lists[t]| {
        var e := Entry(t, next[t]);
        assert IsEntry(lists, e);
      }
    }
  }
}
