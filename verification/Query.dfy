/** The query loop of jass: segments in descending impact, stopping on a postings budget or once
    no remaining segment can change the reported order. */
module Query {
  import opened Order
  import opened MinHeap
  import opened Ranking
  import opened Accumulators
  import opened TopKSort
  import opened Impacts
  import opened Budget

  // ----- scoring one segment

  /** The scores after adding `s` to each of the documents in turn. */
  function AddAll(score: seq<nat>, docids: seq<nat>, s: nat): (r: seq<nat>)
    requires InRange(docids, |score|)
    ensures |r| == |score|
    ensures forall d :: 0 <= d < |score| ==> score[d] <= r[d]
  {
    if docids == [] then score
    else
      var n := |docids| - 1;
      Scored1(AddAll(score, docids[..n], s), docids[n], s)
  }

  lemma {:induction false} AddAllPrefix(score: seq<nat>, docids: seq<nat>, s: nat, n: nat)
    requires InRange(docids, |score|) && n <= |docids|
    ensures InRange(docids[..n], |score|)
    ensures forall d :: 0 <= d < |score| ==> AddAll(score, docids[..n], s)[d] <= AddAll(score, docids, s)[d]
    decreases |docids|
  {
    if n == |docids| {
      assert docids[..n] == docids;
    } else {
      var m := |docids| - 1;
      AddAllPrefix(score, docids[..m], s, n);
      assert docids[..m][..n] == docids[..n];
    }
  }

  lemma {:induction false} AddAllDistinct(score: seq<nat>, docids: seq<nat>, s: nat, d: nat)
    requires InRange(docids, |score|) && Distinct(docids) && d < |score|
    ensures AddAll(score, docids, s)[d] == score[d] + if d in docids then s else 0
  {
    if docids != [] {
      var n := |docids| - 1;
      AddAllDistinct(score, docids[..n], s, d);
      assert docids == docids[..n] + [docids[n]];
    }
  }

  ghost predicate Fits16(score: seq<nat>) {
    forall d :: 0 <= d < |score| ==> score[d] < 0x1_0000
  }

  /** Issues one `add_rsv` for every document of a segment. */
  method ProcessDocids(engine: Engine, docids: seq<nat>, impact: nat)
    requires engine.Valid() && InRange(docids, engine.documents) && impact >= 1
    requires Fits16(AddAll(engine.Scores(), docids, impact))
    modifies engine, engine.accumulators, engine.cleanFlags, engine.pointers
    ensures engine.Valid()
    ensures engine.Scores() == AddAll(old(engine.Scores()), docids, impact)
  {
    ghost var before := engine.Scores();
    ghost var score := before;
    var i := 0;
    while i < |docids|
      invariant i <= |docids| && engine.Valid() && score == engine.Scores()
      invariant score == AddAll(before, docids[..i], impact)
    {
      NextAdded(before, docids, impact, i);
      engine.AddRsv(docids[i], impact);
      score := Scored1(score, docids[i], impact);
      i := i + 1;
    }
    assert docids[..i] == docids;
  }

  lemma NextAdded(before: seq<nat>, docids: seq<nat>, s: nat, i: nat)
    requires InRange(docids, |before|) && i < |docids| && Fits16(AddAll(before, docids, s))
    ensures InRange(docids[..i], |before|) && InRange(docids[..i + 1], |before|)
    ensures AddAll(before, docids[..i + 1], s) == Scored1(AddAll(before, docids[..i], s), docids[i], s)
    ensures AddAll(before, docids[..i], s)[docids[i]] + s < 0x1_0000
  {
    AddAllPrefix(before, docids, s, i + 1);
    assert docids[..i + 1][..i] == docids[..i];
    assert AddAll(before, docids[..i + 1], s)[docids[i]] < 0x1_0000;
  }

  lemma SegmentAdds(lists: seq<seq<Quantum>>, documents: nat, next: seq<nat>, t: nat)
    requires WellFormed(lists, documents) && Counts(lists, next) && t < |lists| && next[t] < |lists[t]|
    ensures Counts(lists, next[t := next[t] + 1]) && InRange(lists[t][next[t]].docids, documents)
    ensures AddAll(PartialScores(lists, next, documents), lists[t][next[t]].docids, lists[t][next[t]].impact)
         == PartialScores(lists, next[t := next[t] + 1], documents)
  {
    assert WellFormedList(lists[t], documents);
    var q, before := lists[t][next[t]], PartialScores(lists, next, documents);
    OneMore(lists, next, t, 0, 0);
    var after := PartialScores(lists, next[t := next[t] + 1], documents);
    forall d: nat | d < documents
      ensures AddAll(before, q.docids, q.impact)[d] == after[d]
    {
      AddAllDistinct(before, q.docids, q.impact, d);
      OneMore(lists, next, t, |lists|, d);
    }
  }

  lemma PartialFits(lists: seq<seq<Quantum>>, documents: nat, next: seq<nat>)
    requires WellFormed(lists, documents) && Counts(lists, next) && Fits16(FullScores(lists, documents))
    ensures Fits16(PartialScores(lists, next, documents))
  {
    forall d | 0 <= d < documents
      ensures PartialScores(lists, next, documents)[d] < 0x1_0000
    {
      RestIsBounded(lists, documents, next, |lists|, d);
      assert FullScores(lists, documents)[d] < 0x1_0000;
    }
  }

  /** Processes the segment whose turn it is. */
  method ProcessSegment(engine: Engine, lists: seq<seq<Quantum>>, e: Entry, ghost next: seq<nat>)
    requires engine.Valid() && WellFormed(lists, engine.documents) && Counts(lists, next)
    requires Fits16(FullScores(lists, engine.documents))
    requires IsEntry(lists, e) && e.which == next[e.term]
    requires engine.Scores() == PartialScores(lists, next, engine.documents)
    modifies engine, engine.accumulators, engine.cleanFlags, engine.pointers
    ensures engine.Valid() && Counts(lists, next[e.term := e.which + 1])
    ensures engine.Scores() == PartialScores(lists, next[e.term := e.which + 1], engine.documents)
  {
    SegmentAdds(lists, engine.documents, next, e.term);
    PartialFits(lists, engine.documents, next[e.term := e.which + 1]);
    assert WellFormedList(lists[e.term], engine.documents);
    var header := lists[e.term][e.which];
    ProcessDocids(engine, header.docids, header.impact);
  }

  /** Processes the segment at place `c` of the order, which is its term's next one. */
  method TakeSegment(engine: Engine, lists: seq<seq<Quantum>>, order: seq<Entry>, c: nat, ghost next: seq<nat>)
    returns (ghost next': seq<nat>)
    requires engine.Valid() && WellFormed(lists, engine.documents) && Fits16(FullScores(lists, engine.documents))
    requires IsSegmentOrder(lists, order) && c < |order| && Progress(lists, order, c, next)
    requires engine.Scores() == PartialScores(lists, next, engine.documents)
    modifies engine, engine.accumulators, engine.cleanFlags, engine.pointers
    ensures engine.Valid() && IsEntry(lists, order[c]) && order[c].which == next[order[c].term]
    ensures next' == next[order[c].term := order[c].which + 1] && Progress(lists, order, c + 1, next')
    ensures engine.Scores() == PartialScores(lists, next', engine.documents)
  {
    InTurn(lists, engine.documents, order, c, next);
    Advance(lists, order, c, next);
    ProcessSegment(engine, lists, order[c], next);
    next' := next[order[c].term := order[c].which + 1];
  }

  // ----- extracting the results

  /** The final sort and the documents it reports. */
  method Report(engine: Engine, k: nat) returns (out: seq<nat>)
    requires engine.Valid() && k <= engine.topK && engine.pointers.Length < 0x1_0000_0000
    modifies engine.pointers
    ensures IsRanking(old(engine.Scores()), out, k)
    ensures out == NaiveTopK(old(engine.Scores()), k)
    ensures forall d :: d in out ==> d in old(engine.pointers[..engine.resultsListLength])
  {
    ghost var score, p := engine.Scores(), engine.pointers[..engine.resultsListLength];
    engine.PositiveIsStored(score, p);
    var n := engine.resultsListLength;
    var sorter := new Sorter(engine.pointers, n, engine.accumulators);
    sorter.TopKQsort(0, n, k);
    ghost var q := engine.pointers[..n];
    assert engine.Scores() == score;
    SameElements(p, q, engine.documents);
    engine.StoredPermuted(score, p, q);
    SortedByScore(engine.accumulators[..], score, q, k);
    SortedStateIsRanking(score, p, q, engine.topK, k);
    var m := if n < k then n else k;
    out := engine.pointers[..m];
    assert out == q[..m];
    RankingIsNaive(score, out, k);
  }

  lemma SortedByScore(memory: seq<nat>, score: seq<nat>, q: seq<nat>, k: nat)
    requires InRange(q, |memory|) && InRange(q, |score|)
    requires forall i :: 0 <= i < |q| ==> memory[q[i]] == score[q[i]]
    requires FirstKFinal(memory, q, 0, |q|, k)
    ensures forall i, j :: 0 <= i < j < |q| && i < k ==> AtMost(score, q[j], q[i])
  {
    forall i, j | 0 <= i < j < |q| && i < k ensures AtMost(score, q[j], q[i]) {
      assert NotAfter(memory, q[i], q[j]);
    }
  }

  // ----- stopping once the order is settled

  /** There are k + 1 scored documents, and each of the k + 1 best is at least `gap` ahead of the next. */
  ghost predicate Settled(score: seq<nat>, k: nat, gap: nat) {
    var best := NaiveTopK(score, k + 1);
    |best| == k + 1 && InRange(best, |score|) && Ahead(score, best, gap)
  }

  ghost predicate Ahead(score: seq<nat>, best: seq<nat>, gap: nat)
    requires InRange(best, |score|)
  {
    forall i :: 0 <= i < |best| - 1 ==> score[best[i + 1]] + gap <= score[best[i]]
  }

  lemma {:induction false} NeighboursApart(score: seq<nat>, q: seq<nat>, gap: nat, i: nat, j: nat)
    requires InRange(q, |score|) && i < j < |q| && Ahead(score, q, gap)
    ensures score[q[j]] + gap <= score[q[i]]
    decreases j - i
  {
    if i + 1 < j {
      NeighboursApart(score, q, gap, i, j - 1);
      assert score[q[j - 1 + 1]] + gap <= score[q[j - 1]];
    } else {
      assert score[q[i + 1]] + gap <= score[q[i]];
    }
  }

  /** A full state, sorted, is the k best. */
  lemma SortedIsNaive(score: seq<nat>, p: seq<nat>, q: seq<nat>, k: nat)
    requires TopKState(score, p, k) && |p| == k > 0 && multiset(p) == multiset(q) && InRange(q, |score|)
    requires forall i, j :: 0 <= i < j < |q| ==> AtMost(score, q[j], q[i])
    ensures q == NaiveTopK(score, k)
  {
    SameElements(p, q, |score|);
    SortedStateIsRanking(score, p, q, k, k);
    assert q[..k] == q;
    RankingIsNaive(score, q, k);
  }

  /** A state that is not full has no k best. */
  lemma NotFull(score: seq<nat>, p: seq<nat>, k: nat)
    requires TopKState(score, p, k) && |p| < k
    ensures |NaiveTopK(score, k)| < k
  {
    StateIsTopK(score, p, k);
    NaiveIsRanking(score, k);
    RankingIsBestFirst(score, NaiveTopK(score, k), k);
  }

  /** Copies the k + 1 best and sorts the copy. */
  method SortedCopy(engine: Engine, ghost score: seq<nat>, ghost p: seq<nat>) returns (check: array<nat>)
    requires engine.Valid() && engine.resultsListLength == engine.topK < 0x1_0000_0000
    requires score == engine.Scores() && p == engine.pointers[..engine.topK]
    ensures fresh(check) && check.Length == engine.topK
    ensures multiset(check[..]) == multiset(p) && InRange(check[..], |score|)
            && InRange(check[..], engine.accumulators.Length)
    ensures forall i :: 0 <= i < check.Length ==> engine.accumulators[..][check[..][i]] == score[check[..][i]]
    ensures forall i, j :: 0 <= i < j < check.Length ==> AtMost(score, check[..][j], check[..][i])
  {
    engine.PositiveIsStored(score, p);
    var n := engine.topK;
    check := new nat[n](i requires 0 <= i < n
                        && n <= engine.pointers.Length reads engine, engine.pointers => engine.pointers[i]);
    assert check[..n] == p;
    var sorter := new Sorter(check, n, engine.accumulators);
    sorter.TopKQsort(0, n, n);
    ghost var q := check[..n];
    assert q == check[..];
    assert engine.Scores() == score;
    engine.StoredPermuted(score, p, q);
    SortedByScore(engine.accumulators[..], score, q, n);
  }

  /** Looks for two neighbours among the k + 1 best that are closer than `gap`. */
  method OrderIsSettled(engine: Engine, gap: nat) returns (settled: bool)
    requires engine.Valid() && engine.resultsListLength == engine.topK < 0x1_0000_0000
    ensures settled <==> Settled(engine.Scores(), engine.topK - 1, gap)
    ensures engine.Valid()
  {
    ghost var score, p := engine.Scores(), engine.pointers[..engine.topK];
    var check := SortedCopy(engine, score, p);
    ghost var q := check[..];
    SortedIsNaive(score, p, q, engine.topK);
    var i := 0;
    while i < check.Length - 1
      invariant 0 <= i <= check.Length - 1
      invariant forall a :: 0 <= a < i ==> score[q[a + 1]] + gap <= score[q[a]]
    {
      assert check[i] == q[i] && check[i + 1] == q[i + 1];
      if engine.accumulators[check[i]] - engine.accumulators[check[i + 1]] < gap {
        return false;
      }
      i := i + 1;
    }
    return true;
  }

  /** In the final scores no reported document is strictly overtaken: not by one reported after
      it, and not by one that was not reported. */
  ghost predicate NoneOvertakes(final: seq<nat>, out: seq<nat>)
    requires InRange(out, |final|)
  {
    && (forall i, j :: 0 <= i < j < |out| ==> final[out[j]] <= final[out[i]])
    && (forall d, i :: 0 <= d < |final| && d !in out && 0 <= i < |out| ==> final[d] <= final[out[i]])
  }

  /** The k best are the first of the k + 1 best. */
  lemma OneFewer(score: seq<nat>, k: nat, best: seq<nat>)
    requires best == NaiveTopK(score, k + 1) && |best| == k + 1
    ensures NaiveTopK(score, k) == best[..k] && IsRanking(score, best, k + 1)
  {
    NaiveIsRanking(score, k + 1);
    assert forall i :: 0 <= i < k ==> best[..k][i] == best[i];
    forall d, i | 0 <= d < |score| && score[d] > 0 && d !in best[..k] && 0 <= i < k ensures Below(score, d, best[i]) {
      if d in best {
        assert d == best[k];
      }
    }
    RankingIsNaive(score, best[..k], k);
  }

  /** The k + 1 best are apart by all that is still to come, so the order of the first k is final. */
  lemma SettledIsFinal(score: seq<nat>, final: seq<nat>, out: seq<nat>, k: nat, gap: nat)
    requires Settled(score, k, gap) && out == NaiveTopK(score, k)
    requires |final| == |score| && MissesAtMost(score, final, gap)
    ensures |out| == k && InRange(out, |final|) && NoneOvertakes(final, out)
  {
    var best := NaiveTopK(score, k + 1);
    OneFewer(score, k, best);
    forall i, j | 0 <= i < j < |out| ensures final[out[j]] <= final[out[i]] {
      NeighboursApart(score, best, gap, i, j);
    }
    forall d, i | 0 <= d < |final| && d !in out && 0 <= i < |out| ensures final[d] <= final[out[i]] {
      NeighboursApart(score, best, gap, i, k);
      LeftOut(score, best, k, d);
    }
  }

  /** What is not among the k best is not better than the one after them. */
  lemma LeftOut(score: seq<nat>, best: seq<nat>, k: nat, d: nat)
    requires IsRanking(score, best, k + 1) && |best| == k + 1 && d < |score| && d !in best[..k]
    ensures score[d] <= score[best[k]]
  {
    if d in best {
      var i :| 0 <= i < |best| && best[i] == d;
      assert i == k;
    }
  }

  /** `max_remaining_impact` as the query's lists are merged: one document may have every term's best impact. */
  method FirstImpacts(lists: seq<seq<Quantum>>) returns (sum: nat, ghost none: seq<nat>)
    requires forall t :: 0 <= t < |lists| ==> |lists[t]| >= 1
    ensures none == seq(|lists|, t => 0) && Counts(lists, none)
    ensures sum == RemainingImpact(lists, none, |lists|)
  {
    none := seq(|lists|, t => 0);
    sum := 0;
    var t := 0;
    while t < |lists|
      invariant 0 <= t <= |lists| && sum == RemainingImpact(lists, none, t)
    {
      sum := sum + lists[t][0].impact;
      t := t + 1;
    }
  }

  lemma NothingProcessed(lists: seq<seq<Quantum>>, order: seq<Entry>, next: seq<nat>, documents: nat)
    requires next == seq(|lists|, t => 0) && Counts(lists, next)
    ensures Progress(lists, order, 0, next)
    ensures PartialScores(lists, next, documents) == seq(documents, d => 0)
  {
    forall d: nat | d < documents ensures PartialScores(lists, next, documents)[d] == 0 {
      ZeroScore(lists, next, |lists|, d);
    }
  }

  lemma {:induction false} ZeroScore(lists: seq<seq<Quantum>>, next: seq<nat>, m: nat, d: nat)
    requires next == seq(|lists|, t => 0) && Counts(lists, next) && m <= |lists|
    ensures PartialScore(lists, next, m, d) == 0
  {
    if m > 0 {
      ZeroScore(lists, next, m - 1, d);
    }
  }

  /** The impacts in the headers behind those of a list's segments. */
  ghost predicate IsBehind(list: seq<Quantum>, impacts: seq<nat>) {
    |impacts| == |list| && forall i :: 0 <= i < |list| ==> impacts[i] == NextImpact(list, i + 1)
  }

  ghost predicate AreBehind(lists: seq<seq<Quantum>>, behind: seq<seq<nat>>) {
    |behind| == |lists| && forall t :: 0 <= t < |lists| ==> IsBehind(lists[t], behind[t])
  }

  /** The bound on the rest, once the segment has been taken. */
  method LowerBound(lists: seq<seq<Quantum>>, behind: seq<seq<nat>>, e: Entry, maxRemaining: nat, ghost next: seq<nat>)
    returns (maxRemaining': nat)
    requires AreBehind(lists, behind) && Counts(lists, next) && IsEntry(lists, e) && e.which == next[e.term]
    requires maxRemaining == RemainingImpact(lists, next, |lists|)
    ensures maxRemaining' == RemainingImpact(lists, next[e.term := e.which + 1], |lists|)
  {
    OneMoreRemaining(lists, next, e.term, |lists|);
    assert IsBehind(lists[e.term], behind[e.term]);
    maxRemaining' := maxRemaining - lists[e.term][e.which].impact + behind[e.term][e.which];
  }

  /** Once the heap is full: is the order settled? */
  method MayEnd(engine: Engine, gap: nat, ghost score: seq<nat>, ghost k: nat) returns (early: bool)
    requires engine.Valid() && engine.topK == k + 1 < 0x1_0000_0000 && score == engine.Scores()
    ensures (early <==> Settled(score, k, gap)) && engine.Valid()
  {
    early := false;
    if engine.resultsListLength > engine.topK - 1 {
      early := OrderIsSettled(engine, gap);
    } else {
      NotFull(score, engine.pointers[..engine.resultsListLength], engine.topK);
    }
  }

  /** After the first c segments of the order, the k + 1 best are apart by all that is still to come. */
  ghost predicate SettledAt(lists: seq<seq<Quantum>>, order: seq<Entry>, documents: nat, k: nat, c: nat,
                            next: seq<nat>) {
    && Progress(lists, order, c, next)
    && Settled(PartialScores(lists, next, documents), k, RemainingImpact(lists, next, |lists|))
  }

  /** One round of the loop: the next segment, the new bound, and the check for an early end. */
  method Round(engine: Engine, lists: seq<seq<Quantum>>, behind: seq<seq<nat>>, order: seq<Entry>, c: nat,
               maxRemaining: nat, ghost next: seq<nat>, ghost k: nat)
    returns (early: bool, maxRemaining': nat, ghost next': seq<nat>)
    requires engine.Valid() && engine.topK == k + 1 < 0x1_0000_0000 && AreBehind(lists, behind)
    requires WellFormed(lists, engine.documents) && Fits16(FullScores(lists, engine.documents))
    requires IsSegmentOrder(lists, order) && c < |order| && Progress(lists, order, c, next)
    requires engine.Scores() == PartialScores(lists, next, engine.documents)
    requires maxRemaining == RemainingImpact(lists, next, |lists|)
    modifies engine, engine.accumulators, engine.cleanFlags, engine.pointers
    ensures engine.Valid() && Progress(lists, order, c + 1, next')
    ensures engine.Scores() == PartialScores(lists, next', engine.documents)
    ensures maxRemaining' == RemainingImpact(lists, next', |lists|)
    ensures early <==> SettledAt(lists, order, engine.documents, k, c + 1, next')
  {
    next' := TakeSegment(engine, lists, order, c, next);
    maxRemaining' := LowerBound(lists, behind, order[c], maxRemaining, next);
    early := MayEnd(engine, maxRemaining', PartialScores(lists, next', engine.documents), k);
  }

  /** Nothing was settled before. */
  ghost predicate NotBefore(lists: seq<seq<Quantum>>, order: seq<Entry>, documents: nat, k: nat, c: nat) {
    forall c': nat, next {:trigger SettledAt(lists, order, documents, k, c', next)} ::
      c' < c ==> !SettledAt(lists, order, documents, k, c', next)
  }

  lemma StillNotBefore(lists: seq<seq<Quantum>>, order: seq<Entry>, documents: nat, k: nat, c: nat, next: seq<nat>)
    requires NotBefore(lists, order, documents, k, c) && Progress(lists, order, c, next)
    requires !SettledAt(lists, order, documents, k, c, next)
    ensures NotBefore(lists, order, documents, k, c + 1)
  {
    forall c': nat, next' | c' < c + 1 ensures !SettledAt(lists, order, documents, k, c', next') {
      if c' == c && Progress(lists, order, c, next') {
        ProgressOnce(lists, order, c, next, next');
      }
    }
  }

  lemma NotAtFirst(lists: seq<seq<Quantum>>, order: seq<Entry>, documents: nat, k: nat, next: seq<nat>)
    requires Progress(lists, order, 0, next) && PartialScores(lists, next, documents) == seq(documents, d => 0)
    ensures !SettledAt(lists, order, documents, k, 0, next)
  {
    NaiveIsRanking(PartialScores(lists, next, documents), k + 1);
  }

  /** The query loop with early termination. It stops at the first place where the order is settled, or at
      the end, and reports the k best of the scores so far; whatever order the sort produced and wherever the
      loop stops, no reported document is overtaken in the scores of all segments. */
  method SearchUntilSettled(engine: Engine, lists: seq<seq<Quantum>>, behind: seq<seq<nat>>, order: seq<Entry>, k: nat)
    returns (out: seq<nat>, early: bool, c: nat, ghost next: seq<nat>)
    requires engine.Shaped() && engine.topK == k + 1 < 0x1_0000_0000 && engine.pointers.Length < 0x1_0000_0000
    requires WellFormed(lists, engine.documents) && Fits16(FullScores(lists, engine.documents))
    requires IsSegmentOrder(lists, order) && AreBehind(lists, behind)
    modifies engine, engine.accumulators, engine.cleanFlags, engine.pointers
    ensures Progress(lists, order, c, next) && out == NaiveTopK(PartialScores(lists, next, engine.documents), k)
    ensures early <==> SettledAt(lists, order, engine.documents, k, c, next)
    ensures NotBefore(lists, order, engine.documents, k, c) && (!early ==> c == |order|)
    ensures InRange(out, engine.documents) && Distinct(out)
    ensures NoneOvertakes(FullScores(lists, engine.documents), out)
    ensures early ==> |out| == k
    ensures !early ==> out == NaiveTopK(FullScores(lists, engine.documents), k)
  {
    early, c, next := ProcessUntilSettled(engine, lists, behind, order, k);
    ghost var score := engine.Scores();
    out := Report(engine, k);
    RankingStands(score, out, k);
    if early {
      EarlyEndIsFinal(lists, engine.documents, next, score, out, k);
    } else {
      AllProcessed(lists, order, next);
    }
  }

  /** The loop. */
  method ProcessUntilSettled(engine: Engine, lists: seq<seq<Quantum>>, behind: seq<seq<nat>>, order: seq<Entry>,
                             ghost k: nat)
    returns (early: bool, c: nat, ghost next: seq<nat>)
    requires engine.Shaped() && engine.topK == k + 1 < 0x1_0000_0000
    requires WellFormed(lists, engine.documents) && Fits16(FullScores(lists, engine.documents))
    requires IsSegmentOrder(lists, order) && AreBehind(lists, behind)
    modifies engine, engine.accumulators, engine.cleanFlags, engine.pointers
    ensures engine.Valid() && Progress(lists, order, c, next)
    ensures engine.Scores() == PartialScores(lists, next, engine.documents)
    ensures early <==> SettledAt(lists, order, engine.documents, k, c, next)
    ensures NotBefore(lists, order, engine.documents, k, c) && (!early ==> c == |order|)
  {
    engine.Rewind();
    var maxRemaining;
    maxRemaining, next := FirstImpacts(lists);
    NothingProcessed(lists, order, next, engine.documents);
    NotAtFirst(lists, order, engine.documents, k, next);
    early, c := false, 0;
    while c < |order| && !early
      invariant c <= |order| && engine.Valid() && Progress(lists, order, c, next)
      invariant engine.Scores() == PartialScores(lists, next, engine.documents)
      invariant maxRemaining == RemainingImpact(lists, next, |lists|)
      invariant early <==> SettledAt(lists, order, engine.documents, k, c, next)
      invariant NotBefore(lists, order, engine.documents, k, c)
      decreases |order| - c
    {
      StillNotBefore(lists, order, engine.documents, k, c, next);
      early, maxRemaining, next := Round(engine, lists, behind, order, c, maxRemaining, next, k);
      c := c + 1;
    }
  }

  lemma EarlyEndIsFinal(lists: seq<seq<Quantum>>, documents: nat, next: seq<nat>, score: seq<nat>, out: seq<nat>,
                        k: nat)
    requires WellFormed(lists, documents) && Counts(lists, next) && score == PartialScores(lists, next, documents)
    requires Settled(score, k, RemainingImpact(lists, next, |lists|)) && out == NaiveTopK(score, k)
    ensures |out| == k && InRange(out, documents) && NoneOvertakes(FullScores(lists, documents), out)
  {
    RestIsMissing(lists, documents, next);
    SettledIsFinal(score, FullScores(lists, documents), out, k, RemainingImpact(lists, next, |lists|));
  }

  lemma RankingStands(score: seq<nat>, out: seq<nat>, k: nat)
    requires IsRanking(score, out, k)
    ensures Distinct(out) && NoneOvertakes(score, out)
  {
  }

  // ----- stopping on a budget

  function Frequencies(lists: seq<seq<Quantum>>, order: seq<Entry>): (r: seq<nat>)
    requires forall i :: 0 <= i < |order| ==> order[i].term < |lists| && order[i].which < |lists[order[i].term]|
    ensures |r| == |order|
    ensures forall i :: 0 <= i < |r| ==> r[i] == |Header(lists, order[i]).docids|
  {
    seq(|order|, i requires 0 <= i < |order| => |Header(lists, order[i]).docids|)
  }

  /** Every document's partial score misses at most `gap` of its final score. */
  ghost predicate MissesAtMost(score: seq<nat>, final: seq<nat>, gap: nat)
    requires |score| == |final|
  {
    forall d :: 0 <= d < |score| ==> score[d] <= final[d] <= score[d] + gap
  }

  lemma RestIsMissing(lists: seq<seq<Quantum>>, documents: nat, next: seq<nat>)
    requires WellFormed(lists, documents) && Counts(lists, next)
    ensures MissesAtMost(PartialScores(lists, next, documents), FullScores(lists, documents),
                         RemainingImpact(lists, next, |lists|))
  {
    forall d: nat | d < documents
      ensures PartialScores(lists, next, documents)[d] <= FullScores(lists, documents)[d]
           <= PartialScores(lists, next, documents)[d] + RemainingImpact(lists, next, |lists|)
    {
      RestIsBounded(lists, documents, next, |lists|, d);
    }
  }

  /** The loop: segments are taken while the 32-bit guard lets the next one through. */
  method ProcessWithin(engine: Engine, lists: seq<seq<Quantum>>, order: seq<Entry>, budget: nat, ghost freqs: seq<nat>)
    returns (segments: nat, ghost next: seq<nat>)
    requires engine.Shaped()
    requires WellFormed(lists, engine.documents) && Fits16(FullScores(lists, engine.documents))
    requires IsSegmentOrder(lists, order) && freqs == Frequencies(lists, order)
    modifies engine, engine.accumulators, engine.cleanFlags, engine.pointers
    ensures engine.Valid() && segments == StopsAt(freqs, budget, 0, 0)
    ensures Progress(lists, order, segments, next)
    ensures engine.Scores() == PartialScores(lists, next, engine.documents)
  {
    engine.Rewind();
    next := seq(|lists|, t => 0);
    NothingProcessed(lists, order, next, engine.documents);
    var processed: nat := 0;
    segments := 0;
    while segments < |order|
      invariant segments <= |order| && engine.Valid() && Progress(lists, order, segments, next)
      invariant engine.Scores() == PartialScores(lists, next, engine.documents)
      invariant StopsAt(freqs, budget, segments, processed) == StopsAt(freqs, budget, 0, 0)
    {
      assert IsEntry(lists, order[segments]);
      var frequency := |Header(lists, order[segments]).docids|;
      assert frequency == freqs[segments];
      if Add32(processed, frequency) > budget {
        break;
      }
      next := TakeSegment(engine, lists, order, segments, next);
      processed := Add32(processed, frequency);
      segments := segments + 1;
    }
  }

  /** The anytime query. The result ranks the documents by what the processed prefix of the order
      adds; no document misses more than the sum of each term's next impact. */
  method SearchAnytime(engine: Engine, lists: seq<seq<Quantum>>, order: seq<Entry>, k: nat, budget: nat)
    returns (out: seq<nat>, segments: nat, ghost next: seq<nat>)
    requires engine.Shaped() && engine.topK == k + 1 && engine.pointers.Length < 0x1_0000_0000
    requires WellFormed(lists, engine.documents) && Fits16(FullScores(lists, engine.documents))
    requires IsSegmentOrder(lists, order)
    modifies engine, engine.accumulators, engine.cleanFlags, engine.pointers
    ensures segments == StopsAt(Frequencies(lists, order), budget, 0, 0)
    ensures Progress(lists, order, segments, next)
    ensures out == NaiveTopK(PartialScores(lists, next, engine.documents), k)
    ensures MissesAtMost(PartialScores(lists, next, engine.documents), FullScores(lists, engine.documents),
                         RemainingImpact(lists, next, |lists|))
  {
    segments, next := ProcessWithin(engine, lists, order, budget, Frequencies(lists, order));
    RestIsMissing(lists, engine.documents, next);
    out := Report(engine, k);
  }
}
