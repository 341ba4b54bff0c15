/** Handing queries to threads: `get_next_query` and the worker loop of `anytime`, as interleaved
    atomic steps of any number of threads over one list of `taken` flags. */
module HandOut {

  /** Where a thread is: about to read `taken`, about to compare-and-swap it, processing the query
      it was given, or past its loop. */
  datatype Phase = Looking | Claiming | Serving | Done

  /** `cursor` is `starting_from`; `given` lists the queries returned to this thread. */
  datatype Thread = Thread(cursor: nat, phase: Phase, given: seq<nat>)

  datatype State = State(taken: seq<bool>, threads: seq<Thread>)

  function Init(queries: seq<string>, threads: nat): State {
    State(seq(|queries|, i => false), seq(threads, t => Thread(0, Looking, [])))
  }

  /** What one atomic step makes of a thread and of the flags. An empty string, whether the list
      is exhausted or an empty query was claimed, ends the worker loop. */
  function Act(queries: seq<string>, taken: seq<bool>, th: Thread): (r: (Thread, seq<bool>))
    requires |taken| == |queries| && th.phase != Done
  {
    var i := th.cursor;
    match th.phase
    case Looking =>
      if i >= |queries| then (th.(phase := Done), taken)
      else if taken[i] then (th.(cursor := i + 1), taken)
      else (th.(phase := Claiming), taken)
    case Claiming =>
      if i < |queries| && !taken[i] then
        (Thread(i, if queries[i] == "" then Done else Serving, th.given + [i]), taken[i := true])
      else (th.(phase := Looking), taken)
    case Serving => (th.(phase := Looking), taken)
  }

  function Step(queries: seq<string>, s: State, t: nat): State
    requires |s.taken| == |queries| && t < |s.threads| && s.threads[t].phase != Done
  {
    var (th, taken) := Act(queries, s.taken, s.threads[t]);
    State(taken, s.threads[t := th])
  }

  /** A run: each state follows from the one before by a step of some thread. */
  ghost predicate IsRun(queries: seq<string>, threads: nat, run: seq<State>) {
    && |run| >= 1 && run[0] == Init(queries, threads)
    && forall n :: 0 <= n < |run| - 1 ==> Follows(queries, run[n], run[n + 1])
  }

  ghost predicate Follows(queries: seq<string>, s: State, s': State) {
    && |s.taken| == |queries|
    && exists t: nat :: t < |s.threads| && s.threads[t].phase != Done && s' == Step(queries, s, t)
  }

  // ----- the invariant

  ghost predicate ThreadOk(queries: seq<string>, taken: seq<bool>, th: Thread)
    requires |taken| == |queries|
  {
    && th.cursor <= |queries|
    && (forall i :: 0 <= i < th.cursor ==> taken[i])
    && (th.phase == Claiming ==> th.cursor < |queries|)
    && (th.phase == Serving ==> th.cursor < |queries| && taken[th.cursor] && queries[th.cursor] != "")
    && (th.phase == Done ==> th.cursor == |queries| || DiedOn(queries, th, th.cursor))
    && (forall k :: 0 <= k < |th.given| ==> th.given[k] <= th.cursor && th.given[k] < |queries| && taken[th.given[k]])
    && (forall k, l :: 0 <= k < l < |th.given| ==> th.given[k] < th.given[l])
    && (forall k :: 0 <= k < |th.given| && queries[th.given[k]] == "" ==> DiedOn(queries, th, th.given[k]))
    && (th.phase == Claiming ==> th.cursor !in th.given)
  }

  /** The thread ended because it was given the empty query at `i`. */
  ghost predicate DiedOn(queries: seq<string>, th: Thread, i: nat) {
    th.phase == Done && i < |queries| && queries[i] == "" && th.cursor == i && i in th.given
  }

  ghost predicate Invariant(queries: seq<string>, s: State) {
    && |s.taken| == |queries|
    && (forall i, j :: 0 <= i < j < |queries| && s.taken[j] ==> s.taken[i])
    && (forall t :: 0 <= t < |s.threads| ==> ThreadOk(queries, s.taken, s.threads[t]))
    && (forall i :: 0 <= i < |queries| && s.taken[i] ==>
          exists t :: 0 <= t < |s.threads| && i in s.threads[t].given)
    && (forall t, u, i :: 0 <= t < u < |s.threads| && i in s.threads[t].given ==> i !in s.threads[u].given)
  }

  lemma InitHolds(queries: seq<string>, threads: nat)
    ensures Invariant(queries, Init(queries, threads))
  {
  }

  lemma ActKeeps(queries: seq<string>, taken: seq<bool>, th: Thread)
    requires |taken| == |queries| && th.phase != Done && ThreadOk(queries, taken, th)
    ensures var (th', taken') := Act(queries, taken, th);
            && |taken'| == |queries|
            && ThreadOk(queries, taken', th')
            && (forall i :: 0 <= i < |queries| && taken[i] ==> taken'[i])
  {
    if th.phase == Claiming && !taken[th.cursor] {
      ClaimKeeps(queries, taken, th);
    }
  }

  /** A claim that succeeds. */
  lemma ClaimKeeps(queries: seq<string>, taken: seq<bool>, th: Thread)
    requires |taken| == |queries| && th.phase == Claiming && ThreadOk(queries, taken, th) && !taken[th.cursor]
    ensures ThreadOk(queries, taken[th.cursor := true],
                     Thread(th.cursor, if queries[th.cursor] == "" then Done else Serving, th.given + [th.cursor]))
  {
    var given := th.given + [th.cursor];
    assert given[|th.given|] == th.cursor;
    forall k | 0 <= k < |th.given| ensures th.given[k] < th.cursor && queries[th.given[k]] != "" {
      assert th.given[k] in th.given;
    }
  }

  /** Flags only rise, so the other threads' facts stay. */
  lemma OthersKeep(queries: seq<string>, taken: seq<bool>, taken': seq<bool>, th: Thread)
    requires |taken| == |queries| == |taken'| && ThreadOk(queries, taken, th)
    requires forall i :: 0 <= i < |queries| && taken[i] ==> taken'[i]
    ensures ThreadOk(queries, taken', th)
  {
  }

  lemma StepKeeps(queries: seq<string>, s: State, t: nat)
    requires Invariant(queries, s) && t < |s.threads| && s.threads[t].phase != Done
    ensures Invariant(queries, Step(queries, s, t))
  {
    var th := s.threads[t];
    assert ThreadOk(queries, s.taken, th);
    var (th', taken') := Act(queries, s.taken, th);
    ActKeeps(queries, s.taken, th);
    var s' := Step(queries, s, t);
    forall u | 0 <= u < |s'.threads| ensures ThreadOk(queries, taken', s'.threads[u]) {
      if u != t {
        OthersKeep(queries, s.taken, taken', s.threads[u]);
      }
    }
    GivenSomewhere(queries, s, t);
    GivenOnce(queries, s, t);
  }

  lemma GivenSomewhere(queries: seq<string>, s: State, t: nat)
    requires Invariant(queries, s) && t < |s.threads| && s.threads[t].phase != Done
    ensures var s' := Step(queries, s, t);
            forall i :: 0 <= i < |queries| && s'.taken[i] ==>
              exists u :: 0 <= u < |s'.threads| && i in s'.threads[u].given
  {
    var s' := Step(queries, s, t);
    var th, th' := s.threads[t], s'.threads[t];
    assert forall x :: x in th.given ==> x in th'.given;
    forall i | 0 <= i < |queries| && s'.taken[i]
      ensures exists u :: 0 <= u < |s'.threads| && i in s'.threads[u].given
    {
      if s.taken[i] {
        var u :| 0 <= u < |s.threads| && i in s.threads[u].given;
        assert i in s'.threads[u].given;
      } else {
        assert th'.given[|th.given|] == i;
        assert i in s'.threads[t].given;
      }
    }
  }

  lemma GivenOnce(queries: seq<string>, s: State, t: nat)
    requires Invariant(queries, s) && t < |s.threads| && s.threads[t].phase != Done
    ensures var s' := Step(queries, s, t);
            forall u, v, i :: 0 <= u < v < |s'.threads| && i in s'.threads[u].given ==> i !in s'.threads[v].given
  {
    var s' := Step(queries, s, t);
    var th, th' := s.threads[t], s'.threads[t];
    forall u, v, i | 0 <= u < v < |s'.threads| && i in s'.threads[u].given
      ensures i !in s'.threads[v].given
    {
      if i < |queries| && !s.taken[i] {
        assert ThreadOk(queries, s.taken, s.threads[u]) && ThreadOk(queries, s.taken, s.threads[v]);
        assert i !in s.threads[u].given && i !in s.threads[v].given;
      } else if u == t || v == t {
        assert i in th'.given ==> i in th.given || !s.taken[th.cursor];
      }
    }
  }

  /** The invariant holds in every state of every run. */
  lemma {:induction false} EveryState(queries: seq<string>, threads: nat, run: seq<State>, n: nat)
    requires IsRun(queries, threads, run) && n < |run|
    ensures Invariant(queries, run[n]) && |run[n].threads| == threads
  {
    if n == 0 {
      InitHolds(queries, threads);
    } else {
      EveryState(queries, threads, run, n - 1);
      assert Follows(queries, run[n - 1], run[n - 1 + 1]);
      var t: nat :| t < |run[n - 1].threads| && run[n - 1].threads[t].phase != Done
                 && run[n] == Step(queries, run[n - 1], t);
      StepKeeps(queries, run[n - 1], t);
    }
  }

  // ----- what a finished run has handed out

  function EmptyBefore(queries: seq<string>, i: nat): nat
    requires i <= |queries|
  {
    if i == 0 then 0 else EmptyBefore(queries, i - 1) + if queries[i - 1] == "" then 1 else 0
  }

  /** The threads that ended on an empty query before `i`. */
  ghost function Dead(queries: seq<string>, s: State, i: nat): set<nat> {
    set t: nat | t < |s.threads| && s.threads[t].cursor < i && DiedOn(queries, s.threads[t], s.threads[t].cursor)
  }

  /** Whoever was given the empty query at `i` ended on it. */
  lemma GivenEmpty(queries: seq<string>, taken: seq<bool>, th: Thread, i: nat)
    requires |taken| == |queries| && ThreadOk(queries, taken, th) && i < |queries| && queries[i] == "" && i in th.given
    ensures DiedOn(queries, th, i)
  {
    var k :| 0 <= k < |th.given| && th.given[k] == i;
  }

  /** The claimed empty query at `i` ended exactly one thread. */
  lemma OneEndedAt(queries: seq<string>, s: State, i: nat) returns (t: nat)
    requires Invariant(queries, s) && i < |queries| && s.taken[i] && queries[i] == ""
    ensures t !in Dead(queries, s, i) && Dead(queries, s, i + 1) == Dead(queries, s, i) + {t}
  {
    t :| t < |s.threads| && i in s.threads[t].given;
    GivenEmpty(queries, s.taken, s.threads[t], i);
    assert forall u: nat :: u < |s.threads| && i in s.threads[u].given ==> u == t;
    OnlyOne(queries, s, i, t);
  }

  lemma OnlyOne(queries: seq<string>, s: State, i: nat, t: nat)
    requires i < |queries| && t < |s.threads| && DiedOn(queries, s.threads[t], i)
    requires forall u: nat :: u < |s.threads| && i in s.threads[u].given ==> u == t
    ensures t !in Dead(queries, s, i) && Dead(queries, s, i + 1) == Dead(queries, s, i) + {t}
  {
    forall u: nat ensures u in Dead(queries, s, i + 1) <==> u in Dead(queries, s, i) + {t} {
      if u < |s.threads| && DiedOn(queries, s.threads[u], i) {
        assert i in s.threads[u].given;
      }
    }
  }

  lemma NoneEndedAt(queries: seq<string>, s: State, i: nat)
    requires i < |queries| && queries[i] != ""
    ensures Dead(queries, s, i + 1) == Dead(queries, s, i)
  {
    forall u: nat ensures u in Dead(queries, s, i + 1) <==> u in Dead(queries, s, i) {
    }
  }

  ghost function DeadCount(queries: seq<string>, s: State, i: nat): nat {
    |Dead(queries, s, i)|
  }

  lemma DeadGrows(queries: seq<string>, s: State, i: nat)
    requires Invariant(queries, s) && i < |queries| && s.taken[i]
    ensures DeadCount(queries, s, i + 1) == DeadCount(queries, s, i) + if queries[i] == "" then 1 else 0
  {
    if queries[i] == "" {
      var t := OneEndedAt(queries, s, i);
    } else {
      NoneEndedAt(queries, s, i);
    }
  }

  lemma {:induction false} CountUp(queries: seq<string>, s: State, i: nat)
    requires i <= |queries|
    requires forall j :: 0 <= j < i ==>
               DeadCount(queries, s, j + 1) == DeadCount(queries, s, j) + if queries[j] == "" then 1 else 0
    ensures DeadCount(queries, s, i) == EmptyBefore(queries, i)
  {
    if i == 0 {
      assert Dead(queries, s, 0) == {};
    } else {
      CountUp(queries, s, i - 1);
      assert DeadCount(queries, s, (i - 1) + 1) == DeadCount(queries, s, i);
    }
  }

  /** Every empty query that was claimed ended exactly one thread. */
  lemma EmptyQueriesEndThreads(queries: seq<string>, s: State, i: nat)
    requires Invariant(queries, s) && i <= |queries| && forall j :: 0 <= j < i ==> s.taken[j]
    ensures |Dead(queries, s, i)| == EmptyBefore(queries, i)
  {
    forall j | 0 <= j < i
      ensures DeadCount(queries, s, j + 1) == DeadCount(queries, s, j) + if queries[j] == "" then 1 else 0
    {
      DeadGrows(queries, s, j);
    }
    CountUp(queries, s, i);
  }

  lemma {:induction false} EmptyBeforeGrows(queries: seq<string>, i: nat, j: nat)
    requires i <= j <= |queries|
    ensures EmptyBefore(queries, i) <= EmptyBefore(queries, j)
    decreases j
  {
    if i < j {
      EmptyBeforeGrows(queries, i, j - 1);
    }
  }

  function Claimed(s: State): (c: nat)
    ensures c <= |s.taken|
    ensures forall i :: 0 <= i < c ==> s.taken[i]
    ensures c < |s.taken| ==> !s.taken[c]
  {
    ClaimedFrom(s.taken, 0)
  }

  function ClaimedFrom(taken: seq<bool>, n: nat): (c: nat)
    requires n <= |taken| && forall i :: 0 <= i < n ==> taken[i]
    ensures n <= c <= |taken|
    ensures forall i :: 0 <= i < c ==> taken[i]
    ensures c < |taken| ==> !taken[c]
    decreases |taken| - n
  {
    if n < |taken| && taken[n] then ClaimedFrom(taken, n + 1) else n
  }

  function Firsts(n: nat): (r: set<nat>)
    ensures |r| == n && forall t: nat :: t in r <==> t < n
  {
    if n == 0 then {} else Firsts(n - 1) + {n - 1}
  }

  /** In any reachable state a claimed query has fewer empty queries before it than there are threads. */
  lemma ClaimedNeedsLiveThread(queries: seq<string>, s: State, i: nat)
    requires Invariant(queries, s) && i < |queries| && s.taken[i]
    ensures EmptyBefore(queries, i) < |s.threads|
  {
    EmptyQueriesEndThreads(queries, s, i);
    var t: nat :| t < |s.threads| && i in s.threads[t].given;
    GivenReached(queries, s.taken, s.threads[t], i);
    var all := Firsts(|s.threads|);
    assert Dead(queries, s, i) <= all - {t};
    Smaller(Dead(queries, s, i), all - {t});
  }

  lemma GivenReached(queries: seq<string>, taken: seq<bool>, th: Thread, i: nat)
    requires |taken| == |queries| && ThreadOk(queries, taken, th) && i in th.given
    ensures i <= th.cursor
  {
    var k :| 0 <= k < |th.given| && th.given[k] == i;
  }

  lemma Smaller(a: set<nat>, b: set<nat>)
    requires a <= b
    ensures |a| <= |b|
  {
    assert b == a + (b - a);
  }

  /** A thread that ended with query i unclaimed ended on a claimed empty query. */
  lemma EndedBefore(queries: seq<string>, s: State, t: nat, i: nat, c: nat)
    requires Invariant(queries, s) && t < |s.threads| && s.threads[t].phase == Done
    requires i < |queries| && !s.taken[i] && c == Claimed(s)
    ensures t in Dead(queries, s, c)
  {
    EndedOnClaimed(queries, s.taken, s.threads[t], i);
  }

  lemma EndedOnClaimed(queries: seq<string>, taken: seq<bool>, th: Thread, i: nat)
    requires |taken| == |queries| && ThreadOk(queries, taken, th) && th.phase == Done
    requires i < |queries| && !taken[i]
    ensures DiedOn(queries, th, th.cursor) && taken[th.cursor]
  {
    var k :| 0 <= k < |th.given| && th.given[k] == th.cursor;
  }

  ghost predicate AllDone(s: State) {
    forall t :: 0 <= t < |s.threads| ==> s.threads[t].phase == Done
  }

  /** When every thread has ended, query i has been handed out if and only if fewer empty queries
      precede it than there are threads: in every interleaving, of any number of threads. */
  lemma HandedOutExactly(queries: seq<string>, s: State, i: nat)
    requires Invariant(queries, s) && i < |queries|
    requires AllDone(s)
    ensures s.taken[i] <==> EmptyBefore(queries, i) < |s.threads|
  {
    if s.taken[i] {
      ClaimedNeedsLiveThread(queries, s, i);
    } else {
      var c := Claimed(s);
      assert c <= i;
      EmptyQueriesEndThreads(queries, s, c);
      EmptyBeforeGrows(queries, c, i);
      forall t: nat | t < |s.threads| ensures t in Dead(queries, s, c) {
        EndedBefore(queries, s, t, i, c);
      }
      assert Dead(queries, s, c) == Firsts(|s.threads|);
    }
  }

  /** A thread has ended because it saw the end of the list, and then all queries were claimed, or
      because it was given an empty query. */
  lemma EndMeansAllClaimed(queries: seq<string>, s: State, t: nat)
    requires Invariant(queries, s) && t < |s.threads| && s.threads[t].phase == Done
    ensures s.threads[t].cursor == |queries| ==> forall i :: 0 <= i < |queries| ==> s.taken[i]
    ensures s.threads[t].cursor != |queries| ==>
            exists i :: i in s.threads[t].given && i < |queries| && queries[i] == ""
  {
    assert ThreadOk(queries, s.taken, s.threads[t]);
  }

  /** An empty query can end the only thread with a query left over. */
  lemma EmptyQueryStrands()
    ensures var queries := ["", "1 jass"];
            var s := Step(queries, Step(queries, Init(queries, 1), 0), 0);
            s.threads[0].phase == Done && !s.taken[1]
  {
    var queries := ["", "1 jass"];
    var s0 := Init(queries, 1);
    var s1 := Step(queries, s0, 0);
    assert s1.threads[0] == Thread(0, Claiming, []);
    var s2 := Step(queries, s1, 0);
    assert s2.threads[0] == Thread(0, Done, [0]) && s2.taken[0] && !s2.taken[1];
  }

  // ----- every run ends

  function Rank(queries: seq<string>, taken: seq<bool>, th: Thread): nat
    requires |taken| == |queries| && th.cursor <= |queries|
  {
    match th.phase
    case Done => 0
    case Looking => 5 * (|queries| - th.cursor) + if th.cursor < |queries| && !taken[th.cursor] then 4 else 1
    case Claiming => 5 * (|queries| - th.cursor) + 3
    case Serving => 5 * (|queries| - th.cursor) + 2
  }

  function TotalRank(queries: seq<string>, taken: seq<bool>, threads: seq<Thread>): nat
    requires |taken| == |queries|
    requires forall t :: 0 <= t < |threads| ==> threads[t].cursor <= |queries|
  {
    if threads == [] then 0
    else
      var n := |threads| - 1;
      TotalRank(queries, taken, threads[..n]) + Rank(queries, taken, threads[n])
  }

  lemma ActRanks(queries: seq<string>, taken: seq<bool>, th: Thread)
    requires |taken| == |queries| && th.phase != Done && ThreadOk(queries, taken, th)
    ensures var (th', taken') := Act(queries, taken, th);
            th'.cursor <= |queries| && Rank(queries, taken', th') < Rank(queries, taken, th)
  {
  }

  lemma {:induction false} OthersRank(queries: seq<string>, taken: seq<bool>, taken': seq<bool>, threads: seq<Thread>,
                                      t: nat, th: Thread)
    requires |taken| == |queries| == |taken'| && th.cursor <= |queries|
    requires forall i :: 0 <= i < |queries| && taken[i] ==> taken'[i]
    requires forall u :: 0 <= u < |threads| ==> threads[u].cursor <= |queries|
    requires t < |threads| ==> Rank(queries, taken', th) < Rank(queries, taken, threads[t])
    ensures var threads' := if t < |threads| then threads[t := th] else threads;
            && (forall u :: 0 <= u < |threads'| ==> threads'[u].cursor <= |queries|)
            && TotalRank(queries, taken', threads') <= TotalRank(queries, taken, threads)
            && (t < |threads| ==> TotalRank(queries, taken', threads') < TotalRank(queries, taken, threads))
    decreases |threads|
  {
    if threads != [] {
      var n := |threads| - 1;
      OthersRank(queries, taken, taken', threads[..n], t, th);
      if t < n {
        assert threads[t := th][..n] == threads[..n][t := th];
      } else if t == n {
        assert threads[t := th][..n] == threads[..n];
      }
    }
  }

  /** Every step of every thread decreases one measure: no interleaving goes on for ever. */
  lemma StepDecreases(queries: seq<string>, s: State, t: nat)
    requires Invariant(queries, s) && t < |s.threads| && s.threads[t].phase != Done
    ensures Invariant(queries, Step(queries, s, t))
    ensures (forall u :: 0 <= u < |s.threads| ==> ThreadOk(queries, s.taken, s.threads[u]))
    ensures TotalRank(queries, Step(queries, s, t).taken, Step(queries, s, t).threads)
          < TotalRank(queries, s.taken, s.threads)
  {
    StepKeeps(queries, s, t);
    ActKeeps(queries, s.taken, s.threads[t]);
    ActRanks(queries, s.taken, s.threads[t]);
    var (th, taken) := Act(queries, s.taken, s.threads[t]);
    OthersRank(queries, s.taken, taken, s.threads, t, th);
  }

  // ----- whole runs

  ghost function Measure(queries: seq<string>, s: State): nat
    requires Invariant(queries, s)
  {
    assert forall t :: 0 <= t < |s.threads| ==> ThreadOk(queries, s.taken, s.threads[t]);
    TotalRank(queries, s.taken, s.threads)
  }

  /** No run is longer than the measure of its first state. */
  lemma {:induction false} RunsEnd(queries: seq<string>, threads: nat, run: seq<State>, n: nat)
    requires IsRun(queries, threads, run) && n < |run|
    ensures Invariant(queries, run[0]) && Invariant(queries, run[n])
    ensures Measure(queries, run[n]) + n <= Measure(queries, run[0])
  {
    EveryState(queries, threads, run, 0);
    EveryState(queries, threads, run, n);
    if n > 0 {
      RunsEnd(queries, threads, run, n - 1);
      assert Follows(queries, run[n - 1], run[n - 1 + 1]);
      var t: nat :| t < |run[n - 1].threads| && run[n - 1].threads[t].phase != Done
                 && run[n] == Step(queries, run[n - 1], t);
      StepDecreases(queries, run[n - 1], t);
    }
  }

  /** At the end of every finished run of any number of threads, a query was given to exactly one
      thread if fewer empty queries than threads precede it, and to none otherwise. */
  lemma FinishedRun(queries: seq<string>, threads: nat, run: seq<State>, i: nat)
    requires IsRun(queries, threads, run) && i < |queries|
    requires AllDone(run[|run| - 1])
    ensures var last := run[|run| - 1];
            && |last.threads| == threads
            && ((exists t :: 0 <= t < threads && i in last.threads[t].given) <==> EmptyBefore(queries, i) < threads)
            && (forall t, u :: 0 <= t < u < threads && i in last.threads[t].given ==> i !in last.threads[u].given)
  {
    var last := run[|run| - 1];
    EveryState(queries, threads, run, |run| - 1);
    HandedOutExactly(queries, last, i);
    if exists t :: 0 <= t < threads && i in last.threads[t].given {
      var t :| 0 <= t < threads && i in last.threads[t].given;
      GivenIsTaken(queries, last.taken, last.threads[t], i);
    }
  }

  lemma GivenIsTaken(queries: seq<string>, taken: seq<bool>, th: Thread, i: nat)
    requires |taken| == |queries| && ThreadOk(queries, taken, th) && i in th.given
    ensures i < |queries| && taken[i]
  {
    var k :| 0 <= k < |th.given| && th.given[k] == i;
  }
}
