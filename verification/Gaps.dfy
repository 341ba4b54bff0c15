/** Document numbers and the D1 gaps between them, in 32-bit arithmetic. */
module Gaps {
  import opened Bits

  /** The running sums that are passed to `add_rsv`, starting above `sum`. */
  function RunningSums(sum: nat, gaps: seq<nat>): (r: seq<nat>)
    ensures |r| == |gaps| && Words32(r)
    decreases |gaps|
  {
    TwoTo32();
    if gaps == [] then []
    else
      var next := (sum + gaps[0]) % TWO_32;
      [next] + RunningSums(next, gaps[1..])
  }

  /** Each document number minus the one before it. */
  function GapsOf(last: nat, docids: seq<nat>): (r: seq<nat>)
    requires last < Pow2(32) && Words32(docids)
    ensures |r| == |docids| && Words32(r)
    decreases |docids|
  {
    TwoTo32();
    if docids == [] then []
    else [(docids[0] + TWO_32 - last) % TWO_32] + GapsOf(docids[0], docids[1..])
  }

  lemma {:induction false} GapAt(last: nat, docids: seq<nat>, i: nat)
    requires last < Pow2(32) && Words32(docids) && i < |docids|
    ensures GapsOf(last, docids)[i] == (docids[i] + TWO_32 - if i == 0 then last else docids[i - 1]) % TWO_32
    decreases |docids|
  {
    if i > 0 {
      GapAt(docids[0], docids[1..], i - 1);
    }
  }

  /** Summing the gaps gives back the document numbers, whatever their order. */
  lemma {:induction false} SumsOfGaps(last: nat, docids: seq<nat>)
    requires last < Pow2(32) && Words32(docids)
    ensures RunningSums(last, GapsOf(last, docids)) == docids
    decreases |docids|
  {
    TwoTo32();
    if docids != [] {
      var gap := (docids[0] + TWO_32 - last) % TWO_32;
      assert (last + gap) % TWO_32 == docids[0];
      SumsOfGaps(docids[0], docids[1..]);
      assert GapsOf(last, docids)[1..] == GapsOf(docids[0], docids[1..]);
    }
  }

  /** Different gaps have different sums. */
  lemma {:induction false} SumsDiffer(sum: nat, a: seq<nat>, b: seq<nat>)
    requires Words32(a) && Words32(b) && RunningSums(sum, a) == RunningSums(sum, b)
    ensures a == b
    decreases |a|
  {
    TwoTo32();
    if a != [] {
      assert |RunningSums(sum, b)| == |a|;
      var next := (sum + a[0]) % TWO_32;
      assert RunningSums(sum, a)[0] == RunningSums(sum, b)[0];
      assert (sum + b[0]) % TWO_32 == next;
      assert a[0] == b[0];
      assert RunningSums(sum, a)[1..] == RunningSums(next, a[1..])
        && RunningSums(sum, b)[1..] == RunningSums(next, b[1..]);
      SumsDiffer(next, a[1..], b[1..]);
    }
  }

  lemma {:induction false} RunningSnoc(sum: nat, gaps: seq<nat>, gap: nat)
    requires sum < TWO_32
    ensures RunningSums(sum, gaps + [gap])
         == RunningSums(sum, gaps) + [(Last(sum, gaps) + gap) % TWO_32]
    decreases |gaps|
  {
    if gaps == [] {
      assert gaps + [gap] == [gap];
    } else {
      var next := (sum + gaps[0]) % TWO_32;
      RunningSnoc(next, gaps[1..], gap);
      assert (gaps + [gap])[1..] == gaps[1..] + [gap];
    }
  }

  /** The sum after all the gaps. */
  function Last(sum: nat, gaps: seq<nat>): (r: nat)
    requires sum < TWO_32
    ensures r < TWO_32
    decreases |gaps|
  {
    if gaps == [] then sum else Last((sum + gaps[0]) % TWO_32, gaps[1..])
  }

  lemma {:induction false} LastSnoc(sum: nat, gaps: seq<nat>, gap: nat)
    requires sum < TWO_32
    ensures Last(sum, gaps + [gap]) == (Last(sum, gaps) + gap) % TWO_32
    decreases |gaps|
  {
    if gaps == [] {
      assert gaps + [gap] == [gap];
    } else {
      LastSnoc((sum + gaps[0]) % TWO_32, gaps[1..], gap);
      assert (gaps + [gap])[1..] == gaps[1..] + [gap];
    }
  }

  lemma OneGap(was: nat, docids: seq<nat>, current: nat, done: seq<nat>)
    requires was < Pow2(32) && Words32(docids) && current < |docids|
    ensures done + GapsOf(was, docids[current..])
         == (done + [(docids[current] + TWO_32 - was) % TWO_32]) + GapsOf(docids[current], docids[current + 1..])
  {
    TwoTo32();
    assert docids[current..][1..] == docids[current + 1..];
  }

  /** The gaps, computed in place over the buffered document numbers. */
  method TakeGaps(buffer: array<nat>)
    requires Words32(buffer[..])
    modifies buffer
    ensures buffer[..] == GapsOf(0, old(buffer[..]))
  {
    TwoTo32();
    ghost var docids := buffer[..];
    var was: nat, current: nat := 0, 0;
    while current < buffer.Length
      invariant current <= buffer.Length && was < Pow2(32)
      invariant buffer[current..] == docids[current..]
      invariant buffer[..current] + GapsOf(was, docids[current..]) == GapsOf(0, docids)
    {
      var docid := buffer[current];
      assert docid == docids[current] by { assert buffer[current..][0] == docids[current..][0]; }
      OneGap(was, docids, current, buffer[..current]);
      ghost var before := buffer[..current];
      buffer[current] := (docid + TWO_32 - was) % TWO_32;
      assert buffer[..current + 1] == before + [buffer[current]];
      assert buffer[current + 1..] == docids[current + 1..];
      was := docid;
      current := current + 1;
    }
    assert buffer[..] == buffer[..current] + [];
  }

  /** The calls of `add_rsv` for the integers seen, and the last sum. */
  ghost predicate Summed(seen: seq<nat>, docids: seq<nat>, sum: nat) {
    docids == RunningSums(0, seen) && sum == Last(0, seen)
  }

  /** One call more. */
  method AddGap(docids: seq<nat>, sum: nat, gap: nat, ghost seen: seq<nat>) returns (docids': seq<nat>, sum': nat)
    requires Summed(seen, docids, sum)
    ensures Summed(seen + [gap], docids', sum') && |docids'| == |docids| + 1
  {
    RunningSnoc(0, seen, gap);
    LastSnoc(0, seen, gap);
    sum' := (sum + gap) % TWO_32;
    docids' := docids + [sum'];
  }

  /** The loop that every staged routine runs over the decoded integers: the calls of `add_rsv`. */
  method SumAndAdd(decoded: seq<nat>, integers: nat) returns (docids: seq<nat>)
    requires integers <= |decoded|
    ensures docids == RunningSums(0, decoded[..integers])
  {
    docids := [];
    var sum, current := 0, 0;
    ghost var seen := [];
    while current < integers
      invariant current <= integers && seen == decoded[..current] && Summed(seen, docids, sum)
    {
      docids, sum := AddGap(docids, sum, decoded[current], seen);
      seen := seen + [decoded[current]];
      current := current + 1;
    }
  }
}
