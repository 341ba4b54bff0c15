/** `top_k_qsort`: the quicksort of Bentley and McIlroy (1993, Program 7), descending by score
    and then docid, whose right-hand recursion is cut off once the first `topK` places are final. */
module TopKSort {
  import opened Order

  /** `x` is ranked ahead of `y`, or is `y`. */
  predicate NotAfter(score: seq<nat>, x: nat, y: nat)
    requires x < |score| && y < |score|
  {
    AtMost(score, y, x)
  }

  /** `compare_rev` */
  function CompareRev(memory: array<uint16>, a: nat, b: nat): (r: int)
    requires a < memory.Length && b < memory.Length
    reads memory
    ensures r < 0 <==> Below(memory[..], b, a)
    ensures r > 0 <==> Below(memory[..], a, b)
    ensures r == 0 <==> a == b
    ensures r < 0 <==> memory[a] > memory[b] || (memory[a] == memory[b] && a > b)
  {
    if memory[a] < memory[b] then 1
    else if memory[a] > memory[b] then -1
    else if a < b then 1
    else if a > b then -1
    else 0
  }

  ghost predicate Between(score: seq<nat>, p: nat, q: nat, r: nat)
    requires p < |score| && q < |score| && r < |score|
  {
    (NotAfter(score, p, q) && NotAfter(score, q, r)) || (NotAfter(score, r, q) && NotAfter(score, q, p))
  }

  /** Of the elements at x, y and z, that at m is between the other two. */
  ghost predicate IsMedian(score: seq<nat>, t: seq<nat>, m: nat, x: nat, y: nat, z: nat)
    requires InRange(t, |score|) && x < |t| && y < |t| && z < |t|
  {
    || (m == x && Between(score, t[y], t[x], t[z]))
    || (m == y && Between(score, t[x], t[y], t[z]))
    || (m == z && Between(score, t[x], t[z], t[y]))
  }

  /** The medians of three at the start, in the middle and at the end. */
  ghost predicate AreMedians(score: seq<nat>, t: seq<nat>, first: nat, middle: nat, last: nat, s: nat,
                             l: nat, m: nat, r: nat)
    requires InRange(t, |score|) && first + 2 * s <= last < |t| && first + s <= middle && middle + s <= last
  {
    && IsMedian(score, t, l, first, first + s, first + 2 * s)
    && IsMedian(score, t, m, middle - s, middle, middle + s)
    && IsMedian(score, t, r, last - 2 * s, last - s, last)
  }

  /** The middle of seven; the median of three of up to forty, and of nine of more. */
  ghost predicate IsPivot(score: seq<nat>, t: seq<nat>, base: nat, n: nat, pm: nat)
    requires InRange(t, |score|) && n >= 7 && base + n <= |t|
  {
    if n == 7 then pm == base + n / 2
    else if n <= 40 then IsMedian(score, t, pm, base, base + n / 2, base + (n - 1))
    else exists l: nat, m: nat, r: nat :: l < |t| && m < |t| && r < |t|
           && AreMedians(score, t, base, base + n / 2, base + (n - 1), n / 8, l, m, r)
           && IsMedian(score, t, pm, l, m, r)
  }

  /** The first `topK` of the elements in [lo, hi) are final: none of them is after a later one. */
  ghost predicate FirstKFinal(score: seq<nat>, s: seq<nat>, lo: nat, hi: nat, topK: int)
    requires InRange(s, |score|) && lo <= hi <= |s|
  {
    forall i, j :: lo <= i < j < hi && i - lo < topK ==> NotAfter(score, s[i], s[j])
  }

  /** `t` is `s` rearranged within [lo, hi). */
  ghost predicate RearrangedWithin(s: seq<nat>, t: seq<nat>, lo: nat, hi: nat)
  {
    && |s| == |t| && lo <= hi <= |s|
    && multiset(s) == multiset(t)
    && (forall i :: 0 <= i < lo || hi <= i < |s| ==> s[i] == t[i])
  }

  lemma RangeMultiset(s: seq<nat>, t: seq<nat>, lo: nat, hi: nat)
    requires RearrangedWithin(s, t, lo, hi)
    ensures multiset(s[lo..hi]) == multiset(t[lo..hi])
  {
    assert s[..lo] == t[..lo] && s[hi..] == t[hi..];
    Parts(s, lo, hi);
    Parts(t, lo, hi);
  }

  lemma Parts(s: seq<nat>, lo: nat, hi: nat)
    requires lo <= hi <= |s|
    ensures multiset(s[lo..hi]) == multiset(s) - multiset(s[..lo]) - multiset(s[hi..])
  {
    assert s == s[..lo] + s[lo..hi] + s[hi..];
    assert multiset(s) == multiset(s[..lo]) + multiset(s[lo..hi]) + multiset(s[hi..]);
  }

  /** Every element of the rearranged range was in the range before. */
  lemma Whence(s: seq<nat>, t: seq<nat>, lo: nat, hi: nat, i: nat) returns (j: nat)
    requires RearrangedWithin(s, t, lo, hi) && lo <= i < hi
    ensures lo <= j < hi && s[j] == t[i]
  {
    RangeMultiset(s, t, lo, hi);
    var a, b := s[lo..hi], t[lo..hi];
    assert b[i - lo] == t[i];
    assert t[i] in multiset(b);
    assert t[i] in multiset(a);
    var k :| 0 <= k < |a| && a[k] == t[i];
    j := lo + k;
  }

  ghost predicate AllAhead(score: seq<nat>, s: seq<nat>, pv: nat, lo: int, hi: int)
    requires InRange(s, |score|) && pv < |score|
  {
    forall p :: 0 <= p < |s| && lo <= p < hi ==> Below(score, pv, s[p])
  }

  ghost predicate AllEqual(s: seq<nat>, pv: nat, lo: int, hi: int)
  {
    forall p :: 0 <= p < |s| && lo <= p < hi ==> s[p] == pv
  }

  ghost predicate AllAfter(score: seq<nat>, s: seq<nat>, pv: nat, lo: int, hi: int)
    requires InRange(s, |score|) && pv < |score|
  {
    forall p :: 0 <= p < |s| && lo <= p < hi ==> Below(score, s[p], pv)
  }

  /** The state of the partition loop: equal | ahead | not seen | after | equal. */
  ghost predicate Regions(score: seq<nat>, s: seq<nat>, pv: nat, base: nat, pa: int, pb: int, pc: int, pd: int,
                          end: nat)
    requires InRange(s, |score|) && pv < |score|
  {
    && base <= pa <= pb <= pc + 1 && pc <= pd < end <= |s|
    && AllEqual(s, pv, base, pa) && AllAhead(score, s, pv, pa, pb)
    && AllAfter(score, s, pv, pc + 1, pd + 1) && AllEqual(s, pv, pd + 1, end)
  }

  lemma EqualFromLeft(score: seq<nat>, s: seq<nat>, pv: nat, base: nat, pa: nat, pb: nat, pc: int, pd: int, end: nat)
    requires InRange(s, |score|) && pv < |score| && Regions(score, s, pv, base, pa, pb, pc, pd, end)
    requires pb <= pc && s[pb] == pv
    ensures InRange(Swapped(s, pa, pb), |score|)
    ensures Regions(score, Swapped(s, pa, pb), pv, base, pa + 1, pb + 1, pc, pd, end)
    ensures pb + 1 <= pc ==> Swapped(s, pa, pb)[pb + 1] == s[pb + 1]
  {
  }

  lemma EqualFromRight(score: seq<nat>, s: seq<nat>, pv: nat, base: nat, pa: nat, pb: nat, pc: nat, pd: nat, end: nat)
    requires InRange(s, |score|) && pv < |score| && Regions(score, s, pv, base, pa, pb, pc, pd, end)
    requires pb <= pc && s[pc] == pv
    ensures InRange(Swapped(s, pc, pd), |score|) && RearrangedWithin(s, Swapped(s, pc, pd), base, end)
    ensures Regions(score, Swapped(s, pc, pd), pv, base, pa, pb, pc - 1, pd - 1, end)
    ensures pb < pc ==> Swapped(s, pc, pd)[pb] == s[pb]
  {
  }

  lemma MoveAcross(score: seq<nat>, s: seq<nat>, pv: nat, base: nat, pa: nat, pb: nat, pc: nat, pd: nat, end: nat)
    requires InRange(s, |score|) && pv < |score| && Regions(score, s, pv, base, pa, pb, pc, pd, end)
    requires pb <= pc && Below(score, s[pb], pv) && Below(score, pv, s[pc])
    ensures pb < pc && InRange(Swapped(s, pb, pc), |score|)
    ensures Regions(score, Swapped(s, pb, pc), pv, base, pa, pb + 1, pc - 1, pd, end)
  {
  }

  /** `t` is `s` with the `n` cells from `i` and the `n` cells from `j` exchanged. */
  ghost predicate BlocksSwapped(s: seq<nat>, t: seq<nat>, i: nat, j: nat, n: nat)
    requires i + n <= j && j + n <= |s|
  {
    && |t| == |s|
    && (forall p :: i <= p < i + n ==> t[p] == s[p - i + j])
    && (forall p :: j <= p < j + n ==> t[p] == s[p - j + i])
    && (forall p {:trigger t[p]} :: 0 <= p < |s| && !(i <= p < i + n) && !(j <= p < j + n) ==> t[p] == s[p])
  }

  /** `min` takes `uint32_t`. */
  function MinUint32(x: nat, y: nat): (r: nat)
    ensures x < 0x1_0000_0000 && y < 0x1_0000_0000 ==> r == if x < y then x else y
  {
    var u, v := x % 0x1_0000_0000, y % 0x1_0000_0000;
    if u < v then u else v
  }

  ghost predicate Rearranged(s: seq<nat>, t: seq<nat>) {
    multiset(s) == multiset(t)
  }

  lemma OneMoreSwapped(s: seq<nat>, t: seq<nat>, u: seq<nat>, i: nat, j: nat, m: nat)
    requires i + m + 1 <= j && j + m + 1 <= |s| && BlocksSwapped(s, t, i, j, m) && Rearranged(s, t)
    requires u == Swapped(t, i + m, j + m)
    ensures BlocksSwapped(s, u, i, j, m + 1) && Rearranged(s, u)
  {
  }

  function Least(x: nat, y: nat): nat { if x < y then x else y }

  /** The first exchange after the partition loop: ahead | equal | after | equal. */
  lemma LeftBandToMiddle(score: seq<nat>, s: seq<nat>, t: seq<nat>, pv: nat,
                         base: nat, pa: nat, pb: nat, pd: int, end: nat, n: nat)
    requires InRange(s, |score|) && InRange(t, |score|) && pv < |score|
    requires Regions(score, s, pv, base, pa, pb, pb - 1, pd, end)
    requires n == Least(pa - base, pb - pa) && BlocksSwapped(s, t, base, pb - n, n) && multiset(s) == multiset(t)
    ensures RearrangedWithin(s, t, base, end)
    ensures AllAhead(score, t, pv, base, base + (pb - pa)) && AllEqual(t, pv, base + (pb - pa), pb)
    ensures AllAfter(score, t, pv, pb, pd + 1) && AllEqual(t, pv, pd + 1, end)
  {
  }

  /** The second exchange: ahead | equal | after. */
  lemma RightBandToMiddle(score: seq<nat>, s: seq<nat>, t: seq<nat>, pv: nat,
                          base: nat, ahead: nat, pb: nat, pd: nat, end: nat, n: nat)
    requires InRange(s, |score|) && InRange(t, |score|) && pv < |score|
    requires base + ahead <= pb <= pd <= end <= |s|
    requires AllAhead(score, s, pv, base, base + ahead) && AllEqual(s, pv, base + ahead, pb)
    requires AllAfter(score, s, pv, pb, pd) && AllEqual(s, pv, pd, end)
    requires n == Least(pd - pb, end - pd) && BlocksSwapped(s, t, pb, end - n, n) && multiset(s) == multiset(t)
    ensures RearrangedWithin(s, t, base, end)
    ensures AllAhead(score, t, pv, base, base + ahead)
    ensures AllEqual(t, pv, base + ahead, end - (pd - pb))
    ensures AllAfter(score, t, pv, end - (pd - pb), end)
  {
  }

  /** The pivot came from the range, so the equal band is not empty and both sides are shorter. */
  lemma PivotInBand(score: seq<nat>, s: seq<nat>, u: seq<nat>, pv: nat, base: nat, n: nat, ahead: nat, after: nat,
                    pm: nat)
    requires InRange(u, |score|) && pv < |score| && base + n <= |s| && ahead + after <= n
    requires RearrangedWithin(s, u, base, base + n) && base <= pm < base + n && s[pm] == pv
    requires AllAhead(score, u, pv, base, base + ahead) && AllAfter(score, u, pv, base + n - after, base + n)
    ensures ahead + after < n
  {
    assert RearrangedWithin(u, s, base, base + n);
    var j := Whence(u, s, base, base + n, pm);
  }

  /** [base, pm] is in order but for the element at `pl`, which is still moving left. */
  ghost predicate OrderedBut(score: seq<nat>, s: seq<nat>, base: nat, pm: nat, pl: nat)
    requires InRange(s, |score|)
  {
    base <= pl <= pm < |s| && forall i, j :: base <= i < j <= pm && j != pl ==> NotAfter(score, s[i], s[j])
  }

  lemma StartMoving(score: seq<nat>, s: seq<nat>, base: nat, pm: nat, n: nat)
    requires InRange(s, |score|) && base <= pm < base + n && pm < |s|
    requires FirstKFinal(score, s, base, pm, n)
    ensures OrderedBut(score, s, base, pm, pm)
  {
  }

  lemma MoveLeft(score: seq<nat>, was: seq<nat>, s: seq<nat>, t: seq<nat>, base: nat, end: nat, pm: nat, pl: nat)
    requires InRange(s, |score|) && OrderedBut(score, s, base, pm, pl)
    requires pm < end && RearrangedWithin(was, s, base, end)
    requires pl > base && Below(score, s[pl - 1], s[pl]) && t == Swapped(s, pl, pl - 1)
    ensures InRange(t, |score|) && OrderedBut(score, t, base, pm, pl - 1) && RearrangedWithin(was, t, base, end)
  {
  }

  lemma Settled(score: seq<nat>, s: seq<nat>, base: nat, pm: nat, pl: nat, n: nat)
    requires InRange(s, |score|) && OrderedBut(score, s, base, pm, pl)
    requires pl == base || NotAfter(score, s[pl - 1], s[pl])
    ensures FirstKFinal(score, s, base, pm + 1, n)
  {
    if pl > base {
      assert forall i :: base <= i < pl - 1 ==> NotAfter(score, s[i], s[pl - 1]);
    }
  }

  class Sorter {
    const a: array<nat>
    const limit: nat            // the cells from here on are not in use
    const memory: array<uint16>

    constructor (a: array<nat>, limit: nat, memory: array<uint16>)
      ensures this.a == a && this.limit == limit && this.memory == memory
    {
      this.a, this.limit, this.memory := a, limit, memory;
    }

    ghost predicate Ready()
      reads this, a
    {
      a as object != memory as object && limit <= a.Length && InRange(a[..limit], memory.Length)
    }

    method Swap(i: nat, j: nat)
      requires Ready() && i < limit && j < limit
      modifies a
      ensures a[..limit] == Swapped(old(a[..limit]), i, j)
      ensures Ready()
    {
      ghost var was := a[..limit];
      a[i], a[j] := a[j], a[i];
      assert a[..limit] == was[i := was[j]][j := was[i]];
    }

    /** `swapfunc`: exchanges two disjoint blocks of `n` cells. */
    method SwapBlocks(i: nat, j: nat, n: nat)
      requires Ready() && i + n <= j && j + n <= limit
      modifies a
      ensures Ready() && multiset(a[..limit]) == old(multiset(a[..limit]))
      ensures BlocksSwapped(old(a[..limit]), a[..limit], i, j, n)
    {
      ghost var was := a[..limit];
      ghost var s := was;
      var m := 0;
      while m < n
        invariant m <= n && Ready() && s == a[..limit] && Rearranged(was, s) && BlocksSwapped(was, s, i, j, m)
      {
        s := SwapNext(i, j, m, was, s);
        m := m + 1;
      }
    }

    method SwapNext(i: nat, j: nat, m: nat, ghost was: seq<nat>, ghost s: seq<nat>) returns (ghost t: seq<nat>)
      requires Ready() && s == a[..limit] && i + m + 1 <= j && j + m + 1 <= limit == |was|
      requires Rearranged(was, s) && BlocksSwapped(was, s, i, j, m)
      modifies a
      ensures Ready() && t == a[..limit] && Rearranged(was, t) && BlocksSwapped(was, t, i, j, m + 1)
    {
      t := SwapIn(i + m, j + m, s);
      OneMoreSwapped(was, s, t, i, j, m);
    }

    /** A swap, by the contents before and after. */
    method SwapIn(x: nat, y: nat, ghost s: seq<nat>) returns (ghost t: seq<nat>)
      requires Ready() && x < limit && y < limit && s == a[..limit]
      modifies a
      ensures Ready() && t == a[..limit] && t == Swapped(s, x, y)
    {
      Swap(x, y);
      t := a[..limit];
    }

    /** The position of the median of three: one of the other two is not after it, and it not after the
        other. */
    method Med3(x: nat, y: nat, z: nat, ghost score: seq<nat>, ghost t: seq<nat>) returns (m: nat)
      requires Ready() && x < limit && y < limit && z < limit && score == memory[..] && t == a[..limit]
      ensures (m == x || m == y || m == z) && IsMedian(score, t, m, x, y, z)
    {
      if CompareRev(memory, a[x], a[y]) < 0 {
        m := if CompareRev(memory, a[y], a[z]) < 0 then y
             else if CompareRev(memory, a[x], a[z]) < 0 then z else x;
      } else {
        m := if CompareRev(memory, a[y], a[z]) > 0 then y
             else if CompareRev(memory, a[x], a[z]) > 0 then z else x;
      }
    }

    /** The medians of three elements at the start, in the middle and at the end. */
    method Medians(first: nat, middle: nat, last: nat, s: nat, ghost score: seq<nat>, ghost t: seq<nat>)
      returns (pl: nat, pm: nat, pn: nat)
      requires Ready() && first + 2 * s <= last < limit && first + s <= middle && middle + s <= last
      requires score == memory[..] && t == a[..limit]
      ensures first <= pl <= last && first <= pm <= last && first <= pn <= last
      ensures AreMedians(score, t, first, middle, last, s, pl, pm, pn)
    {
      pl := Med3(first, first + s, first + 2 * s, score, t);
      pm := Med3(middle - s, middle, middle + s, score, t);
      pn := Med3(last - 2 * s, last - s, last, score, t);
    }

    /** The partition element's position: the middle, the median of three, or the median of nine. */
    method ChoosePivot(base: nat, n: nat) returns (pm: nat)
      requires Ready() && n >= 7 && base + n <= limit
      ensures base <= pm < base + n && IsPivot(memory[..], a[..limit], base, n, pm)
    {
      ghost var score, t := memory[..], a[..limit];
      pm := base + n / 2;
      if n > 7 {
        var pl, pn := base, base + (n - 1);
        if n > 40 {
          pl, pm, pn := Medians(pl, pm, pn, n / 8, score, t);
        }
        pm := Med3(pl, pm, pn, score, t);
      }
    }

    method MoveOne(ghost score: seq<nat>, ghost was: seq<nat>, ghost s: seq<nat>, ghost base: nat, ghost end: nat,
                   ghost pm: nat, pl: nat)
      returns (ghost t: seq<nat>)
      requires Ready() && s == a[..limit] && |score| == memory.Length && base < pl && pm < end && pl < limit
      requires OrderedBut(score, s, base, pm, pl) && RearrangedWithin(was, s, base, end)
               && Below(score, s[pl - 1], s[pl])
      modifies a
      ensures Ready() && t == a[..limit] && InRange(t, |score|)
      ensures OrderedBut(score, t, base, pm, pl - 1) && RearrangedWithin(was, t, base, end)
    {
      t := SwapIn(pl, pl - 1, s);
      MoveLeft(score, was, s, t, base, end, pm, pl);
    }

    /** The inner loop of the insertion sort: places the element at `pm` among those before it. */
    method Insert(base: nat, n: nat, pm: nat)
      requires Ready() && base < pm < base + n <= limit
      requires FirstKFinal(memory[..], a[..limit], base, pm, n)
      modifies a
      ensures Ready() && RearrangedWithin(old(a[..limit]), a[..limit], base, base + n)
      ensures FirstKFinal(memory[..], a[..limit], base, pm + 1, n)
    {
      ghost var score, was := memory[..], a[..limit];
      ghost var s := was;
      var pl: nat := pm;
      StartMoving(score, s, base, pm, n);
      while pl > base && CompareRev(memory, a[pl - 1], a[pl]) > 0
        invariant Ready() && s == a[..limit] && RearrangedWithin(was, s, base, base + n)
        invariant OrderedBut(score, s, base, pm, pl)
        decreases pl
      {
        s := MoveOne(score, was, s, base, base + n, pm, pl);
        pl := pl - 1;
      }
      Settled(score, s, base, pm, pl, n);
    }

    method InsertionSort(base: nat, n: nat)
      requires Ready() && base + n <= limit
      modifies a
      ensures Ready()
      ensures RearrangedWithin(old(a[..limit]), a[..limit], base, base + n)
      ensures FirstKFinal(memory[..], a[..limit], base, base + n, n)
    {
      ghost var score := memory[..];
      var pm := base + 1;
      while pm < base + n
        invariant base + 1 <= pm && (n > 0 ==> pm <= base + n)
        invariant Ready() && RearrangedWithin(old(a[..limit]), a[..limit], base, base + n)
        invariant n > 0 ==> FirstKFinal(score, a[..limit], base, pm, n)
      {
        Insert(base, n, pm);
        pm := pm + 1;
      }
    }

    /** The partition loop, which leaves: equal | ahead | after | equal. */
    method Partition(base: nat, n: nat, pv: nat) returns (pa: nat, pb: nat, pc: int, pd: int)
      requires Ready() && n > 0 && base + n <= limit && pv < memory.Length
      modifies a
      ensures Ready() && RearrangedWithin(old(a[..limit]), a[..limit], base, base + n)
      ensures pb == pc + 1
      ensures Regions(memory[..], a[..limit], pv, base, pa, pb, pc, pd, base + n)
    {
      ghost var score := memory[..];
      pa, pb, pc, pd := base, base, base + (n - 1), base + (n - 1);
      while true
        invariant Ready() && RearrangedWithin(old(a[..limit]), a[..limit], base, base + n)
        invariant Regions(score, a[..limit], pv, base, pa, pb, pc, pd, base + n)
        decreases pc - pb + 1
      {
        pa, pb := ScanUp(base, n, pv, pa, pb, pc, pd);
        pc, pd := ScanDown(base, n, pv, pa, pb, pc, pd);
        if pb > pc {
          break;
        }
        MoveAcross(score, a[..limit], pv, base, pa, pb, pc, pd, base + n);
        Swap(pb, pc);
        pb := pb + 1;
        pc := pc - 1;
      }
    }

    method ScanUp(base: nat, n: nat, pv: nat, pa0: nat, pb0: nat, pc: int, pd: int) returns (pa: nat, pb: nat)
      requires Ready() && base + n <= limit && pv < memory.Length
      requires Regions(memory[..], a[..limit], pv, base, pa0, pb0, pc, pd, base + n)
      modifies a
      ensures Ready() && RearrangedWithin(old(a[..limit]), a[..limit], base, base + n)
      ensures pb0 <= pb && Regions(memory[..], a[..limit], pv, base, pa, pb, pc, pd, base + n)
      ensures pb <= pc ==> Below(memory[..], a[pb], pv)
    {
      pa, pb := pa0, pb0;
      ghost var score := memory[..];
      while pb <= pc && CompareRev(memory, a[pb], pv) <= 0
        invariant Ready() && RearrangedWithin(old(a[..limit]), a[..limit], base, base + n)
        invariant pb0 <= pb && Regions(score, a[..limit], pv, base, pa, pb, pc, pd, base + n)
      {
        if CompareRev(memory, a[pb], pv) == 0 {
          EqualFromLeft(score, a[..limit], pv, base, pa, pb, pc, pd, base + n);
          Swap(pa, pb);
          pa := pa + 1;
        }
        pb := pb + 1;
      }
    }

    /** An equal element goes to the right band. */
    method SwapToRight(ghost score: seq<nat>, ghost pv: nat, ghost base: nat, ghost pa: nat, ghost pb: nat, pc: nat,
                       pd: nat, ghost end: nat)
      requires Ready() && |score| == memory.Length && pv < |score| && end <= limit
      requires Regions(score, a[..limit], pv, base, pa, pb, pc, pd, end) && pb <= pc && a[pc] == pv
      modifies a
      ensures Ready() && RearrangedWithin(old(a[..limit]), a[..limit], base, end)
      ensures Regions(score, a[..limit], pv, base, pa, pb, pc - 1, pd - 1, end)
      ensures pb < pc ==> a[pb] == old(a[pb])
    {
      ghost var s := a[..limit];
      EqualFromRight(score, s, pv, base, pa, pb, pc, pd, end);
      ghost var t := SwapIn(pc, pd, s);
      assert a[..limit] == t;
      if pb < pc {
        assert a[pb] == t[pb];
      }
    }

    method ScanDown(base: nat, n: nat, pv: nat, pa: nat, pb: nat, pc0: int, pd0: int) returns (pc: int, pd: int)
      requires Ready() && base + n <= limit && pv < memory.Length
      requires Regions(memory[..], a[..limit], pv, base, pa, pb, pc0, pd0, base + n)
      requires pb <= pc0 ==> Below(memory[..], a[pb], pv)
      modifies a
      ensures Ready() && RearrangedWithin(old(a[..limit]), a[..limit], base, base + n)
      ensures pc <= pc0 && Regions(memory[..], a[..limit], pv, base, pa, pb, pc, pd, base + n)
      ensures pb <= pc ==> Below(memory[..], a[pb], pv) && Below(memory[..], pv, a[pc])
    {
      pc, pd := pc0, pd0;
      ghost var score := memory[..];
      while pc >= pb && CompareRev(memory, a[pc], pv) >= 0
        invariant Ready() && RearrangedWithin(old(a[..limit]), a[..limit], base, base + n)
        invariant pc <= pc0 && Regions(score, a[..limit], pv, base, pa, pb, pc, pd, base + n)
        invariant pb <= pc ==> Below(score, a[pb], pv)
      {
        if CompareRev(memory, a[pc], pv) == 0 {
          SwapToRight(score, pv, base, pa, pb, pc, pd, base + n);
          pd := pd - 1;
        }
        pc := pc - 1;
      }
    }

    /** Exchanges the bands [lo, mid) and [mid, hi) by swapping the shorter one's length of cells. */
    method ExchangeBands(lo: nat, mid: nat, hi: nat, ghost was: seq<nat>) returns (s: nat)
      requires Ready() && was == a[..limit] && lo <= mid <= hi <= limit && hi - lo < 0x1_0000_0000
      modifies a
      ensures Ready() && multiset(was) == multiset(a[..limit])
      ensures s == Least(mid - lo, hi - mid) && BlocksSwapped(was, a[..limit], lo, hi - s, s)
    {
      s := MinUint32(mid - lo, hi - mid);
      if s > 0 {
        SwapBlocks(lo, hi - s, s);
      }
    }

    method LeftToMiddle(base: nat, n: nat, pv: nat, pa: nat, pb: nat, pd: int, ghost score: seq<nat>, ghost s: seq<nat>)
      requires Ready() && n < 0x1_0000_0000 && base + n <= limit && pv < memory.Length
      requires score == memory[..] && s == a[..limit]
      requires Regions(score, s, pv, base, pa, pb, pb - 1, pd, base + n)
      modifies a
      ensures Ready() && RearrangedWithin(s, a[..limit], base, base + n)
      ensures AllAhead(score, a[..limit], pv, base, base + (pb - pa)) && AllEqual(a[..limit], pv, base + (pb - pa), pb)
      ensures AllAfter(score, a[..limit], pv, pb, pd + 1) && AllEqual(a[..limit], pv, pd + 1, base + n)
    {
      var k := ExchangeBands(base, pa, pb, s);
      ghost var t := a[..limit];
      LeftBandToMiddle(score, s, t, pv, base, pa, pb, pd, base + n, k);
    }

    method RightToMiddle(base: nat, n: nat, pv: nat, ghost ahead: nat, pb: nat, pd: nat, ghost score: seq<nat>,
                         ghost s: seq<nat>)
      requires Ready() && n < 0x1_0000_0000 && base + n <= limit && pv < memory.Length
      requires score == memory[..] && s == a[..limit] && base + ahead <= pb <= pd <= base + n
      requires AllAhead(score, s, pv, base, base + ahead) && AllEqual(s, pv, base + ahead, pb)
      requires AllAfter(score, s, pv, pb, pd) && AllEqual(s, pv, pd, base + n)
      modifies a
      ensures Ready() && RearrangedWithin(s, a[..limit], base, base + n)
      ensures AllAhead(score, a[..limit], pv, base, base + ahead)
      ensures AllEqual(a[..limit], pv, base + ahead, base + n - (pd - pb))
      ensures AllAfter(score, a[..limit], pv, base + n - (pd - pb), base + n)
    {
      var k := ExchangeBands(pb, pd, base + n, s);
      ghost var t := a[..limit];
      RightBandToMiddle(score, s, t, pv, base, ahead, pb, pd, base + n, k);
    }

    method ThreeWay(base: nat, n: nat, pv: nat, ghost pm: nat) returns (ahead: nat, after: nat)
      requires Ready() && 0 < n < 0x1_0000_0000 && base + n <= limit
      requires base <= pm < base + n && a[pm] == pv
      modifies a
      ensures Ready() && RearrangedWithin(old(a[..limit]), a[..limit], base, base + n)
      ensures ahead + after < n && pv < memory.Length
      ensures AllAhead(memory[..], a[..limit], pv, base, base + ahead)
      ensures AllEqual(a[..limit], pv, base + ahead, base + n - after)
      ensures AllAfter(memory[..], a[..limit], pv, base + n - after, base + n)
    {
      ghost var was, score := a[..limit], memory[..];
      var pa, pb, pc, pd := Partition(base, n, pv);
      LeftToMiddle(base, n, pv, pa, pb, pd, score, a[..limit]);
      RightToMiddle(base, n, pv, pb - pa, pb, pd + 1, score, a[..limit]);
      ahead, after := pb - pa, pd - pc;
      PivotInBand(score, was, a[..limit], pv, base, n, ahead, after, pm);
    }

    /** For every array: terminates, permutes, and makes the first `topK` places final. */
    method TopKQsort(base: nat, n: nat, topK: int)
      requires Ready() && base + n <= limit && n < 0x1_0000_0000
      modifies a
      ensures Ready()
      ensures RearrangedWithin(old(a[..limit]), a[..limit], base, base + n)
      ensures FirstKFinal(memory[..], a[..limit], base, base + n, topK)
      decreases n
    {
      if n < 7 {
        InsertionSort(base, n);
        return;
      }
      var pm := ChoosePivot(base, n);
      var pv := a[pm];
      var s, s2 := ThreeWay(base, n, pv, pm);
      ghost var split := a[..limit];
      if s > 1 {
        TopKQsort(base, s, topK);
      }
      ghost var mid := a[..limit];
      if s < topK && s2 > 1 {
        TopKQsort(base + n - s2, s2, topK - s);
      }
      Assemble(memory[..], split, mid, a[..limit], base, n, s, s2, pv, topK);
    }

  }

  /** The three bands, with the first band and then the last one sorted up to `topK`. */
  lemma Assemble(score: seq<nat>, split: seq<nat>, mid: seq<nat>, t: seq<nat>,
                 base: nat, n: nat, s: nat, s2: nat, pv: nat, topK: int)
    requires InRange(split, |score|) && InRange(mid, |score|) && InRange(t, |score|)
    requires s + s2 < n && pv < |score| && base + n <= |t|
    requires RearrangedWithin(split, mid, base, base + s)
    requires RearrangedWithin(mid, t, base + n - s2, base + n)
    requires FirstKFinal(score, mid, base, base + s, topK)
    requires s < topK ==> FirstKFinal(score, t, base + n - s2, base + n, topK - s)
    requires AllAhead(score, split, pv, base, base + s)
    requires AllEqual(split, pv, base + s, base + n - s2)
    requires AllAfter(score, split, pv, base + n - s2, base + n)
    ensures FirstKFinal(score, t, base, base + n, topK)
  {
    forall p | base <= p < base + s ensures Below(score, pv, t[p]) {
      var q := Whence(split, mid, base, base + s, p);
    }
    forall p | base + n - s2 <= p < base + n ensures Below(score, t[p], pv) {
      var q := Whence(mid, t, base + n - s2, base + n, p);
    }
    forall i, j | base <= i < j < base + n && i - base < topK
      ensures NotAfter(score, t[i], t[j])
    {
      if i < base + s && j < base + s {
        assert t[i] == mid[i] && t[j] == mid[j];
      } else if i >= base + n - s2 {
        assert i - (base + n - s2) < topK - s;
      }
    }
  }
}
