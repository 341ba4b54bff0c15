/** The order in which documents are ranked.

    A `uint16_t *` into the accumulator table is modelled by its index, the docid: comparing
    two addresses is comparing two docids, and dereferencing reads the accumulator. */
module Order {
  type uint16 = n: nat | n < 0x1_0000

  /** `a` ranks strictly below `b`: a smaller score or, on a tie, a smaller docid. */
  predicate Below(score: seq<nat>, a: nat, b: nat)
    requires a < |score| && b < |score|
  {
    score[a] < score[b] || (score[a] == score[b] && a < b)
  }

  predicate AtMost(score: seq<nat>, a: nat, b: nat)
    requires a < |score| && b < |score|
  {
    a == b || Below(score, a, b)
  }

  /** `add_rsv_compare`: compares through live memory. */
  function Compare(memory: array<uint16>, a: nat, b: nat): (r: int)
    requires a < memory.Length && b < memory.Length
    reads memory
    ensures r < 0 <==> Below(memory[..], a, b)
    ensures r > 0 <==> Below(memory[..], b, a)
    ensures r == 0 <==> a == b
    ensures r > 0 <==> memory[a] > memory[b] || (memory[a] == memory[b] && a > b)
  {
    if memory[a] > memory[b] then 1
    else if memory[a] < memory[b] then -1
    else if a > b then 1
    else if a < b then -1
    else 0
  }

  predicate InRange(s: seq<nat>, n: nat) {
    forall i :: 0 <= i < |s| ==> s[i] < n
  }

  predicate Distinct(s: seq<nat>) {
    forall i, j :: 0 <= i < j < |s| ==> s[i] != s[j]
  }

  function Swapped<T>(s: seq<T>, i: nat, j: nat): (r: seq<T>)
    requires i < |s| && j < |s|
    ensures multiset(r) == multiset(s)
    ensures |r| == |s|
  {
    assert s[i := s[j]][j := s[i]] == if i == j then s else s[i := s[j]][j := s[i]];
    s[i := s[j]][j := s[i]]
  }

  /** A rearrangement of a sequence has the same elements, so it keeps every elementwise property. */
  lemma SameElements(s: seq<nat>, t: seq<nat>, n: nat)
    requires multiset(s) == multiset(t)
    ensures |s| == |t|
    ensures forall x :: x in s <==> x in t
    ensures InRange(s, n) <==> InRange(t, n)
    ensures Distinct(s) <==> Distinct(t)
  {
    assert |multiset(s)| == |s| && |multiset(t)| == |t|;
    forall x ensures x in s <==> x in t {
      assert x in s <==> x in multiset(s);
      assert x in t <==> x in multiset(t);
    }
    assert forall i :: 0 <= i < |s| ==> s[i] in t;
    assert forall i :: 0 <= i < |t| ==> t[i] in s;
    DistinctIsMultiplicity(s);
    DistinctIsMultiplicity(t);
  }

  lemma {:induction false} DistinctIsMultiplicity(s: seq<nat>)
    ensures Distinct(s) <==> forall x :: x in multiset(s) ==> multiset(s)[x] == 1
  {
    if s != [] {
      var init, last := s[..|s| - 1], s[|s| - 1];
      assert s == init + [last];
      DistinctIsMultiplicity(init);
      if Distinct(s) {
        assert Distinct(init);
        assert last !in init;
      } else if Distinct(init) {
        var i, j :| 0 <= i < j < |s| && s[i] == s[j];
        assert j == |s| - 1 && init[i] == last;
        assert multiset(s)[last] >= 2;
      } else {
        var x :| x in multiset(init) && multiset(init)[x] != 1;
        assert multiset(s)[x] >= 2;
      }
    }
  }
}
