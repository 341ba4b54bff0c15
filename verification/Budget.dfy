/** The postings budget of anytime ranking, with the 32-bit arithmetic of its guard. */
module Budget {
  import opened Bits

  /** Addition of two `uint32_t`. */
  function Add32(x: nat, y: nat): nat {
    (x + y) % TWO_32
  }

  /** The postings in the first `n` segments. */
  function Postings(freqs: seq<nat>, n: nat): nat
    requires n <= |freqs|
  {
    if n == 0 then 0 else Postings(freqs, n - 1) + freqs[n - 1]
  }

  /** The longest prefix of segments, from `n` on, whose postings stay within the budget. */
  function Affordable(freqs: seq<nat>, budget: nat, n: nat): (r: nat)
    requires n <= |freqs|
    ensures n <= r <= |freqs|
    decreases |freqs| - n
  {
    if n < |freqs| && Postings(freqs, n + 1) <= budget then Affordable(freqs, budget, n + 1) else n
  }

  /** Where the loop stops: `postings_processed + quantum_frequency > postings_to_process` in `uint32_t`. */
  function StopsAt(freqs: seq<nat>, budget: nat, n: nat, processed: nat): (r: nat)
    requires n <= |freqs|
    ensures n <= r <= |freqs|
    decreases |freqs| - n
  {
    if n == |freqs| || Add32(processed, freqs[n]) > budget then n
    else StopsAt(freqs, budget, n + 1, Add32(processed, freqs[n]))
  }

  /** The prefix is the longest one: it is within the budget and one more segment would not be. */
  lemma {:induction false} AffordableIsLongest(freqs: seq<nat>, budget: nat, n: nat)
    requires n <= |freqs| && Postings(freqs, n) <= budget
    ensures var a := Affordable(freqs, budget, n);
            && Postings(freqs, a) <= budget
            && forall m :: a < m <= |freqs| ==> Postings(freqs, m) > budget
    decreases |freqs| - n
  {
    if n < |freqs| && Postings(freqs, n + 1) <= budget {
      AffordableIsLongest(freqs, budget, n + 1);
    } else {
      forall m | n < m <= |freqs| ensures Postings(freqs, m) > budget {
        Growing(freqs, n + 1, m);
      }
    }
  }

  lemma {:induction false} Growing(freqs: seq<nat>, n: nat, m: nat)
    requires n <= m <= |freqs|
    ensures Postings(freqs, n) <= Postings(freqs, m)
    decreases m
  {
    if n < m {
      Growing(freqs, n, m - 1);
    }
  }

  /** The segment that ends the affordable prefix does not make the 32-bit sum wrap. */
  predicate GuardIsExact(freqs: seq<nat>, budget: nat, n: nat)
    requires n <= |freqs|
  {
    var a := Affordable(freqs, budget, n);
    a == |freqs| || Postings(freqs, a + 1) < TWO_32
  }

  /** The loop keeps to the budget, and then processes the longest affordable prefix, exactly when
      the first unaffordable segment does not wrap the 32-bit counter. */
  lemma {:induction false} BudgetKept(freqs: seq<nat>, budget: nat, n: nat)
    requires Words32(freqs) && budget < TWO_32 && n <= |freqs| && Postings(freqs, n) <= budget
    ensures GuardIsExact(freqs, budget, n) ==>
              StopsAt(freqs, budget, n, Postings(freqs, n)) == Affordable(freqs, budget, n)
    ensures GuardIsExact(freqs, budget, n) <==>
              Postings(freqs, StopsAt(freqs, budget, n, Postings(freqs, n))) <= budget
    decreases |freqs| - n
  {
    TwoTo32();
    if n < |freqs| {
      var sum := Postings(freqs, n) + freqs[n];
      assert sum == Postings(freqs, n + 1);
      if sum <= budget {
        assert sum % TWO_32 == sum;
        BudgetKept(freqs, budget, n + 1);
      } else if sum >= TWO_32 {
        assert sum % TWO_32 == sum - TWO_32;
        Growing(freqs, n + 1, StopsAt(freqs, budget, n, Postings(freqs, n)));
      } else {
        assert sum % TWO_32 == sum;
      }
    }
  }

  /** Two segments of 2^31 postings wrap a budget of 2^32 - 1. */
  lemma WrappedBudget()
    ensures var freqs := [0x8000_0000, 0x8000_0000];
            StopsAt(freqs, TWO_32 - 1, 0, 0) == 2 && Postings(freqs, 2) > TWO_32 - 1
  {
    var freqs := [0x8000_0000, 0x8000_0000];
    assert Postings(freqs, 1) == 0x8000_0000;
    assert StopsAt(freqs, TWO_32 - 1, 2, 0) == 2;
    assert StopsAt(freqs, TWO_32 - 1, 1, 0x8000_0000) == 2;
  }
}
