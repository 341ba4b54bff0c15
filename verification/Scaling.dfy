/** Scaling impacts so that no document's score exceeds `MAX_RSV`, over exact reals. */
module Scaling {
  import opened Impacts

  /** Truncation of a non-negative real to an integer. */
  function Truncate(x: real): (n: int)
    ensures n as real <= x < n as real + 1.0
  {
    x.Floor
  }

  /** `impact / largest * (MAX_RSV - terms) + 1`, truncated. */
  function Scaled(impact: nat, largest: nat, maxRsv: nat, terms: nat): int
    requires largest >= 1
  {
    Truncate(impact as real / largest as real * (maxRsv as real - terms as real) + 1.0)
  }

  /** The sum of the first `n`. */
  function Sum(xs: seq<nat>, n: nat): nat
    requires n <= |xs|
  {
    if n == 0 then 0 else Sum(xs, n - 1) + xs[n - 1]
  }

  /** What a term adds to a document: nothing if the document is in none of its segments. */
  function Share(impact: nat, largest: nat, maxRsv: nat, terms: nat): int
    requires largest >= 1
  {
    if impact == 0 then 0 else Scaled(impact, largest, maxRsv, terms)
  }

  /** A document's scaled score over the first `n` terms. */
  function ScaledSum(impacts: seq<nat>, n: nat, largest: nat, maxRsv: nat, terms: nat): int
    requires n <= |impacts| && largest >= 1
  {
    if n == 0 then 0
    else ScaledSum(impacts, n - 1, largest, maxRsv, terms) + Share(impacts[n - 1], largest, maxRsv, terms)
  }

  lemma ScaleMonotone(x: nat, y: nat, largest: nat, room: real)
    requires x <= y && largest >= 1 && room >= 0.0
    ensures 0.0 <= x as real / largest as real * room <= y as real / largest as real * room
  {
    var a, b := x as real / largest as real, y as real / largest as real;
    assert 0.0 <= a <= b;
    assert (b - a) * room >= 0.0 && a * room >= 0.0;
  }

  /** In integers: one more than the whole part of `impact * (MAX_RSV - terms) / largest`. */
  lemma ScaledIs(impact: nat, largest: nat, maxRsv: nat, terms: nat)
    requires largest >= 1 && terms <= maxRsv
    ensures (Scaled(impact, largest, maxRsv, terms) - 1) * largest <= impact * (maxRsv - terms)
            < Scaled(impact, largest, maxRsv, terms) * largest
  {
    var n := Scaled(impact, largest, maxRsv, terms);
    var x, l, room := impact as real, largest as real, maxRsv as real - terms as real;
    TimesDivisor(n as real, x / l * room, x, l, room);
    ProductOfReals(n - 1, largest);
    ProductOfReals(n, largest);
    ProductOfReals(impact, maxRsv - terms);
  }

  lemma TimesDivisor(n: real, quotient: real, x: real, l: real, room: real)
    requires l > 0.0 && quotient == x / l * room && n <= quotient + 1.0 < n + 1.0
    ensures (n - 1.0) * l <= x * room < n * l
  {
    QuotientTimes(quotient, x, l, room);
    Between(n - 1.0, n, quotient, l, x * room);
  }

  lemma Between(low: real, high: real, quotient: real, l: real, product: real)
    requires l > 0.0 && low <= quotient < high && product == quotient * l
    ensures low * l <= product < high * l
  {
    var below, above := quotient - low, high - quotient;
    NotNegativeProduct(below, l);
    assert below * l == product - low * l && above * l == high * l - product;
  }

  lemma NotNegativeProduct(a: real, b: real)
    requires a >= 0.0 && b > 0.0
    ensures a * b >= 0.0
  {
  }

  lemma QuotientTimes(quotient: real, x: real, l: real, room: real)
    requires l > 0.0 && quotient == x / l * room
    ensures quotient * l == x * room
  {
    var part := x / l;
    assert part * l == x;
    assert quotient * l == part * l * room;
  }

  lemma ProductOfReals(a: int, b: int)
    ensures (a * b) as real == a as real * b as real
  {
  }

  /** Every scaled impact is at least 1, and descending order is kept. */
  lemma ScaledOrder(x: nat, y: nat, largest: nat, maxRsv: nat, terms: nat)
    requires x <= y && largest >= 1 && terms <= maxRsv
    ensures 1 <= Scaled(x, largest, maxRsv, terms) <= Scaled(y, largest, maxRsv, terms)
  {
    var room := maxRsv as real - terms as real;
    ScaleMonotone(x, y, largest, room);
    TruncateMonotone(x as real / largest as real * room, y as real / largest as real * room);
  }

  lemma TruncateMonotone(a: real, b: real)
    requires 0.0 <= a <= b
    ensures 1 <= Truncate(a + 1.0) <= Truncate(b + 1.0)
  {
  }

  /** A document holds at most one segment of each term, none above its term's maximum. */
  ghost predicate AtMostMaxima(impacts: seq<nat>, maxima: seq<nat>) {
    |impacts| <= |maxima| && forall i :: 0 <= i < |impacts| ==> impacts[i] <= maxima[i]
  }

  /** `x` of `largest` parts of what `MAX_RSV` leaves after one point for each term. */
  function Portion(x: nat, largest: nat, maxRsv: nat, terms: nat): real
    requires largest >= 1
  {
    x as real / largest as real * (maxRsv as real - terms as real)
  }

  lemma ShareBound(x: nat, most: nat, largest: nat, maxRsv: nat, terms: nat)
    requires x <= most && largest >= 1 && terms <= maxRsv
    ensures Share(x, largest, maxRsv, terms) as real <= Portion(most, largest, maxRsv, terms) + 1.0
  {
    ScaleMonotone(x, most, largest, maxRsv as real - terms as real);
  }

  lemma {:induction false} ScaledSumBound(impacts: seq<nat>, maxima: seq<nat>, n: nat, largest: nat, maxRsv: nat,
                                          terms: nat)
    requires AtMostMaxima(impacts, maxima) && n <= |impacts| && largest >= 1 && terms <= maxRsv
    ensures ScaledSum(impacts, n, largest, maxRsv, terms) as real
         <= Portion(Sum(maxima, n), largest, maxRsv, terms) + n as real
  {
    if n == 0 {
      assert Portion(0, largest, maxRsv, terms) == 0.0;
    } else {
      ScaledSumBound(impacts, maxima, n - 1, largest, maxRsv, terms);
      ShareBound(impacts[n - 1], maxima[n - 1], largest, maxRsv, terms);
      PortionAdds(Sum(maxima, n - 1), maxima[n - 1], largest, maxRsv, terms);
    }
  }

  lemma PortionAdds(x: nat, y: nat, largest: nat, maxRsv: nat, terms: nat)
    requires largest >= 1
    ensures Portion(x + y, largest, maxRsv, terms) ==
            Portion(x, largest, maxRsv, terms) + Portion(y, largest, maxRsv, terms)
  {
    Distribute(x as real, y as real, largest as real, maxRsv as real - terms as real);
  }

  lemma Distribute(a: real, b: real, l: real, room: real)
    requires l > 0.0
    ensures (a + b) / l * room == a / l * room + b / l * room
  {
    assert (a + b) / l == a / l + b / l;
  }

  /** With `largest` the sum of the found terms' maxima, no document's scaled score exceeds `MAX_RSV`. */
  lemma ScaledScoreFits(impacts: seq<nat>, maxima: seq<nat>, maxRsv: nat, terms: nat)
    requires |impacts| == |maxima| <= terms <= maxRsv && AtMostMaxima(impacts, maxima)
    requires Sum(maxima, |maxima|) >= 1
    ensures 0 <= ScaledSum(impacts, |impacts|, Sum(maxima, |maxima|), maxRsv, terms) <= maxRsv
  {
    var n := |maxima|;
    var largest := Sum(maxima, n);
    ScaledSumBound(impacts, maxima, n, largest, maxRsv, terms);
    WholePortion(largest, maxRsv, terms);
    NotNegative(impacts, n, largest, maxRsv, terms);
  }

  lemma WholePortion(largest: nat, maxRsv: nat, terms: nat)
    requires largest >= 1
    ensures Portion(largest, largest, maxRsv, terms) == maxRsv as real - terms as real
  {
    DividedByItself(largest as real);
  }

  lemma DividedByItself(x: real)
    requires x > 0.0
    ensures x / x == 1.0
  {
  }

  lemma {:induction false} NotNegative(impacts: seq<nat>, n: nat, largest: nat, maxRsv: nat, terms: nat)
    requires n <= |impacts| && largest >= 1 && terms <= maxRsv
    ensures ScaledSum(impacts, n, largest, maxRsv, terms) >= 0
  {
    if n > 0 {
      NotNegative(impacts, n - 1, largest, maxRsv, terms);
      ScaledOrder(impacts[n - 1], impacts[n - 1], largest, maxRsv, terms);
    }
  }

  /** Any impact, of any segment, is scaled to at least 1 exactly when the query has no more terms than
      `MAX_RSV`. */
  lemma ScalingNeedsRoom(impact: nat, largest: nat, maxRsv: nat, terms: nat)
    requires 1 <= impact <= largest
    ensures Scaled(impact, largest, maxRsv, terms) >= 1 <==> terms <= maxRsv
  {
    if terms <= maxRsv {
      ScaledOrder(impact, impact, largest, maxRsv, terms);
    } else {
      BelowOne(impact as real / largest as real, maxRsv as real - terms as real);
    }
  }

  lemma BelowOne(part: real, room: real)
    requires part > 0.0 && room < 0.0
    ensures part * room + 1.0 < 1.0
  {
  }

  /** Four terms of impacts 1 to 4 where a score may be at most 3: every impact becomes 0. */
  lemma TooManyTerms()
    ensures Sum([1, 2, 3, 4], 4) == 10 > 3
    ensures forall impact: nat :: 1 <= impact <= 4 ==> Scaled(impact, 10, 3, 4) == 0
  {
    assert Sum([1, 2, 3, 4], 1) == 1 && Sum([1, 2, 3, 4], 2) == 3 && Sum([1, 2, 3, 4], 3) == 6;
    assert Truncate(0.6) == 0 && Truncate(0.9) == 0;
  }

  // ----- the scaled query

  function ScaledQuantum(q: Quantum, largest: nat, maxRsv: nat, terms: nat): Quantum
    requires largest >= 1 && terms <= maxRsv
  {
    ScaledOrder(q.impact, q.impact, largest, maxRsv, terms);
    Quantum(Scaled(q.impact, largest, maxRsv, terms), q.docids)
  }

  /** A term's segments once their headers have been scaled. */
  function ScaledList(list: seq<Quantum>, largest: nat, maxRsv: nat, terms: nat): (r: seq<Quantum>)
    requires largest >= 1 && terms <= maxRsv
    ensures |r| == |list|
  {
    seq(|list|, q requires 0 <= q < |list| => ScaledQuantum(list[q], largest, maxRsv, terms))
  }

  function ScaledLists(lists: seq<seq<Quantum>>, largest: nat, maxRsv: nat, terms: nat): (r: seq<seq<Quantum>>)
    requires largest >= 1 && terms <= maxRsv
    ensures |r| == |lists| && forall t :: 0 <= t < |r| ==> |r[t]| == |lists[t]|
  {
    seq(|lists|, t requires 0 <= t < |lists| => ScaledList(lists[t], largest, maxRsv, terms))
  }

  /** A document is in one segment of a term at most, so that what the term adds is scaled as a whole. */
  lemma {:induction false} ScaledTermScore(list: seq<Quantum>, documents: nat, n: nat, d: nat, largest: nat,
                                           maxRsv: nat, terms: nat)
    requires WellFormedList(list, documents) && n <= |list| && largest >= 1 && terms <= maxRsv
    ensures TermScore(ScaledList(list, largest, maxRsv, terms), n, d)
         == Share(TermScore(list, n, d), largest, maxRsv, terms)
    ensures TermScore(list, n, d) == 0 <==> forall q :: 0 <= q < n ==> d !in list[q].docids
  {
    if n > 0 {
      ScaledTermScore(list, documents, n - 1, d, largest, maxRsv, terms);
      assert ScaledList(list, largest, maxRsv, terms)[n - 1] == ScaledQuantum(list[n - 1], largest, maxRsv, terms);
      if d in list[n - 1].docids {
        assert forall q :: 0 <= q < n - 1 ==> d !in list[q].docids;
      }
    }
  }

  /** What each term adds to a document. */
  function TermScores(lists: seq<seq<Quantum>>, d: nat): (r: seq<nat>)
    ensures |r| == |lists|
  {
    seq(|lists|, t requires 0 <= t < |lists| => TermScore(lists[t], |lists[t]|, d))
  }

  /** The greatest impact of each term. */
  function Maxima(lists: seq<seq<Quantum>>): (r: seq<nat>)
    ensures |r| == |lists|
  {
    seq(|lists|, t requires 0 <= t < |lists| => NextImpact(lists[t], 0))
  }

  lemma {:induction false} ScaledScore(lists: seq<seq<Quantum>>, documents: nat, m: nat, d: nat, largest: nat,
                                       maxRsv: nat, terms: nat, scaled: seq<seq<Quantum>>)
    requires WellFormed(lists, documents) && m <= |lists| && largest >= 1 && terms <= maxRsv
    requires scaled == ScaledLists(lists, largest, maxRsv, terms)
    ensures PartialScore(scaled, Lengths(scaled), m, d)
         == ScaledSum(TermScores(lists, d), m, largest, maxRsv, terms)
  {
    if m > 0 {
      ScaledScore(lists, documents, m - 1, d, largest, maxRsv, terms, scaled);
      ScaledTermScore(lists[m - 1], documents, |lists[m - 1]|, d, largest, maxRsv, terms);
    }
  }

  /** The sum of the found terms' maxima is at least what any document scores. */
  lemma BelowMaxima(lists: seq<seq<Quantum>>, documents: nat, d: nat)
    requires WellFormed(lists, documents)
    ensures AtMostMaxima(TermScores(lists, d), Maxima(lists))
  {
    forall t | 0 <= t < |lists| ensures TermScores(lists, d)[t] <= Maxima(lists)[t] {
      TermRest(lists[t], documents, 0, |lists[t]|, d);
    }
  }

  /** No document's score over the scaled segments exceeds `MAX_RSV`, whatever the segments are. */
  lemma ScaledQueryFits(lists: seq<seq<Quantum>>, documents: nat, maxRsv: nat, terms: nat, largest: nat, d: nat)
    requires WellFormed(lists, documents) && |lists| <= terms <= maxRsv && d < documents
    requires largest == Sum(Maxima(lists), |lists|) >= 1
    ensures FullScores(ScaledLists(lists, largest, maxRsv, terms), documents)[d] <= maxRsv
  {
    BelowMaxima(lists, documents, d);
    ScaledScoreFits(TermScores(lists, d), Maxima(lists), maxRsv, terms);
    ScaledScore(lists, documents, |lists|, d, largest, maxRsv, terms, ScaledLists(lists, largest, maxRsv, terms));
  }

  lemma {:induction false} UnscaledFits(lists: seq<seq<Quantum>>, documents: nat, m: nat, d: nat)
    requires WellFormed(lists, documents) && m <= |lists|
    ensures PartialScore(lists, Lengths(lists), m, d) <= Sum(Maxima(lists), m)
  {
    if m > 0 {
      UnscaledFits(lists, documents, m - 1, d);
      TermRest(lists[m - 1], documents, 0, |lists[m - 1]|, d);
    }
  }

  /** The segments that are processed: scaled only if a score could otherwise be too large. */
  function Processed(lists: seq<seq<Quantum>>, largest: nat, maxRsv: nat, terms: nat): seq<seq<Quantum>>
    requires terms <= maxRsv
  {
    if largest > maxRsv then ScaledLists(lists, largest, maxRsv, terms) else lists
  }

  /** No document's score exceeds `MAX_RSV`, scaled or not. */
  lemma QueryFits(lists: seq<seq<Quantum>>, documents: nat, maxRsv: nat, terms: nat, largest: nat, d: nat)
    requires WellFormed(lists, documents) && |lists| <= terms <= maxRsv && d < documents
    requires largest == Sum(Maxima(lists), |lists|)
    ensures FullScores(Processed(lists, largest, maxRsv, terms), documents)[d] <= maxRsv
  {
    if largest > maxRsv {
      ScaledQueryFits(lists, documents, maxRsv, terms, largest, d);
    } else {
      UnscaledFits(lists, documents, |lists|, d);
    }
  }

  ghost predicate Descending(xs: seq<nat>) {
    forall i, j :: 0 <= i < j < |xs| ==> xs[i] >= xs[j]
  }

  /** A segment's impact and what it is scaled to. */
  ghost predicate IsScaled(impact: nat, scaled: nat, largest: nat, maxRsv: nat, terms: nat) {
    terms <= maxRsv && 1 <= scaled && (scaled - 1) * largest <= impact * (maxRsv - terms) < scaled * largest
  }

  method ScaleOne(impact: nat, largest: nat, maxRsv: nat, terms: nat) returns (scaled: nat)
    requires largest >= 1 && terms <= maxRsv
    ensures scaled == Scaled(impact, largest, maxRsv, terms) && IsScaled(impact, scaled, largest, maxRsv, terms)
  {
    ScaledOrder(impact, impact, largest, maxRsv, terms);
    ScaledIs(impact, largest, maxRsv, terms);
    scaled := Scaled(impact, largest, maxRsv, terms);
  }

  /** Rescales the segment headers in place, in the order in which they are processed. */
  method ScaleSegments(impacts: array<nat>, largest: nat, maxRsv: nat, terms: nat)
    requires largest >= 1 && terms <= maxRsv
    modifies impacts
    ensures forall i :: 0 <= i < impacts.Length ==> impacts[i] == Scaled(old(impacts[i]), largest, maxRsv, terms)
    ensures forall i :: 0 <= i < impacts.Length ==> IsScaled(old(impacts[i]), impacts[i], largest, maxRsv, terms)
    ensures old(Descending(impacts[..])) ==> Descending(impacts[..])
  {
    var h := 0;
    while h < impacts.Length
      invariant h <= impacts.Length
      invariant forall i :: 0 <= i < h ==>
                  && impacts[i] == Scaled(old(impacts[i]), largest, maxRsv, terms)
                  && IsScaled(old(impacts[i]), impacts[i], largest, maxRsv, terms)
      invariant forall i :: h <= i < impacts.Length ==> impacts[i] == old(impacts[i])
    {
      impacts[h] := ScaleOne(impacts[h], largest, maxRsv, terms);
      h := h + 1;
    }
    if old(Descending(impacts[..])) {
      forall i, j | 0 <= i < j < impacts.Length ensures impacts[..][i] >= impacts[..][j] {
        assert old(impacts[..])[i] >= old(impacts[..])[j];
        ScaledOrder(old(impacts[j]), old(impacts[i]), largest, maxRsv, terms);
      }
    }
  }
}
