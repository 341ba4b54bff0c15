/** The accumulator table, its lazily cleaned rows, and `add_rsv`. */
module Accumulators {
  import opened Bits
  import opened Order
  import opened MinHeap
  import opened Ranking

  /** Every docid falls in a row of the table, and inside that row's cells. */
  lemma RowOfDocument(d: nat, documents: nat, width: nat)
    requires d < documents && width >= 1
    ensures var height := (documents + width) / width;
            var row := d / width;
            && row < height
            && width * row <= d < width * row + width <= width * height
            && documents < width * height
  {
    var height, row := (documents + width) / width, d / width;
    assert documents + width == width * height + (documents + width) % width;
    assert d == width * row + d % width;
    if row >= height {
      MulAtMost(width, height, row);
    }
    MulAtMost(width, row + 1, height);
  }

  lemma MulAtMost(a: nat, b: nat, c: nat)
    requires b <= c
    ensures a * b <= a * c
  {
  }

  /** What one call of `add_rsv` does to the dense scores. */
  function Scored1(score: seq<nat>, d: nat, s: nat): seq<nat>
    requires d < |score|
  {
    score[d := score[d] + s]
  }

  class Engine {
    const documents: nat
    const width: nat                  // cells in a row, a power of two
    const height: nat
    const topK: nat
    const accumulators: array<uint16>
    const cleanFlags: array<bool>     // has the row been cleaned for this query?
    const pointers: array<nat>
    const heap: Heap
    var resultsListLength: nat

    /** Sizes the table. The accumulators and the flags hold whatever was in memory. */
    constructor (documents: nat, shift: nat, topK: nat)
      requires topK >= 1
      ensures Shaped() && fresh(Repr())
      ensures this.documents == documents && this.topK == topK && width == Pow2(shift)
    {
      this.documents, this.topK := documents, topK;
      var w := Pow2(shift);
      var h := (documents + w) / w;
      var cells := w * h;
      var memory := new uint16[cells];
      var pointing := new nat[cells];
      width, height := w, h;
      accumulators, pointers := memory, pointing;
      cleanFlags := new bool[h];
      heap := new Heap(pointing, memory, topK);
      resultsListLength := 0;
    }

    ghost function Repr(): set<object>
      reads this
    {
      {this, accumulators, cleanFlags, pointers, heap}
    }

    ghost predicate Shaped()
    {
      && topK >= 1 && width >= 1
      && height == (documents + width) / width
      && accumulators.Length == pointers.Length == width * height
      && cleanFlags.Length == height
      && accumulators as object != pointers as object
      && accumulators as object != cleanFlags as object
      && pointers as object != cleanFlags as object
      && heap.cells == pointers && heap.keys == accumulators && heap.size == topK
    }

    /** A document's score reads as 0 until its row has been cleaned. */
    ghost function Score(d: nat): nat
      requires Shaped() && d < documents
      reads cleanFlags, accumulators
    {
      RowOfDocument(d, documents, width);
      if cleanFlags[d / width] then accumulators[d] else 0
    }

    /** The dense array of scores that the table stands for. */
    ghost function Scores(): seq<nat>
      requires Shaped()
      reads cleanFlags, accumulators
    {
      seq(documents, d requires 0 <= d < documents reads cleanFlags, accumulators => Score(d))
    }

    ghost predicate Valid()
      reads Repr()
    {
      && Shaped()
      && resultsListLength <= pointers.Length
      && TopKState(Scores(), pointers[..resultsListLength], topK)
    }

    /** Starts a query: only the flags are cleared. */
    method Rewind()
      requires Shaped()
      modifies this, cleanFlags
      ensures Valid() && resultsListLength == 0
      ensures Scores() == seq(documents, d => 0)
    {
      resultsListLength := 0;
      forall r | 0 <= r < height {
        cleanFlags[r] := false;
      }
      forall d: nat | d < documents ensures Score(d) == 0 {
        RowOfDocument(d, documents, width);
      }
      assert Scores() == seq(documents, d => 0);
    }

    /** Cleans the row of `docid` if no document of it was scored yet: no score changes, and no
        cell of a row that was clean already is written. */
    method CleanRow(docid: nat)
      requires Shaped() && docid < documents
      modifies accumulators, cleanFlags
      ensures Scores() == old(Scores())
      ensures docid / width < height && cleanFlags[docid / width]
      ensures forall d: nat :: d < documents && old(Score(d)) > 0 ==> accumulators[d] == old(accumulators[d])
    {
      RowOfDocument(docid, documents, width);
      var row := docid / width;
      if !cleanFlags[row] {
        cleanFlags[row] := true;
        forall i | width * row <= i < width * row + width {
          accumulators[i] := 0;
        }
        forall d: nat | d < documents
          ensures Score(d) == old(Score(d))
          ensures old(Score(d)) > 0 ==> accumulators[d] == old(accumulators[d])
        {
          RowOfDocument(d, documents, width);
          if d / width != row {
            OtherRow(d, row);
          }
        }
        assert Scores() == old(Scores());
      }
    }

    lemma OtherRow(d: nat, row: nat)
      requires width >= 1 && d / width != row
      ensures !(width * row <= d < width * row + width)
    {
      var q := d / width;
      assert d == width * q + d % width;
      if q < row {
        MulAtMost(width, q + 1, row);
      } else {
        MulAtMost(width, row + 1, q);
      }
    }

    /** A positive score is read from memory as it is. */
    lemma PositiveIsStored(score: seq<nat>, p: seq<nat>)
      requires Shaped() && score == Scores() && InRange(p, documents)
      requires forall i :: 0 <= i < |p| ==> score[p[i]] > 0
      ensures documents < accumulators.Length && InRange(p, accumulators.Length)
      ensures forall i :: 0 <= i < |p| ==> accumulators[..][p[i]] == score[p[i]]
    {
      assert documents + width == width * height + (documents + width) % width;
      forall i | 0 <= i < |p| ensures accumulators[..][p[i]] == score[p[i]] {
        assert score[p[i]] == Score(p[i]);
      }
    }

    /** `*which += score` in a clean row, 16 bits wide. */
    method Bump(which: nat, score: nat)
      requires Shaped() && which < documents && which / width < height && cleanFlags[which / width]
      requires which < accumulators.Length && Score(which) + score < 0x1_0000
      modifies accumulators
      ensures Scores() == Scored1(old(Scores()), which, score)
      ensures accumulators[which] == old(accumulators[which]) + score
      ensures forall i :: 0 <= i < accumulators.Length && i != which ==> accumulators[i] == old(accumulators[i])
    {
      accumulators[which] := (accumulators[which] + score) % 0x1_0000;
      forall d: nat | d < documents ensures Score(d) == Scored1(old(Scores()), which, score)[d] {
        RowOfDocument(d, documents, width);
      }
      assert Scores() == Scored1(old(Scores()), which, score);
    }

    method Append(which: nat)
      requires Shaped() && resultsListLength < pointers.Length
      modifies this`resultsListLength, pointers
      ensures resultsListLength == old(resultsListLength) + 1
      ensures pointers[..resultsListLength] == old(pointers[..resultsListLength]) + [which]
      ensures Scores() == old(Scores())
    {
      pointers[resultsListLength] := which;
      resultsListLength := resultsListLength + 1;
    }

    /** The first branch of `add_rsv`: fewer than k documents so far. */
    method Collect(which: nat, score: nat)
      requires Valid() && which < documents && resultsListLength < topK
      requires which / width < height && cleanFlags[which / width] && which < accumulators.Length
      requires 1 <= score && Scores()[which] + score < 0x1_0000
      modifies this`resultsListLength, accumulators, pointers
      ensures Valid() && Scores() == Scored1(old(Scores()), which, score)
    {
      ghost var before, p := Scores(), pointers[..resultsListLength];
      DistinctBounded(p, documents);
      var oldValue := accumulators[which];
      assert oldValue == before[which];
      Bump(which, score);
      ghost var after := Scores();
      if oldValue == 0 {
        Append(which);
      }
      ghost var q := pointers[..resultsListLength];
      assert q == if before[which] == 0 then p + [which] else p;
      Plonk(before, p, q, topK, which, score);
      if resultsListLength == topK {
        FillHeap(after, q);
      } else {
        CollectedIsState(after, q, topK);
      }
    }

    /** Turns the k collected documents into a heap. */
    method FillHeap(ghost score: seq<nat>, ghost p: seq<nat>)
      requires Shaped() && score == Scores() && resultsListLength == topK <= pointers.Length && p == pointers[..topK]
      requires Collected(score, p)
      modifies pointers
      ensures Valid() && Scores() == score
    {
      PositiveIsStored(score, p);
      heap.BuildMinHeap();
      ghost var q := pointers[..topK];
      assert Scores() == score;
      SameElements(p, q, documents);
      StoredPermuted(score, p, q);
      SameScoresSameHeap(accumulators[..], score, q);
      JustFull(score, p, q, topK);
    }

    lemma StoredPermuted(score: seq<nat>, p: seq<nat>, q: seq<nat>)
      requires Shaped() && score == Scores() && InRange(p, documents) && multiset(p) == multiset(q)
      requires forall i :: 0 <= i < |p| ==> score[p[i]] > 0
      ensures InRange(q, |score|) && InRange(q, accumulators.Length)
      ensures forall i :: 0 <= i < |q| ==> accumulators[..][q[i]] == score[q[i]]
    {
      SameElements(p, q, documents);
      assert forall i :: 0 <= i < |q| ==> q[i] in p;
      PositiveIsStored(score, q);
    }

    /** The second branch: at least the root, so already in the heap. */
    method Promote(which: nat, score: nat)
      requires Valid() && which < documents && resultsListLength == topK
      requires which / width < height && cleanFlags[which / width] && which < accumulators.Length
      requires pointers[0] < documents && !Below(Scores(), which, pointers[0])
      requires 1 <= score && Scores()[which] + score < 0x1_0000
      modifies accumulators, pointers
      ensures Valid() && Scores() == Scored1(old(Scores()), which, score)
    {
      ghost var before, p := Scores(), pointers[..topK];
      AtLeastRootIsMember(before, p, topK, which);
      PositiveIsStored(before, p);
      ghost var memory := accumulators[..];
      SameScoresSameHeap(memory, before, p);
      ghost var i :| 0 <= i < |p| && p[i] == which;
      GrownMember(memory, p, i, memory[which] + score);
      Bump(which, score);
      assert accumulators[..] == memory[which := memory[which] + score];
      RepairHeap(before, Scores(), p, i, which, score);
    }

    method RepairHeap(ghost before: seq<nat>, ghost after: seq<nat>, ghost p: seq<nat>, ghost i: nat, which: nat,
                      ghost score: nat)
      requires Shaped() && after == Scores() && resultsListLength == topK <= pointers.Length && p == pointers[..topK]
      requires TopKState(before, p, topK) && i < |p| && p[i] == which && |before| == documents < accumulators.Length
      requires after == before[which := before[which] + score]
      requires InRange(p, accumulators.Length) && HeapButFor(accumulators[..], p, 0, i)
      modifies pointers
      ensures Valid() && Scores() == after
    {
      heap.MinUpdate(which, i);
      assert Scores() == after;
      ghost var q := pointers[..topK];
      StoredPermuted(after, p, q);
      SameScoresSameHeap(accumulators[..], after, q);
      MemberUpdated(before, p, q, topK, which, score);
    }

    /** The third branch: below the root, but perhaps not any more. */
    method MayEnter(which: nat, score: nat)
      requires Valid() && which < documents && resultsListLength == topK
      requires which / width < height && cleanFlags[which / width] && which < accumulators.Length
      requires pointers[0] < documents && Below(Scores(), which, pointers[0])
      requires 1 <= score && Scores()[which] + score < 0x1_0000
      modifies accumulators, pointers
      ensures Valid() && Scores() == Scored1(old(Scores()), which, score)
    {
      ghost var before, p := Scores(), pointers[..topK];
      AtLeastRootIsMember(before, p, topK, which);
      PositiveIsStored(before, p);
      Bump(which, score);
      ghost var after := Scores();
      PositiveIsStored(after, p);
      if Compare(accumulators, which, pointers[0]) > 0 {
        SameScoresSameHeap(before, after, p);
        SameScoresSameHeap(after, accumulators[..], p);
        EnterHeap(before, after, p, which, score);
      } else {
        StillOutside(before, p, topK, which, score);
      }
    }

    method EnterHeap(ghost before: seq<nat>, ghost after: seq<nat>, ghost p: seq<nat>, which: nat, ghost score: nat)
      requires Shaped() && after == Scores() && resultsListLength == topK <= pointers.Length && p == pointers[..topK]
      requires TopKState(before, p, topK) && which < |before| == documents && which !in p
      requires after == before[which := before[which] + score] && after[which] > 0
      requires documents < accumulators.Length && IsHeap(accumulators[..], p)
      requires Below(after, p[0], which) && Below(accumulators[..], p[0], which)
      modifies pointers
      ensures Valid() && Scores() == after
    {
      var inserted := heap.MinInsert(which);
      assert Scores() == after;
      ghost var q := pointers[..topK];
      StoredPermuted(after, p[0 := which], q);
      SameScoresSameHeap(accumulators[..], after, q);
      RootReplaced(before, p, q, topK, which, score);
    }

    /** Adds to one document's score and keeps the top k. */
    method AddRsv(docid: nat, score: nat)
      requires Valid() && docid < documents
      requires 1 <= score && Scores()[docid] + score < 0x1_0000
      modifies this`resultsListLength, accumulators, cleanFlags, pointers
      ensures Valid()
      ensures Scores() == Scored1(old(Scores()), docid, score)
    {
      CleanRow(docid);
      ghost var before, p := Scores(), pointers[..resultsListLength];
      PositiveIsStored(before, p);
      assert Score(docid) == before[docid];
      if resultsListLength < topK {
        Collect(docid, score);
      } else if Compare(accumulators, docid, pointers[0]) >= 0 {
        assert p[0] == pointers[0] && accumulators[..][p[0]] == before[p[0]];
        Promote(docid, score);
      } else {
        assert p[0] == pointers[0] && accumulators[..][p[0]] == before[p[0]];
        MayEnter(docid, score);
      }
    }
  }
}
