/** From postings to an answer: the index that the indexer writes, the lists that the search engine reads
    from it, and the ranking it reports. */
module EndToEnd {
  import opened Bits
  import opened Order
  import opened Ranking
  import opened Accumulators
  import opened Impacts
  import opened Budget
  import opened Query
  import opened Grouping
  import Segments
  import F = PostingsFile

  /** What the vocabulary knows about a term: where its list is, and how many segments it has. */
  datatype Term = Term(location: nat, impacts: nat)

  // ----- the index

  /** The segment holds the documents of the quantum. */
  ghost predicate Holds(mode: Segments.Mode, s: F.Segment, q: Quantum) {
    s.impact == q.impact && s.frequency == |q.docids| && Segments.IsSegment(mode, s.bytes, q.docids)
  }

  ghost predicate AllHold(mode: Segments.Mode, segments: seq<F.Segment>, list: seq<Quantum>) {
    && |segments| == |list|
    && forall i {:trigger Holds(mode, segments[i], list[i])} :: 0 <= i < |list| ==> Holds(mode, segments[i], list[i])
  }

  /** The term's list is in the file. */
  ghost predicate TermHolds(file: seq<nat>, term: Term, list: seq<Quantum>, mode: Segments.Mode,
                            segments: seq<F.Segment>, start: nat) {
    && term.impacts == |list| && AllHold(mode, segments, list)
    && F.HasList(file, term.location, segments, start) && F.Writable(file, segments)
  }

  ghost predicate TermThere(file: seq<nat>, term: Term, list: seq<Quantum>, mode: Segments.Mode) {
    exists segments, start :: TermHolds(file, term, list, mode, segments, start)
  }

  /** The file says what it is in, and the lists of all the terms are there. */
  ghost predicate IndexHolds(file: seq<nat>, terms: seq<Term>, lists: seq<seq<Quantum>>, mode: Segments.Mode) {
    && |terms| == |lists| && file != [] && file[0] == Segments.ByteOf(mode)
    && forall t {:trigger TermThere(file, terms[t], lists[t], mode)} ::
         0 <= t < |lists| ==> TermThere(file, terms[t], lists[t], mode)
  }

  /** A list whose segments can be stored. */
  ghost predicate Storable(list: seq<Quantum>) {
    forall q :: 0 <= q < |list| ==> list[q].impact < Pow2(16) && Segments.AreDocids(list[q].docids)
  }

  /** Every segment fits in the indexer's buffer. */
  ghost predicate AllFit(mode: Segments.Mode, list: seq<Quantum>, capacity: nat)
    requires Storable(list)
  {
    forall q :: 0 <= q < |list| ==> Segments.Fits(mode, list[q].docids, capacity)
  }

  /** Compresses and pads one segment; `behind` is what happens to be behind it. */
  method CompressSegment(q: Quantum, mode: Segments.Mode, alignment: nat, behind: seq<nat>, capacity: nat,
                         stale: seq<nat>)
    returns (ok: bool, s: F.Segment)
    requires q.impact < Pow2(16) && Segments.AreDocids(q.docids) && alignment <= |behind| && |stale| == 16
             && Words32(stale)
    ensures ok <==> Segments.Fits(mode, q.docids, capacity)
    ensures ok ==> Holds(mode, s, q)
    ensures F.IsNext(|F.Padded(s)|, |s.bytes|, alignment)
  {
    var bytes := Segments.Compress(mode, q.docids, capacity, stale);
    if Segments.Fits(mode, q.docids, capacity) {
      Segments.SomeBytes(mode, bytes, q.docids);
    }
    var pad := F.Aligned(|bytes|, alignment) - |bytes|;
    PadIsShort(|bytes|, alignment);
    F.AlignedIsNext(|bytes|, alignment);
    ok, s := bytes != [], F.Segment(q.impact, bytes, behind[..pad], |q.docids|);
  }

  lemma OneMoreHolds(mode: Segments.Mode, segments: seq<F.Segment>, list: seq<Quantum>, i: nat, s: F.Segment)
    requires i < |list| && AllHold(mode, segments, list[..i]) && Holds(mode, s, list[i])
    ensures AllHold(mode, segments + [s], list[..i + 1])
  {
    assert list[..i + 1] == list[..i] + [list[i]];
  }

  lemma OneMoreFits(mode: Segments.Mode, list: seq<Quantum>, i: nat, capacity: nat)
    requires Storable(list) && i < |list| && AllFit(mode, list[..i], capacity)
             && Segments.Fits(mode, list[i].docids, capacity)
    ensures AllFit(mode, list[..i + 1], capacity)
  {
    assert list[..i + 1] == list[..i] + [list[i]];
  }

  /** Compresses every segment, until one does not fit. */
  method CompressList(list: seq<Quantum>, mode: Segments.Mode, alignment: nat, behind: seq<nat>, capacity: nat,
                      stale: seq<nat>)
    returns (ok: bool, segments: seq<F.Segment>)
    requires Storable(list) && alignment <= |behind| && |stale| == 16 && Words32(stale)
    ensures ok ==> AllHold(mode, segments, list)
    ensures (ok <==> AllFit(mode, list, capacity)) && F.AreAligned(segments, alignment)
  {
    ok, segments := true, [];
    var i := 0;
    while i < |list|
      invariant i <= |list| && ok && AllHold(mode, segments, list[..i]) && AllFit(mode, list[..i], capacity)
      invariant F.AreAligned(segments, alignment)
    {
      var s;
      ok, s := CompressSegment(list[i], mode, alignment, behind, capacity, stale);
      if !ok {
        return;
      }
      OneMoreHolds(mode, segments, list, i, s);
      OneMoreFits(mode, list, i, capacity);
      segments := segments + [s];
      i := i + 1;
    }
    assert list[..i] == list;
  }

  lemma PadIsShort(length: nat, alignment: nat)
    ensures F.Aligned(length, alignment) - length <= alignment
  {
    if alignment > 0 {
      F.AlignsUp(length, alignment);
    }
  }

  lemma HeadersFit(mode: Segments.Mode, segments: seq<F.Segment>, list: seq<Quantum>)
    requires Storable(list) && AllHold(mode, segments, list)
    ensures forall i :: 0 <= i < |segments| ==> segments[i].impact < Pow2(16) && segments[i].frequency < Pow2(32)
  {
    forall i | 0 <= i < |segments| ensures segments[i].impact < Pow2(16) && segments[i].frequency < Pow2(32) {
      assert Holds(mode, segments[i], list[i]);
    }
  }

  // ----- the file, byte by byte

  /** The first byte and, behind it, the first n lists. */
  function IndexBytes(first: nat, lists: seq<seq<nat>>, n: nat): (r: seq<nat>)
    requires n <= |lists|
    ensures r != [] && r[0] == first
  {
    if n == 0 then [first] else IndexBytes(first, lists, n - 1) + lists[n - 1]
  }

  lemma {:induction false} IndexPrefix(first: nat, lists: seq<seq<nat>>, more: seq<seq<nat>>, n: nat)
    requires n <= |lists|
    ensures IndexBytes(first, lists + more, n) == IndexBytes(first, lists, n)
  {
    if n > 0 {
      IndexPrefix(first, lists, more, n - 1);
    }
  }

  lemma {:induction false} IndexGrows(first: nat, lists: seq<seq<nat>>, m: nat, n: nat)
    requires m <= n <= |lists|
    ensures IndexBytes(first, lists, m) <= IndexBytes(first, lists, n)
    decreases n
  {
    if m < n {
      IndexGrows(first, lists, m, n - 1);
    }
  }

  /** What is written for a term at this place. */
  datatype Stored = Stored(segments: seq<F.Segment>, bytes: seq<nat>)

  ghost predicate IsStored(place: nat, s: Stored, alignment: nat, term: Term, list: seq<Quantum>, mode: Segments.Mode) {
    && s.bytes == F.ListBytes(s.segments, place, alignment) && term == Term(place, |s.segments|)
    && AllHold(mode, s.segments, list) && Storable(list) && F.AreAligned(s.segments, alignment)
  }

  /** The t-th term is stored behind those before it. */
  ghost predicate StoredAt(first: nat, bytes: seq<seq<nat>>, t: nat, s: Stored, alignment: nat, term: Term,
                           list: seq<Quantum>, mode: Segments.Mode) {
    t < |bytes| && bytes[t] == s.bytes && IsStored(|IndexBytes(first, bytes, t)|, s, alignment, term, list, mode)
  }

  /** The file that starts with this byte and holds these lists. */
  ghost predicate IsIndex(file: seq<nat>, first: nat, bytes: seq<seq<nat>>, terms: seq<Term>, stored: seq<Stored>,
                          lists: seq<seq<Quantum>>, mode: Segments.Mode, alignment: nat) {
    && |terms| == |stored| == |lists| == |bytes| && file == IndexBytes(first, bytes, |bytes|)
    && forall t {:trigger StoredAt(first, bytes, t, stored[t], alignment, terms[t], lists[t], mode)} ::
         0 <= t < |lists| ==> StoredAt(first, bytes, t, stored[t], alignment, terms[t], lists[t], mode)
  }

  lemma StaysStored(first: nat, bytes: seq<seq<nat>>, more: seq<seq<nat>>, t: nat, s: Stored, alignment: nat,
                    term: Term, list: seq<Quantum>, mode: Segments.Mode)
    requires StoredAt(first, bytes, t, s, alignment, term, list, mode)
    ensures StoredAt(first, bytes + more, t, s, alignment, term, list, mode)
  {
    IndexPrefix(first, bytes, more, t);
  }

  lemma LastStored(first: nat, bytes: seq<seq<nat>>, s: Stored, alignment: nat, file: seq<nat>, term: Term,
                   list: seq<Quantum>, mode: Segments.Mode)
    requires file == IndexBytes(first, bytes, |bytes|) && IsStored(|file|, s, alignment, term, list, mode)
    ensures StoredAt(first, bytes + [s.bytes], |bytes|, s, alignment, term, list, mode)
    ensures IndexBytes(first, bytes + [s.bytes], |bytes| + 1) == file + s.bytes
  {
    IndexPrefix(first, bytes, [s.bytes], |bytes|);
  }

  lemma OneMoreTerm(file: seq<nat>, first: nat, bytes: seq<seq<nat>>, terms: seq<Term>, stored: seq<Stored>,
                    lists: seq<seq<Quantum>>, mode: Segments.Mode, alignment: nat,
                    term: Term, s: Stored, list: seq<Quantum>)
    requires IsIndex(file, first, bytes, terms, stored, lists, mode, alignment)
    requires IsStored(|file|, s, alignment, term, list, mode)
    ensures IsIndex(file + s.bytes, first, bytes + [s.bytes], terms + [term], stored + [s], lists + [list], mode,
                    alignment)
  {
    var more := bytes + [s.bytes];
    LastStored(first, bytes, s, alignment, file, term, list, mode);
    forall t: nat | t < |lists| ensures StoredAt(first, more, t, stored[t], alignment, terms[t], lists[t], mode) {
      assert StoredAt(first, bytes, t, stored[t], alignment, terms[t], lists[t], mode);
      StaysStored(first, bytes, [s.bytes], t, stored[t], alignment, terms[t], lists[t], mode);
    }
  }

  lemma ListThere(file: seq<nat>, before: seq<nat>, s: Stored, alignment: nat, base: nat, start: nat)
    requires before + s.bytes <= file && base == |before| && s.bytes == F.ListBytes(s.segments, base, alignment)
    requires start == F.DataStart(base, |s.segments|, alignment)
    ensures F.HasList(file, base, s.segments, start)
  {
    F.ListIsThere(before, s.segments, alignment, base, start, before + s.bytes);
    F.ListStays(before + s.bytes, file, base, s.segments, start);
  }

  /** The list of a term is in the file, and stays where it is when more is written behind it. */
  lemma ListStored(file: seq<nat>, first: nat, bytes: seq<seq<nat>>, t: nat, s: Stored, alignment: nat, term: Term,
                   list: seq<Quantum>, mode: Segments.Mode, start: nat)
    requires StoredAt(first, bytes, t, s, alignment, term, list, mode) && |file| < Pow2(64)
    requires file == IndexBytes(first, bytes, |bytes|)
    requires start == F.DataStart(term.location, |s.segments|, alignment)
    ensures TermHolds(file, term, list, mode, s.segments, start)
  {
    IndexGrows(first, bytes, t + 1, |bytes|);
    ListThere(file, IndexBytes(first, bytes, t), s, alignment, term.location, start);
    HeadersFit(mode, s.segments, list);
  }

  lemma IndexIsThere(file: seq<nat>, bytes: seq<seq<nat>>, terms: seq<Term>, stored: seq<Stored>,
                     lists: seq<seq<Quantum>>, mode: Segments.Mode, alignment: nat)
    requires IsIndex(file, Segments.ByteOf(mode), bytes, terms, stored, lists, mode, alignment) && |file| < Pow2(64)
    ensures IndexHolds(file, terms, lists, mode)
  {
    var first := Segments.ByteOf(mode);
    forall t | 0 <= t < |lists| ensures TermThere(file, terms[t], lists[t], mode) {
      assert StoredAt(first, bytes, t, stored[t], alignment, terms[t], lists[t], mode);
      var start := F.DataStart(terms[t].location, |stored[t].segments|, alignment);
      ListStored(file, first, bytes, t, stored[t], alignment, terms[t], lists[t], mode, start);
      assert TermHolds(file, terms[t], lists[t], mode, stored[t].segments, start);
    }
  }

  /** The i-th of the term's headers is in the file, and its segment starts at the first aligned place behind
      the headers or, later, behind the segment before. */
  ghost predicate HeaderAligned(file: seq<nat>, term: Term, alignment: nat, i: nat) {
    var p := term.location + 8 * term.impacts + 22 * i;
    && p + 22 <= |file|
    && F.IsNext(F.ReadHeader(file, p).offset,
                if i == 0 then p + 22 * term.impacts + 22 else F.ReadHeader(file, p - 22).end, alignment)
  }

  /** The headers of two neighbours. */
  lemma HeadersThere(file: seq<nat>, base: nat, segments: seq<F.Segment>, start: nat, i: nat, p: nat)
    requires F.HasList(file, base, segments, start) && F.Writable(file, segments) && i < |segments|
    requires p == base + 8 * |segments| + 22 * i
    ensures p + 22 <= |file| && F.ReadHeader(file, p) == F.HeaderOf(segments, start, i)
    ensures i > 0 ==> F.ReadHeader(file, p - 22) == F.HeaderOf(segments, start, i - 1)
  {
    F.HeaderThere(file, base, segments, start, i, p, F.HeaderOf(segments, start, i));
    if i > 0 {
      F.HeaderThere(file, base, segments, start, i - 1, p - 22, F.HeaderOf(segments, start, i - 1));
    }
  }

  lemma NeighboursAligned(file: seq<nat>, term: Term, segments: seq<F.Segment>, start: nat, alignment: nat, i: nat,
                          p: nat)
    requires F.HasList(file, term.location, segments, start) && F.Writable(file, segments)
    requires term.impacts == |segments| && i < |segments| && F.AreAligned(segments, alignment)
    requires start == F.DataStart(term.location, |segments|, alignment)
    requires p == term.location + 8 * |segments| + 22 * i
    ensures HeaderAligned(file, term, alignment, i)
  {
    HeadersThere(file, term.location, segments, start, i, p);
    F.SegmentIsAligned(segments, term.location, start, alignment, i);
    IsAlignedBy(file, term, alignment, i, p, F.HeaderOf(segments, start, i),
                F.HeaderOf(segments, start, if i == 0 then 0 else i - 1));
  }

  lemma IsAlignedBy(file: seq<nat>, term: Term, alignment: nat, i: nat, p: nat, h: F.Header, before: F.Header)
    requires p == term.location + 8 * term.impacts + 22 * i && p + 22 <= |file| && F.ReadHeader(file, p) == h
    requires i > 0 ==> F.ReadHeader(file, p - 22) == before
    requires F.IsNext(h.offset, if i == 0 then term.location + 30 * term.impacts + 22 else before.end, alignment)
    ensures HeaderAligned(file, term, alignment, i)
  {
  }

  lemma IndexIsAligned(file: seq<nat>, first: nat, bytes: seq<seq<nat>>, t: nat, s: Stored, alignment: nat, term: Term,
                       list: seq<Quantum>, mode: Segments.Mode, i: nat, start: nat)
    requires StoredAt(first, bytes, t, s, alignment, term, list, mode) && |file| < Pow2(64)
    requires file == IndexBytes(first, bytes, |bytes|) && i < term.impacts
    requires start == F.DataStart(term.location, term.impacts, alignment)
    ensures HeaderAligned(file, term, alignment, i)
  {
    ListStored(file, first, bytes, t, s, alignment, term, list, mode, start);
    NeighboursAligned(file, term, s.segments, start, alignment, i, term.location + 8 * term.impacts + 22 * i);
  }

  ghost predicate AllAligned(file: seq<nat>, terms: seq<Term>, alignment: nat) {
    forall t, i {:trigger HeaderAligned(file, terms[t], alignment, i)} ::
      0 <= t < |terms| && 0 <= i < terms[t].impacts ==> HeaderAligned(file, terms[t], alignment, i)
  }

  lemma SegmentsAreAligned(file: seq<nat>, first: nat, bytes: seq<seq<nat>>, terms: seq<Term>, stored: seq<Stored>,
                           lists: seq<seq<Quantum>>, mode: Segments.Mode, alignment: nat)
    requires IsIndex(file, first, bytes, terms, stored, lists, mode, alignment) && |file| < Pow2(64)
    ensures AllAligned(file, terms, alignment)
  {
    forall t: nat, i: nat | t < |terms| && i < terms[t].impacts ensures HeaderAligned(file, terms[t], alignment, i) {
      assert StoredAt(first, bytes, t, stored[t], alignment, terms[t], lists[t], mode);
      IndexIsAligned(file, first, bytes, t, stored[t], alignment, terms[t], lists[t], mode, i,
                     F.DataStart(terms[t].location, terms[t].impacts, alignment));
    }
  }

  /** The segments of every term are those of its postings. */
  ghost predicate FromPostings(lists: seq<seq<Quantum>>, collection: seq<seq<Posting>>) {
    |lists| == |collection| && forall t :: 0 <= t < |lists| ==>
      lists[t] != [] && Grouped(lists[t]) && Ungroup(lists[t]) == collection[t]
  }

  ghost predicate Indexable(collection: seq<seq<Posting>>, documents: nat) {
    documents <= Pow2(32) && forall t :: 0 <= t < |collection| ==>
      collection[t] != [] && |collection[t]| + 16 <= Pow2(32) && AreSorted(collection[t], documents)
  }

  lemma SegmentsAreStorable(list: seq<Quantum>, documents: nat)
    requires documents <= Pow2(32) && Grouped(list) && |Ungroup(list)| + 16 <= Pow2(32)
             && AreSorted(Ungroup(list), documents)
    ensures Storable(list)
  {
    SegmentsAreWellFormed(list, documents);
    assert list[..|list|] == list;
    TwoTo16();
    forall q: nat | q < |list| ensures list[q].impact < Pow2(16) && Segments.AreDocids(list[q].docids) {
      PostingAt(list, |list|, q, |list[q].docids| - 1);
    }
  }

  /** The segments of the postings, one of which does not fit in the buffer. */
  ghost predicate TooLarge(mode: Segments.Mode, postings: seq<Posting>, list: seq<Quantum>, capacity: nat) {
    Grouped(list) && Ungroup(list) == postings && Storable(list) && !AllFit(mode, list, capacity)
  }

  /** Writes one term's list behind what is already in the file. */
  method WriteTerm(file: seq<nat>, list: seq<Quantum>, mode: Segments.Mode, alignment: nat, behind: seq<nat>,
                   capacity: nat, stale: seq<nat>)
    returns (ok: bool, file': seq<nat>, term: Term, ghost s: Stored)
    requires Storable(list) && alignment <= |behind| && |stale| == 16 && Words32(stale)
    ensures ok <==> AllFit(mode, list, capacity)
    ensures ok ==> IsStored(|file|, s, alignment, term, list, mode) && file' == file + s.bytes
  {
    var segments, location;
    ok, segments := CompressList(list, mode, alignment, behind, capacity, stale);
    file', location := F.WriteList(file, segments, alignment);
    term := Term(location, |segments|);
    s := Stored(segments, F.ListBytes(segments, location, alignment));
  }

  /** Everything that was written so far. */
  ghost predicate Written(file: seq<nat>, bytes: seq<seq<nat>>, terms: seq<Term>, stored: seq<Stored>,
                          lists: seq<seq<Quantum>>, mode: Segments.Mode, alignment: nat,
                          collection: seq<seq<Posting>>, capacity: nat) {
    && IsIndex(file, Segments.ByteOf(mode), bytes, terms, stored, lists, mode, alignment)
    && FromPostings(lists, collection)
    && forall t :: 0 <= t < |lists| ==> Storable(lists[t]) && AllFit(mode, lists[t], capacity)
  }

  /** Groups, compresses and writes the postings of every term, behind the byte of the mode. */
  method WriteIndex(collection: seq<seq<Posting>>, documents: nat, mode: Segments.Mode, alignment: nat,
                    behind: seq<nat>, capacity: nat, stale: seq<nat>)
    returns (ok: bool, file: seq<nat>, terms: seq<Term>, ghost lists: seq<seq<Quantum>>, ghost bytes: seq<seq<nat>>,
             ghost stored: seq<Stored>)
    requires Indexable(collection, documents) && alignment <= |behind| && |stale| == 16 && Words32(stale)
    ensures ok ==> Written(file, bytes, terms, stored, lists, mode, alignment, collection, capacity)
    ensures !ok ==> exists t, list :: 0 <= t < |collection| && TooLarge(mode, collection[t], list, capacity)
    ensures ok ==> file != [] && file[0] == Segments.ByteOf(mode)
    ensures ok && |file| < Pow2(64) ==> IndexHolds(file, terms, lists, mode) && AllAligned(file, terms, alignment)
  {
    ok, file, terms, lists, bytes, stored := true, [Segments.ByteOf(mode)], [], [], [], [];
    var t := 0;
    while t < |collection|
      invariant t <= |collection| && ok
      invariant Written(file, bytes, terms, stored, lists, mode, alignment, collection[..t], capacity)
    {
      var quanta := Group(collection[t]);
      SegmentsAreStorable(quanta, documents);
      var more, term;
      ghost var s;
      ok, more, term, s := WriteTerm(file, quanta, mode, alignment, behind, capacity, stale);
      if !ok {
        assert TooLarge(mode, collection[t], quanta, capacity);
        return;
      }
      OneMoreWritten(file, bytes, terms, stored, lists, mode, alignment, collection, capacity, t, term, s, quanta);
      file, terms, lists, bytes, stored := more, terms + [term], lists + [quanta], bytes + [s.bytes], stored + [s];
      t := t + 1;
    }
    assert collection[..t] == collection;
    if |file| < Pow2(64) {
      IndexIsThere(file, bytes, terms, stored, lists, mode, alignment);
      SegmentsAreAligned(file, Segments.ByteOf(mode), bytes, terms, stored, lists, mode, alignment);
    }
  }

  lemma {:induction false} OneMoreWritten(file: seq<nat>, bytes: seq<seq<nat>>, terms: seq<Term>, stored: seq<Stored>,
                                          lists: seq<seq<Quantum>>, mode: Segments.Mode, alignment: nat,
                                          collection: seq<seq<Posting>>, capacity: nat, t: nat,
                                          term: Term, s: Stored, list: seq<Quantum>)
    requires t < |collection| && Written(file, bytes, terms, stored, lists, mode, alignment, collection[..t], capacity)
    requires list != [] && Grouped(list) && Ungroup(list) == collection[t] && Storable(list)
    requires AllFit(mode, list, capacity) && IsStored(|file|, s, alignment, term, list, mode)
    ensures Written(file + s.bytes, bytes + [s.bytes], terms + [term], stored + [s], lists + [list], mode, alignment,
                    collection[..t + 1], capacity)
  {
    OneMoreTerm(file, Segments.ByteOf(mode), bytes, terms, stored, lists, mode, alignment, term, s, list);
    PostingsGrow(lists, collection, t, list);
  }

  lemma PostingsGrow(lists: seq<seq<Quantum>>, collection: seq<seq<Posting>>, t: nat, list: seq<Quantum>)
    requires t < |collection| && FromPostings(lists, collection[..t]) && list != [] && Grouped(list)
             && Ungroup(list) == collection[t]
    ensures FromPostings(lists + [list], collection[..t + 1])
  {
    assert collection[..t + 1] == collection[..t] + [collection[t]];
  }

  // ----- reading the lists

  lemma SegmentReads(file: seq<nat>, memory: seq<nat>, term: Term, list: seq<Quantum>, mode: Segments.Mode,
                     segments: seq<F.Segment>, start: nat, i: nat, p: nat, h: F.Header)
    requires TermHolds(file, term, list, mode, segments, start) && i < |list| && file <= memory
             && |memory| >= |file| + 32
    requires p == term.location + 8 * |list| + 22 * i && h == F.HeaderOf(segments, start, i)
    ensures term.location + 8 * i + 8 <= |memory| && F.ReadNumber(memory, term.location + 8 * i, 8) == p
    ensures p + 22 <= |memory| && F.ReadHeader(memory, p) == h
    ensures h.impact == list[i].impact && h.frequency == |list[i].docids| && h.offset <= h.end && h.end + 32 <= |memory|
    ensures memory[h.offset..h.end] == segments[i].bytes && Holds(mode, segments[i], list[i])
  {
    PlaceReads(file, memory, term.location, segments, start, i, p, h, segments[i]);
    SegmentHolds(mode, segments, list, i);
  }

  lemma SegmentHolds(mode: Segments.Mode, segments: seq<F.Segment>, list: seq<Quantum>, i: nat)
    requires AllHold(mode, segments, list) && i < |list|
    ensures Holds(mode, segments[i], list[i])
    ensures segments[i].impact == list[i].impact && segments[i].frequency == |list[i].docids|
  {
    assert Holds(mode, segments[i], list[i]);
  }

  /** The pointer, the header and the bytes of a segment. */
  lemma PlaceReads(file: seq<nat>, memory: seq<nat>, base: nat, segments: seq<F.Segment>, start: nat, i: nat, p: nat,
                   h: F.Header, s: F.Segment)
    requires F.HasList(file, base, segments, start) && F.Writable(file, segments) && i < |segments| && s == segments[i]
    requires file <= memory && p == base + 8 * |segments| + 22 * i && h == F.HeaderOf(segments, start, i)
    ensures base + 8 * i + 8 <= |file| && F.ReadNumber(memory, base + 8 * i, 8) == p
    ensures p + 22 <= |file| && F.ReadHeader(memory, p) == h
    ensures h.impact == s.impact && h.frequency == s.frequency && h.offset <= h.end <= |file|
    ensures memory[h.offset..h.end] == s.bytes
  {
    F.ListReads(file, base, segments, start, i, p, h);
    InMemory(file, memory, base + 8 * i, p, h, s.bytes);
  }

  lemma InMemory(file: seq<nat>, memory: seq<nat>, q: nat, p: nat, h: F.Header, bytes: seq<nat>)
    requires file <= memory && q + 8 <= |file| && F.ReadNumber(file, q, 8) == p
    requires p + 22 <= |file| && F.ReadHeader(file, p) == h
    requires h.offset <= h.end <= |file| && file[h.offset..h.end] == bytes
    ensures F.ReadNumber(memory, q, 8) == p && F.ReadHeader(memory, p) == h && memory[h.offset..h.end] == bytes
  {
    SamePrefix(file, memory, q, 8);
    SameHeader(file, memory, p);
    SamePrefix(file, memory, h.offset, h.end - h.offset);
  }

  lemma SameHeader(file: seq<nat>, memory: seq<nat>, p: nat)
    requires file <= memory && p + 22 <= |file|
    ensures F.ReadHeader(memory, p) == F.ReadHeader(file, p)
  {
    SamePrefix(file, memory, p, 2);
    SamePrefix(file, memory, p + 2, 8);
    SamePrefix(file, memory, p + 10, 8);
    SamePrefix(file, memory, p + 18, 4);
  }

  lemma SamePrefix(file: seq<nat>, memory: seq<nat>, p: nat, n: nat)
    requires file <= memory && p + n <= |file|
    ensures memory[p..p + n] == file[p..p + n]
  {
  }

  /** Follows the pointers of a term to its headers, and processes its segments. */
  method LoadList(memory: seq<nat>, term: Term, mode: Segments.Mode, interleaved: bool, ghost file: seq<nat>,
                  ghost list: seq<Quantum>)
    returns (loaded: seq<Quantum>)
    requires TermThere(file, term, list, mode) && file <= memory && |memory| >= |file| + 32
    ensures loaded == list <==> Faithful(mode, list)
  {
    ghost var segments, start :| TermHolds(file, term, list, mode, segments, start);
    loaded := [];
    var i := 0;
    while i < term.impacts
      invariant i == |loaded| <= |list| && AllLoaded(mode, loaded, list)
    {
      var quantum := LoadSegment(memory, term, mode, interleaved, i, file, list, segments, start);
      OneMoreSegment(mode, loaded, list, quantum);
      loaded := loaded + [quantum];
      i := i + 1;
    }
    LoadedIsList(mode, loaded, list);
  }

  ghost predicate AllLoaded(mode: Segments.Mode, loaded: seq<Quantum>, list: seq<Quantum>) {
    |loaded| <= |list| && forall q :: 0 <= q < |loaded| ==> IsLoaded(mode, loaded[q], list[q])
  }

  lemma OneMoreSegment(mode: Segments.Mode, loaded: seq<Quantum>, list: seq<Quantum>, quantum: Quantum)
    requires AllLoaded(mode, loaded, list) && |loaded| < |list| && IsLoaded(mode, quantum, list[|loaded|])
    ensures AllLoaded(mode, loaded + [quantum], list)
  {
  }

  lemma LoadedIsList(mode: Segments.Mode, loaded: seq<Quantum>, list: seq<Quantum>)
    requires AllLoaded(mode, loaded, list) && |loaded| == |list|
    ensures loaded == list <==> Faithful(mode, list)
  {
    assert forall q :: 0 <= q < |list| ==> IsLoaded(mode, loaded[q], list[q]);
  }

  /** The segment as it was, if and only if the format is faithful to it. */
  ghost predicate IsLoaded(mode: Segments.Mode, loaded: Quantum, stored: Quantum) {
    Words32(stored.docids) && (loaded == stored <==> Segments.IsFaithful(mode, stored.docids))
  }

  method LoadSegment(memory: seq<nat>, term: Term, mode: Segments.Mode, interleaved: bool, i: nat,
                     ghost file: seq<nat>, ghost list: seq<Quantum>, ghost segments: seq<F.Segment>, ghost start: nat)
    returns (quantum: Quantum)
    requires TermHolds(file, term, list, mode, segments, start) && i < |list| && file <= memory
             && |memory| >= |file| + 32
    ensures IsLoaded(mode, quantum, list[i])
  {
    ghost var at, header := term.location + 8 * |list| + 22 * i, F.HeaderOf(segments, start, i);
    SegmentReads(file, memory, term, list, mode, segments, start, i, at, header);
    var p := F.ReadNumber(memory, term.location + 8 * i, 8);
    var h := F.ReadHeader(memory, p);
    var calls := Segments.Process(mode, memory, h.offset, h.end, h.frequency, interleaved, list[i].docids);
    quantum := Quantum(h.impact, calls);
  }

  /** The format gives back the documents of every segment. */
  ghost predicate Faithful(mode: Segments.Mode, list: seq<Quantum>) {
    forall q :: 0 <= q < |list| ==> Words32(list[q].docids) && Segments.IsFaithful(mode, list[q].docids)
  }

  method LoadTerm(memory: seq<nat>, terms: seq<Term>, t: nat, mode: Segments.Mode, interleaved: bool,
                  ghost file: seq<nat>, ghost lists: seq<seq<Quantum>>)
    returns (loaded: seq<Quantum>)
    requires IndexHolds(file, terms, lists, mode) && file <= memory && |memory| >= |file| + 32
    requires t < |terms| && Faithful(mode, lists[t])
    ensures loaded == lists[t]
  {
    assert TermThere(file, terms[t], lists[t], mode);
    loaded := LoadList(memory, terms[t], mode, interleaved, file, lists[t]);
  }

  lemma OneMoreLoaded<T>(lists: seq<T>, t: nat, list: T)
    requires t < |lists| && list == lists[t]
    ensures lists[..t + 1] == lists[..t] + [list]
  {
  }

  method LoadLists(memory: seq<nat>, terms: seq<Term>, mode: Segments.Mode, interleaved: bool, ghost file: seq<nat>,
                   ghost lists: seq<seq<Quantum>>)
    returns (loaded: seq<seq<Quantum>>)
    requires IndexHolds(file, terms, lists, mode) && file <= memory && |memory| >= |file| + 32
    requires forall t :: 0 <= t < |lists| ==> Faithful(mode, lists[t])
    ensures loaded == lists
  {
    loaded := [];
    var t := 0;
    while t < |terms|
      invariant t <= |terms| && loaded == lists[..t]
    {
      var list := LoadTerm(memory, terms, t, mode, interleaved, file, lists);
      OneMoreLoaded(lists, t, list);
      loaded := loaded + [list];
      t := t + 1;
    }
    assert lists[..t] == lists;
  }

  lemma ImpactReads(file: seq<nat>, memory: seq<nat>, term: Term, list: seq<Quantum>, mode: Segments.Mode,
                    segments: seq<F.Segment>, start: nat, i: nat, p: nat)
    requires TermHolds(file, term, list, mode, segments, start) && i < |list| && file <= memory
             && |memory| >= |file| + 32
    requires p == term.location + 8 * |list| + 22 * i
    ensures term.location + 8 * i + 8 <= |memory| && F.ReadNumber(memory, term.location + 8 * i, 8) == p
    ensures p + 24 <= |memory| && F.ReadNumber(memory, p + 22, 2) == NextImpact(list, i + 1)
  {
    F.PointerThere(file, term.location, segments, start, i, p);
    SamePrefix(file, memory, term.location + 8 * i, 8);
    F.NextImpactReads(file, term.location, segments, start, i, p + 22);
    SamePrefix(file, memory, p + 22, 2);
    if i + 1 < |list| {
      assert Holds(mode, segments[i + 1], list[i + 1]);
    }
  }

  /** The impact in the header behind that of the i-th segment. */
  method ImpactBehind(memory: seq<nat>, term: Term, i: nat, ghost mode: Segments.Mode, ghost file: seq<nat>,
                      ghost list: seq<Quantum>,
                      ghost segments: seq<F.Segment>, ghost start: nat)
    returns (impact: nat)
    requires TermHolds(file, term, list, mode, segments, start) && i < |list| && file <= memory
             && |memory| >= |file| + 32
    ensures impact == NextImpact(list, i + 1)
  {
    ImpactReads(file, memory, term, list, mode, segments, start, i, term.location + 8 * |list| + 22 * i);
    var p := F.ReadNumber(memory, term.location + 8 * i, 8);
    impact := F.ReadNumber(memory, p + 22, 2);
  }

  /** The impacts in the headers behind those of the term's segments. */
  method ImpactsBehind(memory: seq<nat>, term: Term, ghost mode: Segments.Mode, ghost file: seq<nat>,
                       ghost list: seq<Quantum>)
    returns (impacts: seq<nat>)
    requires TermThere(file, term, list, mode) && file <= memory && |memory| >= |file| + 32
    ensures IsBehind(list, impacts)
  {
    ghost var segments, start :| TermHolds(file, term, list, mode, segments, start);
    impacts := [];
    var i := 0;
    while i < term.impacts
      invariant i == |impacts| <= |list| && forall q :: 0 <= q < i ==> impacts[q] == NextImpact(list, q + 1)
    {
      var impact := ImpactBehind(memory, term, i, mode, file, list, segments, start);
      impacts := impacts + [impact];
      i := i + 1;
    }
  }

  method AllImpactsBehind(memory: seq<nat>, terms: seq<Term>, ghost mode: Segments.Mode, ghost file: seq<nat>,
                          ghost lists: seq<seq<Quantum>>)
    returns (behind: seq<seq<nat>>)
    requires IndexHolds(file, terms, lists, mode) && file <= memory && |memory| >= |file| + 32
    ensures AreBehind(lists, behind)
  {
    behind := [];
    var t := 0;
    while t < |terms|
      invariant t == |behind| <= |lists| && forall u :: 0 <= u < t ==> IsBehind(lists[u], behind[u])
    {
      assert TermThere(file, terms[t], lists[t], mode);
      var impacts := ImpactsBehind(memory, terms[t], mode, file, lists[t]);
      behind := behind + [impacts];
      t := t + 1;
    }
  }

  // ----- answering a query

  /** The sum of the impacts with which the terms' postings score the document. */
  function NaiveScore(collection: seq<seq<Posting>>, m: nat, d: nat): nat
    requires m <= |collection|
  {
    if m == 0 then 0 else NaiveScore(collection, m - 1, d) + PostingScore(collection[m - 1], d)
  }

  function NaiveScores(collection: seq<seq<Posting>>, documents: nat): (r: seq<nat>)
    ensures |r| == documents
  {
    seq(documents, d requires 0 <= d => NaiveScore(collection, |collection|, d))
  }

  /** The elements that the indices choose. */
  function Chosen<T>(all: seq<T>, query: seq<nat>): (r: seq<T>)
    requires forall i :: 0 <= i < |query| ==> query[i] < |all|
    ensures |r| == |query|
  {
    seq(|query|, i requires 0 <= i < |query| => all[query[i]])
  }

  lemma ListsAreWellFormed(lists: seq<seq<Quantum>>, collection: seq<seq<Posting>>, documents: nat)
    requires FromPostings(lists, collection) && Indexable(collection, documents)
    ensures WellFormed(lists, documents)
  {
    forall t | 0 <= t < |lists| ensures |lists[t]| >= 1 && WellFormedList(lists[t], documents) {
      SegmentsAreWellFormed(lists[t], documents);
    }
  }

  lemma {:induction false} SegmentsScoreAsPostings(lists: seq<seq<Quantum>>, collection: seq<seq<Posting>>,
                                                   documents: nat, m: nat, d: nat)
    requires FromPostings(lists, collection) && WellFormed(lists, documents) && m <= |lists|
    ensures PartialScore(lists, Lengths(lists), m, d) == NaiveScore(collection, m, d)
  {
    if m > 0 {
      SegmentsScoreAsPostings(lists, collection, documents, m - 1, d);
      var list := lists[m - 1];
      UngroupScores(list, |list|, d);
      assert list[..|list|] == list;
    }
  }

  lemma FullScoresAreNaive(lists: seq<seq<Quantum>>, collection: seq<seq<Posting>>, documents: nat)
    requires FromPostings(lists, collection) && WellFormed(lists, documents)
    ensures FullScores(lists, documents) == NaiveScores(collection, documents)
  {
    forall d: nat | d < documents ensures FullScores(lists, documents)[d] == NaiveScores(collection, documents)[d] {
      SegmentsScoreAsPostings(lists, collection, documents, |lists|, d);
    }
  }

  /** A budget for all the postings stops at no segment. */
  lemma {:induction false} NothingStops(freqs: seq<nat>, budget: nat, n: nat)
    requires n <= |freqs| && Postings(freqs, |freqs|) <= budget < TWO_32
    ensures StopsAt(freqs, budget, n, Postings(freqs, n)) == |freqs|
    decreases |freqs| - n
  {
    if n < |freqs| {
      Growing(freqs, n + 1, |freqs|);
      var sum := Postings(freqs, n) + freqs[n];
      assert sum == Postings(freqs, n + 1) && sum % TWO_32 == sum;
      NothingStops(freqs, budget, n + 1);
    }
  }

  /** What holds of the index holds of the terms of a query. */
  lemma ChosenHolds(file: seq<nat>, terms: seq<Term>, lists: seq<seq<Quantum>>, mode: Segments.Mode,
                    collection: seq<seq<Posting>>,
                    documents: nat, query: seq<nat>)
    requires IndexHolds(file, terms, lists, mode) && FromPostings(lists, collection) && Indexable(collection, documents)
    requires forall i :: 0 <= i < |query| ==> query[i] < |terms| && Faithful(mode, lists[query[i]])
    ensures IndexHolds(file, Chosen(terms, query), Chosen(lists, query), mode)
    ensures FromPostings(Chosen(lists, query), Chosen(collection, query))
            && Indexable(Chosen(collection, query), documents)
    ensures forall t :: 0 <= t < |query| ==> Faithful(mode, Chosen(lists, query)[t])
  {
  }

  /** Reads the lists of the query's terms, and processes all their segments. */
  method AnswerAll(engine: Engine, memory: seq<nat>, asked: seq<Term>, mode: Segments.Mode, interleaved: bool,
                   order: seq<Entry>, k: nat, budget: nat,
                   ghost file: seq<nat>, ghost lists: seq<seq<Quantum>>)
    returns (out: seq<nat>)
    requires engine.Shaped() && engine.topK == k + 1 && engine.pointers.Length < 0x1_0000_0000
    requires IndexHolds(file, asked, lists, mode) && file <= memory && |memory| >= |file| + 32
    requires forall t :: 0 <= t < |lists| ==> Faithful(mode, lists[t])
    requires WellFormed(lists, engine.documents) && Fits16(FullScores(lists, engine.documents))
    requires IsSegmentOrder(lists, order) && Postings(Frequencies(lists, order), |order|) <= budget < TWO_32
    modifies engine, engine.accumulators, engine.cleanFlags, engine.pointers
    ensures out == NaiveTopK(FullScores(lists, engine.documents), k)
  {
    var loaded := LoadLists(memory, asked, mode, interleaved, file, lists);
    var segments;
    ghost var next;
    out, segments, next := SearchAnytime(engine, loaded, order, k, budget);
    NothingStops(Frequencies(lists, order), budget, 0);
    AllProcessed(lists, order, next);
  }

  /** The search engine reads the mode from the first byte of the postings. */
  method ReadMode(memory: seq<nat>, interleaved: bool, ghost file: seq<nat>, ghost mode: Segments.Mode)
    returns (read: Segments.Option<Segments.Mode>)
    requires file != [] && file[0] == Segments.ByteOf(mode) && file <= memory
    ensures read == if interleaved && !Segments.CanInterleave(mode) then Segments.None else Segments.Some(mode)
  {
    assert memory[0] == file[0];
    read := Segments.ChooseMode(memory[0], interleaved);
    if read.Some? {
      Segments.ModeBytes(read.value, mode);
    }
  }

  /** From the index to the answer: the k documents with the greatest sums of impacts, in order. The engine
      stops if the index cannot be processed in the way that was asked for. */
  method Answer(engine: Engine, memory: seq<nat>, terms: seq<Term>, query: seq<nat>, interleaved: bool,
                order: seq<Entry>, k: nat, budget: nat, ghost mode: Segments.Mode,
                ghost file: seq<nat>, ghost lists: seq<seq<Quantum>>, ghost collection: seq<seq<Posting>>)
    returns (ok: bool, out: seq<nat>)
    requires engine.Shaped() && engine.topK == k + 1 && engine.pointers.Length < 0x1_0000_0000
    requires IndexHolds(file, terms, lists, mode) && FromPostings(lists, collection)
             && Indexable(collection, engine.documents)
    requires file <= memory && |memory| >= |file| + 32
    requires forall i :: 0 <= i < |query| ==> query[i] < |terms| && Faithful(mode, lists[query[i]])
    requires Fits16(NaiveScores(Chosen(collection, query), engine.documents))
    requires IsSegmentOrder(Chosen(lists, query), order)
    requires Postings(Frequencies(Chosen(lists, query), order), |order|) <= budget < TWO_32
    modifies engine, engine.accumulators, engine.cleanFlags, engine.pointers
    ensures ok <==> (interleaved ==> Segments.CanInterleave(mode))
    ensures ok ==> out == NaiveTopK(NaiveScores(Chosen(collection, query), engine.documents), k)
    ensures ok ==> BestFirst(NaiveScores(Chosen(collection, query), engine.documents), out)
                   && ShowsAll(NaiveScores(Chosen(collection, query), engine.documents), out, k)
  {
    ghost var asked, postings := Chosen(lists, query), Chosen(collection, query);
    ChosenHolds(file, terms, lists, mode, collection, engine.documents, query);
    ListsAreWellFormed(asked, postings, engine.documents);
    FullScoresAreNaive(asked, postings, engine.documents);
    var read := ReadMode(memory, interleaved, file, mode);
    if read.None? {
      return false, [];
    }
    ok := true;
    out := AnswerAll(engine, memory, Chosen(terms, query), read.value, interleaved, order, k, budget, file, asked);
    NaiveIsBestFirst(NaiveScores(postings, engine.documents), k);
  }

  lemma NaiveIsBestFirst(score: seq<nat>, k: nat)
    ensures BestFirst(score, NaiveTopK(score, k)) && ShowsAll(score, NaiveTopK(score, k), k)
  {
    NaiveIsRanking(score, k);
    RankingIsBestFirst(score, NaiveTopK(score, k), k);
  }

  /** Reads the lists of the query's terms, and processes segments until the order is settled. */
  method AnswerSettled(engine: Engine, memory: seq<nat>, asked: seq<Term>, mode: Segments.Mode, interleaved: bool,
                       order: seq<Entry>, k: nat,
                       ghost file: seq<nat>, ghost lists: seq<seq<Quantum>>)
    returns (out: seq<nat>, early: bool, c: nat, ghost next: seq<nat>)
    requires engine.Shaped() && engine.topK == k + 1 < 0x1_0000_0000 && engine.pointers.Length < 0x1_0000_0000
    requires IndexHolds(file, asked, lists, mode) && file <= memory && |memory| >= |file| + 32
    requires forall t :: 0 <= t < |lists| ==> Faithful(mode, lists[t])
    requires WellFormed(lists, engine.documents) && Fits16(FullScores(lists, engine.documents))
    requires IsSegmentOrder(lists, order)
    modifies engine, engine.accumulators, engine.cleanFlags, engine.pointers
    ensures EndsWhenSettled(lists, order, engine.documents, k, out, early, c, next)
    ensures InRange(out, engine.documents) && Distinct(out) && NoneOvertakes(FullScores(lists, engine.documents), out)
    ensures if early then |out| == k else out == NaiveTopK(FullScores(lists, engine.documents), k)
  {
    var loaded := LoadLists(memory, asked, mode, interleaved, file, lists);
    var behind := AllImpactsBehind(memory, asked, mode, file, lists);
    out, early, c, next := SearchUntilSettled(engine, loaded, behind, order, k);
  }

  /** The answer is the k best of the scores so far, at the first place of the order where they are settled or,
      if they are nowhere, at its end. */
  ghost predicate EndsWhenSettled(lists: seq<seq<Quantum>>, order: seq<Entry>, documents: nat, k: nat, out: seq<nat>,
                                  early: bool, c: nat, next: seq<nat>) {
    && Progress(lists, order, c, next) && out == NaiveTopK(PartialScores(lists, next, documents), k)
    && (early <==> SettledAt(lists, order, documents, k, c, next)) && NotBefore(lists, order, documents, k, c)
    && (!early ==> c == |order|)
  }

  /** From the index to an answer that may be given early: the loop stops where the order is settled, and no
      document overtakes a reported one in the naive sums of impacts. */
  method AnswerEarly(engine: Engine, memory: seq<nat>, terms: seq<Term>, query: seq<nat>, interleaved: bool,
                     order: seq<Entry>, k: nat, ghost mode: Segments.Mode,
                     ghost file: seq<nat>, ghost lists: seq<seq<Quantum>>, ghost collection: seq<seq<Posting>>)
    returns (ok: bool, out: seq<nat>, early: bool, c: nat, ghost next: seq<nat>)
    requires engine.Shaped() && engine.topK == k + 1 < 0x1_0000_0000 && engine.pointers.Length < 0x1_0000_0000
    requires IndexHolds(file, terms, lists, mode) && FromPostings(lists, collection)
             && Indexable(collection, engine.documents)
    requires file <= memory && |memory| >= |file| + 32
    requires forall i :: 0 <= i < |query| ==> query[i] < |terms| && Faithful(mode, lists[query[i]])
    requires Fits16(NaiveScores(Chosen(collection, query), engine.documents))
    requires IsSegmentOrder(Chosen(lists, query), order)
    modifies engine, engine.accumulators, engine.cleanFlags, engine.pointers
    ensures ok <==> (interleaved ==> Segments.CanInterleave(mode))
    ensures ok ==> EndsWhenSettled(Chosen(lists, query), order, engine.documents, k, out, early, c, next)
    ensures ok ==> InRange(out, engine.documents) && Distinct(out)
                   && NoneOvertakes(NaiveScores(Chosen(collection, query), engine.documents), out)
    ensures ok ==> if early then |out| == k
                   else out == NaiveTopK(NaiveScores(Chosen(collection, query), engine.documents), k)
  {
    ghost var asked, postings := Chosen(lists, query), Chosen(collection, query);
    ChosenHolds(file, terms, lists, mode, collection, engine.documents, query);
    ListsAreWellFormed(asked, postings, engine.documents);
    FullScoresAreNaive(asked, postings, engine.documents);
    var read := ReadMode(memory, interleaved, file, mode);
    if read.None? {
      return false, [], false, 0, [];
    }
    ok := true;
    out, early, c, next :=
      AnswerSettled(engine, memory, Chosen(terms, query), read.value, interleaved, order, k, file, asked);
  }
}
