/** The postings file: for each term a table of pointers to the headers of its segments, the headers and
    a zero header after them, and the segments. */
module PostingsFile {
  import opened Bits
  import opened Memory
  import opened Simd

  /** A compressed segment; `stray` is what is written behind it when segments are aligned. */
  datatype Segment = Segment(impact: nat, bytes: seq<nat>, stray: seq<nat>, frequency: nat)

  datatype Header = Header(impact: nat, offset: nat, end: nat, frequency: nat)

  const HEADER_SIZE: nat := 22

  // ----- what is written

  function HeaderBytes(h: Header): (r: seq<nat>)
    ensures |r| == 22
  {
    BytesOf(h.impact, 2) + BytesOf(h.offset, 8) + BytesOf(h.end, 8) + BytesOf(h.frequency, 4)
  }

  function Padded(s: Segment): seq<nat> {
    s.bytes + s.stray
  }

  /** Where the i-th segment starts, if the first starts at `offset`. */
  function OffsetOf(segments: seq<Segment>, offset: nat, i: nat): nat
    requires i <= |segments|
  {
    if i == 0 then offset else OffsetOf(segments, offset, i - 1) + |Padded(segments[i - 1])|
  }

  function HeaderOf(segments: seq<Segment>, offset: nat, i: nat): Header
    requires i < |segments|
  {
    var start := OffsetOf(segments, offset, i);
    Header(segments[i].impact, start, start + |segments[i].bytes|, segments[i].frequency)
  }

  /** The headers before the i-th. */
  function Headers(segments: seq<Segment>, offset: nat, i: nat): seq<nat>
    requires i <= |segments|
  {
    if i == 0 then [] else Headers(segments, offset, i - 1) + HeaderBytes(HeaderOf(segments, offset, i - 1))
  }

  /** The segments before the i-th. */
  function Data(segments: seq<Segment>, i: nat): seq<nat>
    requires i <= |segments|
  {
    if i == 0 then [] else Data(segments, i - 1) + Padded(segments[i - 1])
  }

  /** The pointers to the headers before the i-th; the first header is at `first`. */
  function Pointers(first: nat, i: nat): seq<nat> {
    if i == 0 then [] else Pointers(first, i - 1) + BytesOf(first + 22 * (i - 1), 8)
  }

  function Zeroes(n: nat): (r: seq<nat>)
    ensures |r| == n
  {
    seq(n, i => 0)
  }

  ghost predicate IsMultiple(n: nat, alignment: nat)
    requires alignment >= 1
  {
    n % alignment == 0
  }

  /** The first place from `from` on that is aligned; without an alignment, any place is. */
  ghost predicate IsNext(place: nat, from: nat, alignment: nat) {
    && from <= place && (alignment == 0 ==> place == from)
    && (alignment >= 1 ==>
          && IsMultiple(place, alignment)
          && forall other: nat :: from <= other && IsMultiple(other, alignment) ==> place <= other)
  }

  /** The next multiple of the alignment, if there is one. */
  function Aligned(offset: nat, alignment: nat): (r: nat)
    ensures r >= offset
  {
    if alignment == 0 then offset
    else
      AlignsUp(offset, alignment);
      (offset + alignment - 1) / alignment * alignment
  }

  lemma AlignsUp(offset: nat, alignment: nat)
    requires alignment >= 1
    ensures offset <= (offset + alignment - 1) / alignment * alignment < offset + alignment
  {
    var x := offset + alignment - 1;
    assert x == x / alignment * alignment + x % alignment;
  }

  lemma AlignedIsNext(offset: nat, alignment: nat)
    ensures IsNext(Aligned(offset, alignment), offset, alignment)
  {
    if alignment >= 1 {
      AlignsUp(offset, alignment);
      var q := (offset + alignment - 1) / alignment;
      MultipleOf(q, alignment);
      forall other: nat | offset <= other && IsMultiple(other, alignment) ensures q * alignment <= other {
        NoMultipleBetween(q, other / alignment, alignment);
      }
    }
  }

  lemma MultiplesAdd(a: nat, b: nat, m: nat)
    requires m >= 1 && IsMultiple(a, m)
    ensures IsMultiple(a + b, m) <==> IsMultiple(b, m)
  {
    var q := a / m;
    assert a == q * m;
    ModShift(q, b, m);
  }

  lemma ModShift(q: nat, b: nat, m: nat)
    requires m >= 1
    ensures (q * m + b) % m == b % m
  {
    var r := b / m;
    assert b == r * m + b % m && (q + r) * m == q * m + r * m;
    DivIs(q * m + b, m, q + r);
  }

  /** What is next stays next when everything moves by a multiple. */
  lemma NextMoves(o: nat, place: nat, from: nat, alignment: nat)
    requires IsNext(place, from, alignment) && (alignment >= 1 ==> IsMultiple(o, alignment))
    ensures IsNext(o + place, o + from, alignment)
  {
    if alignment >= 1 {
      MultiplesAdd(o, place, alignment);
      forall other: nat | o + from <= other && IsMultiple(other, alignment) ensures o + place <= other {
        MultiplesAdd(o, other - o, alignment);
      }
    }
  }

  lemma MultipleOf(q: nat, m: nat)
    requires m >= 1
    ensures IsMultiple(q * m, m)
  {
    DivIs(q * m, m, q);
  }

  /** Multiples are at least m apart. */
  lemma NoMultipleBetween(q: nat, r: nat, m: nat)
    requires m >= 1 && q * m < r * m + m
    ensures q * m <= r * m
  {
    if q > r {
      MulGrows(r + 1, q, m);
      OneMore(r + 1, m);
    }
  }

  /** Where the segments of a list of n segments start, when the list starts at `base`. */
  function DataStart(base: nat, n: nat, alignment: nat): (r: nat)
    ensures r >= base + 30 * n + 22
  {
    Aligned(base + 22 * (n + 1) + 8 * n, alignment)
  }

  /** Everything that is written for a list. */
  function ListBytes(segments: seq<Segment>, base: nat, alignment: nat): seq<nat> {
    var n := |segments|;
    var start := DataStart(base, n, alignment);
    Pointers(base + 8 * n, n) + Headers(segments, start, n) + Zeroes(start - (base + 30 * n)) + Data(segments, n)
  }

  // ----- where it is

  /** The bytes are in the file at p. */
  ghost predicate At(file: seq<nat>, p: nat, bytes: seq<nat>) {
    p + |bytes| <= |file| && file[p..p + |bytes|] == bytes
  }

  lemma AtLonger(file: seq<nat>, file': seq<nat>, p: nat, bytes: seq<nat>)
    requires At(file, p, bytes) && file <= file'
    ensures At(file', p, bytes)
  {
    assert file'[p..p + |bytes|] == file[p..p + |bytes|];
  }

  lemma AtWithin(file: seq<nat>, p: nat, bytes: seq<nat>, from: nat, part: seq<nat>)
    requires At(file, p, bytes) && At(bytes, from, part)
    ensures At(file, p + from, part)
  {
    forall i | 0 <= i < |part| ensures file[p + from + i] == part[i] {
      assert file[p + from + i] == file[p..p + |bytes|][from + i];
      assert bytes[from + i] == bytes[from..from + |part|][i];
    }
    assert file[p + from..p + from + |part|] == part;
  }

  lemma AtMiddle(a: seq<nat>, b: seq<nat>, c: seq<nat>)
    ensures At(a + b + c, |a|, b)
  {
  }

  lemma {:induction false} PointerAt(first: nat, n: nat, i: nat)
    requires i < n
    ensures |Pointers(first, n)| == 8 * n && At(Pointers(first, n), 8 * i, BytesOf(first + 22 * i, 8))
    decreases n
  {
    PointersLength(first, n - 1);
    if i < n - 1 {
      PointerAt(first, n - 1, i);
      AtLonger(Pointers(first, n - 1), Pointers(first, n), 8 * i, BytesOf(first + 22 * i, 8));
    }
  }

  lemma {:induction false} PointersLength(first: nat, n: nat)
    ensures |Pointers(first, n)| == 8 * n
  {
    if n > 0 {
      PointersLength(first, n - 1);
    }
  }

  lemma {:induction false} HeadersLength(segments: seq<Segment>, offset: nat, n: nat)
    requires n <= |segments|
    ensures |Headers(segments, offset, n)| == 22 * n
  {
    if n > 0 {
      HeadersLength(segments, offset, n - 1);
    }
  }

  lemma {:induction false} HeaderAt(segments: seq<Segment>, offset: nat, n: nat, i: nat)
    requires i < n <= |segments|
    ensures At(Headers(segments, offset, n), 22 * i, HeaderBytes(HeaderOf(segments, offset, i)))
    decreases n
  {
    HeadersLength(segments, offset, n - 1);
    if i < n - 1 {
      HeaderAt(segments, offset, n - 1, i);
      AtLonger(Headers(segments, offset, n - 1), Headers(segments, offset, n), 22 * i,
               HeaderBytes(HeaderOf(segments, offset, i)));
    }
  }

  lemma {:induction false} OffsetIsLength(segments: seq<Segment>, offset: nat, i: nat)
    requires i <= |segments|
    ensures OffsetOf(segments, offset, i) == offset + |Data(segments, i)|
  {
    if i > 0 {
      OffsetIsLength(segments, offset, i - 1);
    }
  }

  lemma {:induction false} DataAt(segments: seq<Segment>, n: nat, i: nat)
    requires i < n <= |segments|
    ensures At(Data(segments, n), |Data(segments, i)|, segments[i].bytes)
    decreases n
  {
    if i < n - 1 {
      DataAt(segments, n - 1, i);
      AtLonger(Data(segments, n - 1), Data(segments, n), |Data(segments, i)|, segments[i].bytes);
    } else {
      assert Data(segments, n) == Data(segments, i) + segments[i].bytes + segments[i].stray;
      AtMiddle(Data(segments, i), segments[i].bytes, segments[i].stray);
    }
  }

  /** Behind every segment there is as much as it takes to align the next. */
  ghost predicate AreAligned(segments: seq<Segment>, alignment: nat) {
    forall i :: 0 <= i < |segments| ==> IsNext(|Padded(segments[i])|, |segments[i].bytes|, alignment)
  }

  lemma {:induction false} OffsetIsMultiple(segments: seq<Segment>, offset: nat, alignment: nat, i: nat)
    requires AreAligned(segments, alignment) && alignment >= 1 && IsMultiple(offset, alignment) && i <= |segments|
    ensures IsMultiple(OffsetOf(segments, offset, i), alignment)
  {
    if i > 0 {
      OffsetIsMultiple(segments, offset, alignment, i - 1);
      MultiplesAdd(OffsetOf(segments, offset, i - 1), |Padded(segments[i - 1])|, alignment);
    }
  }

  /** What comes before the i-th segment ends here: the headers, or the bytes of the segment before. */
  function EndBefore(segments: seq<Segment>, base: nat, start: nat, i: nat): nat
    requires i < |segments|
  {
    if i == 0 then base + 30 * |segments| + 22 else HeaderOf(segments, start, i - 1).end
  }

  /** Every segment starts at the first aligned place behind what was written before it. */
  lemma SegmentIsAligned(segments: seq<Segment>, base: nat, start: nat, alignment: nat, i: nat)
    requires AreAligned(segments, alignment) && i < |segments| && start == DataStart(base, |segments|, alignment)
    ensures IsNext(HeaderOf(segments, start, i).offset, EndBefore(segments, base, start, i), alignment)
  {
    AlignedIsNext(base + 30 * |segments| + 22, alignment);
    if i > 0 {
      if alignment >= 1 {
        OffsetIsMultiple(segments, start, alignment, i - 1);
      }
      NextMoves(OffsetOf(segments, start, i - 1), |Padded(segments[i - 1])|, |segments[i - 1].bytes|, alignment);
    }
  }

  /** A list of segments that was written at `base`. */
  ghost predicate HasList(file: seq<nat>, base: nat, segments: seq<Segment>, start: nat) {
    var n := |segments|;
    && At(file, base, Pointers(base + 8 * n, n)) && At(file, base + 8 * n, Headers(segments, start, n))
    && base + 30 * n + 22 <= start && At(file, base + 30 * n, Zeroes(start - (base + 30 * n)))
    && At(file, start, Data(segments, n))
  }

  lemma ListIsThere(before: seq<nat>, segments: seq<Segment>, alignment: nat, base: nat, start: nat, file: seq<nat>)
    requires base == |before| && start == DataStart(base, |segments|, alignment)
    requires file == before + ListBytes(segments, base, alignment)
    ensures HasList(file, base, segments, start)
  {
    var n := |segments|;
    PointersLength(base + 8 * n, n);
    HeadersLength(segments, start, n);
    FourParts(before, Pointers(base + 8 * n, n), Headers(segments, start, n), Zeroes(start - (base + 30 * n)),
              Data(segments, n), file);
  }

  lemma AtEnd(file: seq<nat>, bytes: seq<nat>)
    ensures At(file + bytes, |file|, bytes)
  {
  }

  lemma FourParts(before: seq<nat>, a: seq<nat>, b: seq<nat>, c: seq<nat>, d: seq<nat>, file: seq<nat>)
    requires file == before + (a + b + c + d)
    ensures At(file, |before|, a) && At(file, |before| + |a|, b) && At(file, |before| + |a| + |b|, c)
            && At(file, |before| + |a| + |b| + |c|, d)
  {
    var f1 := before + a;
    var f2 := f1 + b;
    var f3 := f2 + c;
    Joined(before, a, b, c, d);
    AtEnd(before, a);
    AtLonger(f1, file, |before|, a);
    AtEnd(f1, b);
    AtLonger(f2, file, |f1|, b);
    AtEnd(f2, c);
    AtLonger(f3, file, |f2|, c);
    AtEnd(f3, d);
  }

  lemma Joined(before: seq<nat>, a: seq<nat>, b: seq<nat>, c: seq<nat>, d: seq<nat>)
    ensures before + (a + b + c + d) == before + a + b + c + d
  {
    Assoc(before, a + b + c, d);
    Assoc(before, a + b, c);
    Assoc(before, a, b);
  }

  /** Lists stay where they are when more is written behind them. */
  lemma ListStays(file: seq<nat>, file': seq<nat>, base: nat, segments: seq<Segment>, start: nat)
    requires HasList(file, base, segments, start) && file <= file'
    ensures HasList(file', base, segments, start)
  {
    var n := |segments|;
    AtLonger(file, file', base, Pointers(base + 8 * n, n));
    AtLonger(file, file', base + 8 * n, Headers(segments, start, n));
    AtLonger(file, file', base + 30 * n, Zeroes(start - (base + 30 * n)));
    AtLonger(file, file', start, Data(segments, n));
  }

  // ----- writing

  /** Appends the pointers, the headers, the zero header, the padding and the segments to the file. */
  method WriteList(file: seq<nat>, segments: seq<Segment>, alignment: nat) returns (file': seq<nat>, location: nat)
    ensures location == |file| && file' == file + ListBytes(segments, location, alignment)
  {
    location := |file|;
    var n := |segments|;
    var first, start := location + 8 * n, DataStart(location, n, alignment);
    var pointers := WritePointers(first, n);
    var headers := WriteHeaders(segments, start);
    var data := WriteData(segments);
    var zero, padding := Zeroes(HEADER_SIZE), Zeroes(start - (location + HEADER_SIZE * (n + 1) + 8 * n));
    assert zero + padding == Zeroes(start - (location + 30 * n));
    file' := file + (pointers + headers + (zero + padding) + data);
  }

  method WritePointers(first: nat, n: nat) returns (pointers: seq<nat>)
    ensures pointers == Pointers(first, n)
  {
    pointers := [];
    var quantum, quantumPointer := 0, first;
    while quantum < n
      invariant quantum <= n && quantumPointer == first + 22 * quantum && pointers == Pointers(first, quantum)
    {
      pointers := pointers + BytesOf(quantumPointer, 8);
      quantumPointer := quantumPointer + HEADER_SIZE;
      quantum := quantum + 1;
    }
  }

  method WriteHeaders(segments: seq<Segment>, start: nat) returns (headers: seq<nat>)
    ensures headers == Headers(segments, start, |segments|)
  {
    headers := [];
    var quantum, offset := 0, start;
    while quantum < |segments|
      invariant quantum <= |segments| && offset == OffsetOf(segments, start, quantum)
                && headers == Headers(segments, start, quantum)
    {
      var s := segments[quantum];
      headers := headers + HeaderBytes(Header(s.impact, offset, offset + |s.bytes|, s.frequency));
      offset := offset + |Padded(s)|;
      quantum := quantum + 1;
    }
  }

  method WriteData(segments: seq<Segment>) returns (data: seq<nat>)
    ensures data == Data(segments, |segments|)
  {
    data := [];
    var quantum := 0;
    while quantum < |segments|
      invariant quantum <= |segments| && data == Data(segments, quantum)
    {
      data := data + Padded(segments[quantum]);
      quantum := quantum + 1;
    }
  }

  // ----- reading

  function ReadNumber(file: seq<nat>, p: nat, n: nat): nat
    requires p + n <= |file|
  {
    FromBytes(file[p..p + n])
  }

  function ReadHeader(file: seq<nat>, p: nat): Header
    requires p + 22 <= |file|
  {
    Header(ReadNumber(file, p, 2), ReadNumber(file, p + 2, 8), ReadNumber(file, p + 10, 8), ReadNumber(file, p + 18, 4))
  }

  lemma NumberReads(file: seq<nat>, p: nat, v: nat, n: nat)
    requires At(file, p, BytesOf(v, n)) && v < Pow2(8 * n)
    ensures ReadNumber(file, p, n) == v
  {
    ByteRoundTrip(v, n);
  }

  ghost predicate HeaderFits(h: Header) {
    h.impact < Pow2(16) && h.offset < Pow2(64) && h.end < Pow2(64) && h.frequency < Pow2(32)
  }

  lemma HeaderParts(h: Header)
    ensures var bytes := HeaderBytes(h);
            && At(bytes, 0, BytesOf(h.impact, 2)) && At(bytes, 2, BytesOf(h.offset, 8))
            && At(bytes, 10, BytesOf(h.end, 8)) && At(bytes, 18, BytesOf(h.frequency, 4))
  {
    var a, b, c, d := BytesOf(h.impact, 2), BytesOf(h.offset, 8), BytesOf(h.end, 8), BytesOf(h.frequency, 4);
    AtEnd([], a);
    assert [] + a == a;
    AtEnd(a, b);
    AtEnd(a + b, c);
    AtEnd(a + b + c, d);
    AtLonger(a, a + b + c + d, 0, a);
    AtLonger(a + b, a + b + c + d, 2, b);
    AtLonger(a + b + c, a + b + c + d, 10, c);
  }

  lemma HeaderReads(file: seq<nat>, p: nat, h: Header)
    requires At(file, p, HeaderBytes(h)) && HeaderFits(h)
    ensures ReadHeader(file, p) == h
  {
    HeaderParts(h);
    var bytes := HeaderBytes(h);
    AtWithin(file, p, bytes, 0, BytesOf(h.impact, 2));
    AtWithin(file, p, bytes, 2, BytesOf(h.offset, 8));
    AtWithin(file, p, bytes, 10, BytesOf(h.end, 8));
    AtWithin(file, p, bytes, 18, BytesOf(h.frequency, 4));
    NumberReads(file, p, h.impact, 2);
    NumberReads(file, p + 2, h.offset, 8);
    NumberReads(file, p + 10, h.end, 8);
    NumberReads(file, p + 18, h.frequency, 4);
  }

  /** The file is small enough for its offsets, and the numbers in the headers fit. */
  ghost predicate Writable(file: seq<nat>, segments: seq<Segment>) {
    |file| < Pow2(64) && forall i :: 0 <= i < |segments| ==>
      segments[i].impact < Pow2(16) && segments[i].frequency < Pow2(32)
  }

  lemma PointerReads(file: seq<nat>, base: nat, first: nat, n: nat, i: nat, p: nat, pointers: seq<nat>)
    requires pointers == Pointers(first, n) && At(file, base, pointers) && i < n && p == first + 22 * i < Pow2(64)
    ensures base + 8 * i + 8 <= |file| && ReadNumber(file, base + 8 * i, 8) == p
  {
    PointerAt(first, n, i);
    AtWithin(file, base, pointers, 8 * i, BytesOf(p, 8));
    NumberReads(file, base + 8 * i, p, 8);
  }

  lemma SegmentThere(file: seq<nat>, base: nat, segments: seq<Segment>, start: nat, i: nat, h: Header)
    requires HasList(file, base, segments, start) && i < |segments| && h == HeaderOf(segments, start, i)
    ensures h.offset <= h.end <= |file| && file[h.offset..h.end] == segments[i].bytes
  {
    var n := |segments|;
    DataAt(segments, n, i);
    OffsetIsLength(segments, start, i);
    AtWithin(file, start, Data(segments, n), |Data(segments, i)|, segments[i].bytes);
  }

  lemma HeaderThere(file: seq<nat>, base: nat, segments: seq<Segment>, start: nat, i: nat, p: nat, h: Header)
    requires HasList(file, base, segments, start) && Writable(file, segments) && i < |segments|
    requires p == base + 8 * |segments| + 22 * i && h == HeaderOf(segments, start, i)
    ensures p + 22 <= |file| && ReadHeader(file, p) == h
  {
    var n := |segments|;
    HeaderAt(segments, start, n, i);
    SegmentThere(file, base, segments, start, i, h);
    HeaderWithin(file, base + 8 * n, Headers(segments, start, n), 22 * i, h, p);
  }

  lemma HeaderWithin(file: seq<nat>, at: nat, headers: seq<nat>, from: nat, h: Header, p: nat)
    requires At(file, at, headers) && At(headers, from, HeaderBytes(h)) && HeaderFits(h) && p == at + from
    ensures p + 22 <= |file| && ReadHeader(file, p) == h
  {
    AtWithin(file, at, headers, from, HeaderBytes(h));
    HeaderReads(file, p, h);
  }

  lemma PointerThere(file: seq<nat>, base: nat, segments: seq<Segment>, start: nat, i: nat, p: nat)
    requires HasList(file, base, segments, start) && Writable(file, segments) && i < |segments|
    requires p == base + 8 * |segments| + 22 * i
    ensures base + 8 * i + 8 <= |file| && ReadNumber(file, base + 8 * i, 8) == p
  {
    HeaderThere(file, base, segments, start, i, p, HeaderOf(segments, start, i));
    var n := |segments|;
    PointerReads(file, base, base + 8 * n, n, i, p, Pointers(base + 8 * n, n));
  }

  /** The i-th pointer of a list leads to the i-th header, and the header to the i-th segment. */
  lemma ListReads(file: seq<nat>, base: nat, segments: seq<Segment>, start: nat, i: nat, p: nat, h: Header)
    requires HasList(file, base, segments, start) && Writable(file, segments) && i < |segments|
    requires p == base + 8 * |segments| + 22 * i && h == HeaderOf(segments, start, i)
    ensures base + 8 * i + 8 <= |file| && ReadNumber(file, base + 8 * i, 8) == p > 0
    ensures p + 22 <= |file| && ReadHeader(file, p) == h
    ensures h.offset <= h.end <= |file| && file[h.offset..h.end] == segments[i].bytes
  {
    HeaderThere(file, base, segments, start, i, p, h);
    PointerThere(file, base, segments, start, i, p);
    SegmentThere(file, base, segments, start, i, h);
  }

  lemma ZeroReads(file: seq<nat>, p: nat, n: nat)
    requires At(file, p, Zeroes(n)) && n >= 22
    ensures p + 2 <= |file| && ReadNumber(file, p, 2) == 0
  {
    assert At(Zeroes(n), 0, Zeroes(2));
    AtWithin(file, p, Zeroes(n), 0, Zeroes(2));
    LowSmall(0, 8);
    assert BytesOf(0, 2) == Zeroes(2);
    Pow2Grows(0, 16);
    NumberReads(file, p, 0, 2);
  }

  /** The impact of the header behind the i-th: that of the next segment, or zero at the end of the list. */
  lemma NextImpactReads(file: seq<nat>, base: nat, segments: seq<Segment>, start: nat, i: nat, p: nat)
    requires HasList(file, base, segments, start) && Writable(file, segments) && i < |segments|
    requires p == base + 8 * |segments| + 22 * (i + 1)
    ensures p + 2 <= |file| && ReadNumber(file, p, 2) == if i + 1 < |segments| then segments[i + 1].impact else 0
  {
    if i + 1 < |segments| {
      HeaderThere(file, base, segments, start, i + 1, p, HeaderOf(segments, start, i + 1));
    } else {
      ZeroReads(file, p, start - p);
    }
  }
}
