/** Simple-8b: 64-bit words of a 4-bit selector and as many integers of one width as the selector says. */
module Simple8b {
  import opened Bits
  import opened Simd
  import Gaps

  const COUNTS: seq<nat> := [240, 120, 60, 30, 20, 15, 12, 10, 8, 7, 6, 5, 4, 3, 2, 1]

  const WIDTHS: seq<nat> := [0, 0, 1, 2, 3, 4, 5, 6, 7, 8, 10, 12, 15, 20, 30, 60]

  const SELECTOR_BITS: nat := 4

  /** The longest integer that a selector is used for: the first two store nothing, but are used for
      integers of one bit. */
  function Longest(s: nat): nat
    requires s < 16
  {
    if s < 2 then 1 else WIDTHS[s]
  }

  /** The first n integers from pos on are short enough for the selector. */
  predicate ShortEnough(source: seq<nat>, pos: nat, s: nat, n: nat)
    requires s < 16 && pos + n <= |source|
  {
    forall i :: pos <= i < pos + n ==> BitLength(source[i]) <= Longest(s)
  }

  /** There are enough integers to fill a word with this selector, and all are short enough. */
  predicate CanUse(source: seq<nat>, pos: nat, s: nat)
    requires s < 16 && pos <= |source|
  {
    pos + COUNTS[s] <= |source| && ShortEnough(source, pos, s, COUNTS[s])
  }

  /** The lowest selector from s on that can be used. */
  function LowestFrom(source: seq<nat>, pos: nat, s: nat): (r: nat)
    requires s < 16 && pos <= |source|
    ensures s <= r < 16 && (r < 15 ==> CanUse(source, pos, r))
    ensures forall t :: s <= t < r ==> !CanUse(source, pos, t)
    decreases 16 - s
  {
    if s == 15 || CanUse(source, pos, s) then s else LowestFrom(source, pos, s + 1)
  }

  function Chosen(source: seq<nat>, pos: nat): (r: nat)
    requires pos <= |source|
    ensures r < 16
  {
    LowestFrom(source, pos, 0)
  }

  /** The next integers fill a word with this selector: they are of one bit, or of the selector's width. */
  ghost predicate Fills(source: seq<nat>, pos: nat, s: nat)
    requires s < 16 && pos <= |source|
  {
    && pos + COUNTS[s] <= |source|
    && forall i :: pos <= i < pos + COUNTS[s] ==> source[i] < Pow2(if s < 2 then 1 else WIDTHS[s])
  }

  /** A selector is for as many integers of its width as there is room for behind the selector, and a
      greater one for fewer. */
  lemma TablesAreFull(s: nat, t: nat)
    requires s < t < 16
    ensures (s >= 2 ==> COUNTS[s] == 60 / WIDTHS[s]) && COUNTS[t] < COUNTS[s]
  {
  }

  /** The chosen selector is the least that the next integers fill, and the one for the most integers. */
  lemma ChosenIs(source: seq<nat>, pos: nat)
    requires Words32(source) && pos < |source|
    ensures Fills(source, pos, Chosen(source, pos))
    ensures forall s :: 0 <= s < Chosen(source, pos) ==> !Fills(source, pos, s)
    ensures forall s :: 0 <= s < 16 && Fills(source, pos, s) ==> COUNTS[s] <= COUNTS[Chosen(source, pos)]
  {
    LastCanBeUsed(source, pos);
    forall s: nat | Chosen(source, pos) < s < 16 ensures COUNTS[s] <= COUNTS[Chosen(source, pos)] {
      TablesAreFull(Chosen(source, pos), s);
    }
    forall s: nat | s < 16 ensures Fills(source, pos, s) <==> CanUse(source, pos, s) {
      FillsIs(source, pos, s);
    }
  }

  lemma FillsIs(source: seq<nat>, pos: nat, s: nat)
    requires s < 16 && pos <= |source|
    ensures Fills(source, pos, s) <==> CanUse(source, pos, s)
  {
    forall i | pos <= i < |source| ensures BitLength(source[i]) <= Longest(s) <==> source[i] < Pow2(Longest(s)) {
      BitLengthIs(source[i], Longest(s));
    }
  }

  /** A single integer always fits. */
  lemma LastCanBeUsed(source: seq<nat>, pos: nat)
    requires Words32(source) && pos < |source|
    ensures CanUse(source, pos, 15) && CanUse(source, pos, Chosen(source, pos))
  {
    BitLengthAtMost(source[pos], 32);
  }

  // ----- choosing a selector

  /** The selectors that hold more than `offset` integers of `bits` bits: one entry of the table. */
  function CanPack(bits: nat, offset: nat): set<nat> {
    set s | 0 <= s < 16 && COUNTS[s] > offset && bits <= Longest(s)
  }

  /** The selectors that hold at most `offset` integers. */
  function InvalidFor(offset: nat): set<nat> {
    set s | 0 <= s < 16 && COUNTS[s] <= offset
  }

  /** `ffs`: the lowest member, counting from 1. */
  method FirstMember(mask: set<nat>) returns (r: nat)
    requires forall s :: s in mask ==> s < 16
    ensures r == 0 <==> mask == {}
    ensures r > 0 ==> r - 1 in mask && forall s :: s in mask ==> r - 1 <= s
  {
    r := 0;
    if mask == {} {
      return;
    }
    while r !in mask
      invariant r <= 16 && forall s :: s in mask ==> r <= s
      decreases 16 - r
    {
      r := r + 1;
    }
    r := r + 1;
  }

  ghost predicate Narrowed(source: seq<nat>, pos: nat, offset: nat, bitmask: set<nat>)
    requires pos + offset <= |source|
  {
    forall s :: s in bitmask <==> 0 <= s < 16 && COUNTS[s] >= offset && ShortEnough(source, pos, s, offset)
  }

  ghost predicate Filled(source: seq<nat>, pos: nat, offset: nat, lastBitmask: set<nat>)
    requires pos + offset <= |source|
  {
    forall s :: s in lastBitmask <==> 0 <= s < 16 && COUNTS[s] <= offset && ShortEnough(source, pos, s, COUNTS[s])
  }

  /** Narrows the selectors down, integer by integer, to those that can be used; the lowest is taken. */
  method ChooseSelector(source: seq<nat>, pos: nat) returns (maskType: nat)
    requires Words32(source) && pos < |source|
    ensures maskType == Chosen(source, pos)
  {
    var remaining := if pos + 240 < |source| then 240 else |source| - pos;
    var lastBitmask: set<nat>, bitmask: set<nat> := {}, InvalidFor(240);
    var offset := 0;
    while offset < remaining && bitmask != {}
      invariant offset <= remaining
      invariant Narrowed(source, pos, offset, bitmask) && Filled(source, pos, offset, lastBitmask)
    {
      Narrow(source, pos, offset, bitmask, lastBitmask);
      bitmask := bitmask * CanPack(BitLength(source[pos + offset]), offset);
      lastBitmask := lastBitmask + bitmask * InvalidFor(offset + 1);
      offset := offset + 1;
    }
    Settled(source, pos, offset, remaining, bitmask, lastBitmask);
    maskType := FirstMember(lastBitmask);
    // a word of one integer always fits, so a selector is found
    maskType := maskType - 1;
    LowestIs(source, pos, maskType, 0);
  }

  lemma Narrow(source: seq<nat>, pos: nat, offset: nat, bitmask: set<nat>, lastBitmask: set<nat>)
    requires pos + offset < |source|
    requires Narrowed(source, pos, offset, bitmask) && Filled(source, pos, offset, lastBitmask)
    ensures var b := bitmask * CanPack(BitLength(source[pos + offset]), offset);
            && Narrowed(source, pos, offset + 1, b)
            && Filled(source, pos, offset + 1, lastBitmask + b * InvalidFor(offset + 1))
  {
  }

  lemma Settled(source: seq<nat>, pos: nat, offset: nat, remaining: nat, bitmask: set<nat>, lastBitmask: set<nat>)
    requires Words32(source) && pos < |source| && offset <= remaining
    requires remaining == if pos + 240 < |source| then 240 else |source| - pos
    requires Narrowed(source, pos, offset, bitmask) && Filled(source, pos, offset, lastBitmask)
    requires offset == remaining || bitmask == {}
    ensures forall s :: s in lastBitmask <==> 0 <= s < 16 && CanUse(source, pos, s)
    ensures 15 in lastBitmask
  {
    LastCanBeUsed(source, pos);
    forall s: nat | s < 16 && CanUse(source, pos, s) ensures s in lastBitmask {
      AtMost240(s);
      StillShort(source, pos, s, COUNTS[s], offset);
    }
  }

  lemma StillShort(source: seq<nat>, pos: nat, s: nat, n: nat, m: nat)
    requires s < 16 && pos + n <= |source| && pos + m <= |source| && ShortEnough(source, pos, s, n)
    ensures m <= n ==> ShortEnough(source, pos, s, m)
  {
  }

  lemma AtMost240(s: nat)
    requires s < 16
    ensures 1 <= COUNTS[s] <= 240
  {
  }

  lemma {:induction false} LowestIs(source: seq<nat>, pos: nat, r: nat, s: nat)
    requires pos <= |source| && s <= r < 16 && CanUse(source, pos, r)
    requires forall t :: s <= t < r ==> !CanUse(source, pos, t)
    ensures LowestFrom(source, pos, s) == r
    decreases 16 - s
  {
    if s < r {
      LowestIs(source, pos, r, s + 1);
    }
  }

  lemma SixteenSelectors()
    ensures Pow2(SELECTOR_BITS) == 16
  {
    assert Pow2(4) == 16;
  }

  // ----- packing a word

  /** Where an integer is put: above those before it. */
  function Shift(s: nat, offset: nat): nat
    requires s < 16
  {
    SumOf(Same(offset, WIDTHS[s]))
  }

  function Packed(source: seq<nat>, pos: nat, s: nat, n: nat): nat
    requires s < 16 && pos + n <= |source|
  {
    Pack(Same(n, WIDTHS[s]), source[pos..pos + n], 0)
  }

  function WordOf(source: seq<nat>, pos: nat, s: nat): nat
    requires s < 16 && pos + COUNTS[s] <= |source|
  {
    s + Shl(if s < 2 then 0 else Packed(source, pos, s, COUNTS[s]), SELECTOR_BITS)
  }

  lemma FieldsAreShort(source: seq<nat>, pos: nat, s: nat, n: nat)
    requires 2 <= s < 16 && pos + n <= |source| && ShortEnough(source, pos, s, n)
    ensures FieldsFit(Same(n, WIDTHS[s]), source[pos..pos + n])
  {
    forall j | 0 <= j < n ensures source[pos..pos + n][j] < Pow2(Same(n, WIDTHS[s])[j]) {
      BitLengthFits(source[pos + j]);
      Pow2Grows(BitLength(source[pos + j]), WIDTHS[s]);
    }
  }

  lemma SixtyBits(source: seq<nat>, pos: nat, s: nat)
    requires 2 <= s < 16 && pos + COUNTS[s] <= |source| && ShortEnough(source, pos, s, COUNTS[s])
    ensures Packed(source, pos, s, COUNTS[s]) < Pow2(60)
  {
    var count, width := COUNTS[s], WIDTHS[s];
    FieldsAreShort(source, pos, s, count);
    PackFits(Same(count, width), source[pos..pos + count], 0, 0);
    SumSame(count, width);
    FieldsInSixty(s);
    Pow2Grows(count * width, 60);
  }

  lemma FieldsInSixty(s: nat)
    requires s < 16
    ensures COUNTS[s] * WIDTHS[s] <= 60
  {
  }

  lemma OneMorePacked(source: seq<nat>, pos: nat, s: nat, n: nat)
    requires 2 <= s < 16 && pos + n < |source| && ShortEnough(source, pos, s, n)
    ensures Or(Packed(source, pos, s, n), Shl(source[pos + n], Shift(s, n))) == Packed(source, pos, s, n + 1)
  {
    FieldsAreShort(source, pos, s, n);
    OrOnTop(Same(n, WIDTHS[s]), source[pos..pos + n], source[pos + n]);
    PackSnoc(Same(n, WIDTHS[s]), source[pos..pos + n], WIDTHS[s], source[pos + n], 0);
    ShlZero(WIDTHS[s]);
    assert Same(n + 1, WIDTHS[s]) == Same(n, WIDTHS[s]) + [WIDTHS[s]];
    assert source[pos..pos + n + 1] == source[pos..pos + n] + [source[pos + n]];
  }

  /** One 64-bit word. */
  method PackWord(source: seq<nat>, pos: nat, maskType: nat) returns (word: nat)
    requires pos <= |source| && maskType < 16 && CanUse(source, pos, maskType)
    ensures word == WordOf(source, pos, maskType) && word < Pow2(64)
  {
    word := 0;
    if maskType > 1 {
      var offset := 0;
      while offset < COUNTS[maskType]
        invariant offset <= COUNTS[maskType] && word == Packed(source, pos, maskType, offset)
      {
        OneMorePacked(source, pos, maskType, offset);
        word := Or(word, Shl(source[pos + offset], Shift(maskType, offset)));
        offset := offset + 1;
      }
      SixtyBits(source, pos, maskType);
    }
    Finish(word, maskType);
    word := Or(Low(Shl(word, SELECTOR_BITS), 64), maskType);
  }

  lemma Finish(body: nat, s: nat)
    requires body < Pow2(60) && s < 16
    ensures Or(Low(Shl(body, SELECTOR_BITS), 64), s) == s + Shl(body, SELECTOR_BITS) < Pow2(64)
  {
    SixteenSelectors();
    ShlFits(body, 60, SELECTOR_BITS);
    LowSmall(Shl(body, SELECTOR_BITS), 64);
    OrCommutes(Shl(body, SELECTOR_BITS), s);
    OrJoin(s, body, SELECTOR_BITS);
    JoinFits(s, SELECTOR_BITS, body, 60);
  }

  // ----- whole sequences

  /** Where the word that starts at pos ends. */
  function Next(source: seq<nat>, pos: nat): (r: nat)
    requires Words32(source) && pos < |source|
    ensures pos < r <= |source|
  {
    LastCanBeUsed(source, pos);
    pos + COUNTS[Chosen(source, pos)]
  }

  /** The words from pos on. */
  function Compressed(source: seq<nat>, pos: nat): seq<nat>
    requires Words32(source) && pos <= |source|
    decreases |source| - pos
  {
    if pos == |source| then []
    else [WordOf(source, pos, Chosen(source, pos))] + Compressed(source, Next(source, pos))
  }

  lemma OneMoreWord(source: seq<nat>, pos: nat, words: seq<nat>)
    requires Words32(source) && pos < |source|
    ensures CanUse(source, pos, Chosen(source, pos))
    ensures var more := words + [WordOf(source, pos, Chosen(source, pos))];
            words + Compressed(source, pos) == more + Compressed(source, Next(source, pos))
  {
    LastCanBeUsed(source, pos);
  }

  /** The words, or nothing if they do not fit in the buffer. */
  method Compress(source: seq<nat>, capacity: nat) returns (words: seq<nat>)
    requires Words32(source)
    ensures words == if |Compressed(source, 0)| <= capacity then Compressed(source, 0) else []
  {
    words := [];
    var pos := 0;
    ghost var all := Compressed(source, 0);
    while pos < |source|
      invariant pos <= |source| && |words| <= capacity
      invariant words + Compressed(source, pos) == all
    {
      OneMoreWord(source, pos, words);
      var maskType := ChooseSelector(source, pos);
      var word := PackWord(source, pos, maskType);
      ghost var next := Next(source, pos);
      words := words + [word];
      pos := pos + COUNTS[maskType];
      assert pos == next && words + Compressed(source, next) == all;
      if |words| > capacity {
        return [];
      }
    }
  }

  function Ones(n: nat): (r: seq<nat>)
    ensures |r| == n
  {
    seq(n, i => 1)
  }

  /** Fields as they are stored into 32-bit integers: only the field of 60 bits can lose any. */
  function Truncated(fields: seq<nat>): (r: seq<nat>)
    ensures |r| == |fields| && forall i :: 0 <= i < |r| ==> r[i] == Low(fields[i], 32)
  {
    seq(|fields|, i requires 0 <= i < |fields| => Low(fields[i], 32))
  }

  lemma NothingTruncated(vs: seq<nat>)
    requires Words32(vs)
    ensures Truncated(vs) == vs
  {
    forall i | 0 <= i < |vs| ensures Low(vs[i], 32) == vs[i] {
      LowSmall(vs[i], 32);
    }
  }

  /** The integers of one word. */
  function DecodeWord(word: nat): (r: seq<nat>)
    ensures |r| >= 1
  {
    var s := Selector(word);
    if s < 2 then Ones(COUNTS[s]) else Truncated(Unpack(Same(COUNTS[s], WIDTHS[s]), Shr(word, SELECTOR_BITS)))
  }

  function Selector(word: nat): (r: nat)
    ensures r < 16
  {
    SixteenSelectors();
    Low(word, SELECTOR_BITS)
  }

  function Parts(words: seq<nat>): (r: seq<seq<nat>>)
    ensures |r| == |words|
  {
    seq(|words|, k requires 0 <= k < |words| => DecodeWord(words[k]))
  }

  function Decoded(words: seq<nat>): seq<nat> {
    Flatten(Parts(words))
  }

  /** A word decodes to the integers it was made from, except that the first two selectors give ones. */
  lemma WordDecodes(source: seq<nat>, pos: nat, s: nat)
    requires Words32(source) && pos <= |source| && s < 16 && CanUse(source, pos, s)
    ensures DecodeWord(WordOf(source, pos, s)) == if s < 2 then Ones(COUNTS[s]) else source[pos..pos + COUNTS[s]]
  {
    var body := if s < 2 then 0 else Packed(source, pos, s, COUNTS[s]);
    var word := WordOf(source, pos, s);
    WordParts(body, s, word);
    DecodeParts(word, s, body);
    if s >= 2 {
      FieldsComeBack(source, pos, s, COUNTS[s]);
    }
  }

  lemma FieldsComeBack(source: seq<nat>, pos: nat, s: nat, count: nat)
    requires Words32(source) && 2 <= s < 16 && pos + count <= |source| && ShortEnough(source, pos, s, count)
    ensures Truncated(Unpack(Same(count, WIDTHS[s]), Packed(source, pos, s, count))) == source[pos..pos + count]
  {
    FieldsAreShort(source, pos, s, count);
    UnpackPack(Same(count, WIDTHS[s]), source[pos..pos + count], 0);
    NothingTruncated(source[pos..pos + count]);
  }

  lemma DecodeParts(word: nat, s: nat, body: nat)
    requires Selector(word) == s && Shr(word, SELECTOR_BITS) == body
    ensures DecodeWord(word) == if s < 2 then Ones(COUNTS[s]) else Truncated(Unpack(Same(COUNTS[s], WIDTHS[s]), body))
  {
  }

  lemma WordParts(body: nat, s: nat, word: nat)
    requires s < 16 && word == s + Shl(body, SELECTOR_BITS)
    ensures Selector(word) == s && Shr(word, SELECTOR_BITS) == body
  {
    SixteenSelectors();
    Join(s, body, SELECTOR_BITS);
  }

  /** What the word that starts at pos decodes to. */
  lemma NextWordDecodes(source: seq<nat>, pos: nat)
    requires Words32(source) && pos < |source|
    ensures pos + COUNTS[Chosen(source, pos)] <= |source|
    ensures DecodeWord(WordOf(source, pos, Chosen(source, pos)))
         == if Chosen(source, pos) < 2 then Ones(Next(source, pos) - pos) else source[pos..Next(source, pos)]
  {
    LastCanBeUsed(source, pos);
    WordDecodes(source, pos, Chosen(source, pos));
  }

  predicate OnesOnly(source: seq<nat>, from: nat, to: nat)
    requires from <= to <= |source|
  {
    forall i :: from <= i < to ==> source[i] == 1
  }

  /** Where a word uses one of the first two selectors, it covers ones only. */
  predicate OnlyOnesInRuns(source: seq<nat>, pos: nat)
    requires Words32(source) && pos <= |source|
    decreases |source| - pos
  {
    pos == |source| ||
    (&& (Chosen(source, pos) < 2 ==> OnesOnly(source, pos, Next(source, pos)))
     && OnlyOnesInRuns(source, Next(source, pos)))
  }

  lemma DecodedCons(words: seq<nat>, word: nat, rest: seq<nat>)
    requires words == [word] + rest
    ensures Decoded(words) == DecodeWord(word) + Decoded(rest)
  {
    assert Parts(words)[1..] == Parts(rest);
  }

  /** The words hold exactly as many integers as there are. */
  lemma {:induction false} CountsAddUp(source: seq<nat>, pos: nat)
    requires Words32(source) && pos <= |source|
    ensures |Decoded(Compressed(source, pos))| == |source| - pos
    decreases |source| - pos
  {
    if pos < |source| {
      NextWordDecodes(source, pos);
      CountsAddUp(source, Next(source, pos));
      DecodedCons(Compressed(source, pos), WordOf(source, pos, Chosen(source, pos)),
                  Compressed(source, Next(source, pos)));
    }
  }

  /** Every word is a 64-bit word. */
  lemma {:induction false} WordsAre64(source: seq<nat>, pos: nat)
    requires Words32(source) && pos <= |source|
    ensures forall k :: 0 <= k < |Compressed(source, pos)| ==> Compressed(source, pos)[k] < Pow2(64)
    decreases |source| - pos
  {
    if pos < |source| {
      LastCanBeUsed(source, pos);
      var s := Chosen(source, pos);
      if s < 2 {
        Pow2Grows(0, 60);
        Finish(0, s);
      } else {
        SixtyBits(source, pos, s);
        Finish(Packed(source, pos, s, COUNTS[s]), s);
      }
      WordsAre64(source, Next(source, pos));
    }
  }

  /** What is decompressed is 32-bit integers again. */
  lemma {:induction false} DecodedAreWords(source: seq<nat>, pos: nat)
    requires Words32(source) && pos <= |source|
    ensures Words32(Decoded(Compressed(source, pos)))
    decreases |source| - pos
  {
    if pos < |source| {
      var next, word := Next(source, pos), WordOf(source, pos, Chosen(source, pos));
      NextWordDecodes(source, pos);
      DecodedAreWords(source, next);
      DecodedCons(Compressed(source, pos), word, Compressed(source, next));
      TwoTo32();
      assert Words32(DecodeWord(word));
    }
  }

  /** Decompressing gives back the integers exactly when no zero is in a run that is stored as ones. */
  lemma {:induction false} RoundTrip(source: seq<nat>, pos: nat)
    requires Words32(source) && pos <= |source|
    ensures Decoded(Compressed(source, pos)) == source[pos..] <==> OnlyOnesInRuns(source, pos)
    decreases |source| - pos
  {
    if pos < |source| {
      var next, word := Next(source, pos), WordOf(source, pos, Chosen(source, pos));
      NextWordDecodes(source, pos);
      RoundTrip(source, next);
      DecodedCons(Compressed(source, pos), word, Compressed(source, next));
      SplitEquality(DecodeWord(word), Decoded(Compressed(source, next)), source, pos, next);
      OnesAreOnes(source, pos, next);
    }
  }

  lemma OnesAreOnes(source: seq<nat>, from: nat, to: nat)
    requires from <= to <= |source|
    ensures Ones(to - from) == source[from..to] <==> OnesOnly(source, from, to)
  {
    if Ones(to - from) == source[from..to] {
      forall i | from <= i < to ensures source[i] == 1 {
        assert source[i] == source[from..to][i - from];
      }
    }
  }

  lemma SplitEquality(a: seq<nat>, b: seq<nat>, source: seq<nat>, pos: nat, next: nat)
    requires pos <= next <= |source| && |a| == next - pos
    ensures a + b == source[pos..] <==> a == source[pos..next] && b == source[next..]
  {
    assert source[pos..] == source[pos..next] + source[next..];
    if a + b == source[pos..] {
      assert a == (a + b)[..|a|] && b == (a + b)[|a|..];
    }
  }

  /** Positive integers are always given back. */
  lemma {:induction false} PositiveRoundTrip(source: seq<nat>, pos: nat)
    requires Words32(source) && pos <= |source| && forall i :: pos <= i < |source| ==> source[i] > 0
    ensures OnlyOnesInRuns(source, pos)
    decreases |source| - pos
  {
    if pos < |source| {
      LastCanBeUsed(source, pos);
      var next := Next(source, pos);
      if Chosen(source, pos) < 2 {
        RunOfOnes(source, pos, Chosen(source, pos), next);
      }
      PositiveRoundTrip(source, next);
    }
  }

  lemma RunOfOnes(source: seq<nat>, pos: nat, s: nat, next: nat)
    requires pos <= next <= |source| && s < 2 && ShortEnough(source, pos, s, next - pos)
    requires forall i :: pos <= i < next ==> source[i] > 0
    ensures OnesOnly(source, pos, next)
  {
    forall i | pos <= i < next ensures source[i] == 1 {
      assert BitLength(source[i]) <= 1;
      OneBit(source[i]);
    }
  }

  lemma OneBit(v: nat)
    requires 0 < v && BitLength(v) <= 1
    ensures v == 1
  {
    var half := v / 2;
    assert BitLength(v) == 1 + BitLength(half);
    assert half == 0;
  }

  /** A zero and 119 ones. */
  predicate ZeroAndOnes(source: seq<nat>) {
    |source| >= 120 && source[0] == 0 && OnesOnly(source, 1, 120)
  }

  ghost predicate PositiveRest(source: seq<nat>) {
    forall i :: 1 <= i < |source| ==> source[i] > 0
  }

  /** If only the first integer may be zero: the round trip fails exactly if it is, and 119 ones follow. */
  lemma LeadingZero(source: seq<nat>)
    requires Words32(source) && source != [] && PositiveRest(source)
    ensures OnlyOnesInRuns(source, 0) <==> !ZeroAndOnes(source)
  {
    if source[0] > 0 {
      PositiveRoundTrip(source, 0);
    } else {
      var next := Next(source, 0);
      PositiveRoundTrip(source, next);
      assert !OnesOnly(source, 0, next);
      LongRun(source, Chosen(source, 0));
    }
  }

  lemma LongRun(source: seq<nat>, s: nat)
    requires Words32(source) && source != [] && source[0] == 0 && PositiveRest(source) && s == Chosen(source, 0)
    ensures s < 2 <==> ZeroAndOnes(source)
  {
    LastCanBeUsed(source, 0);
    if s < 2 {
      RunStarts(source, s);
    } else if ZeroAndOnes(source) {
      ShortRun(source);
    }
  }

  lemma RunStarts(source: seq<nat>, s: nat)
    requires s < 2 && CanUse(source, 0, s) && PositiveRest(source)
    ensures |source| >= 120 && OnesOnly(source, 1, 120)
  {
    RunOfOnes(source, 1, s, 120);
  }

  lemma ShortRun(source: seq<nat>)
    requires ZeroAndOnes(source)
    ensures CanUse(source, 0, 1)
  {
    forall i | 0 <= i < 120 ensures BitLength(source[i]) <= 1 {
      assert source[i] == 0 || source[i] == 1;
    }
  }

  /** The gaps of the first 120 documents, from document 0 on, come back as if they began at 1. */
  lemma FirstDocumentShifts()
    ensures var gaps := [0] + Ones(119);
            Words32(gaps) && Decoded(Compressed(gaps, 0)) == Ones(120) != gaps
  {
    var gaps := [0] + Ones(119);
    TwoTo32();
    assert CanUse(gaps, 0, 1) && !CanUse(gaps, 0, 0);
    assert Chosen(gaps, 0) == 1;
    WordDecodes(gaps, 0, 1);
    assert Next(gaps, 0) == 120 && Compressed(gaps, 120) == [];
    DecodedCons(Compressed(gaps, 0), WordOf(gaps, 0, 1), Compressed(gaps, 120));
    assert gaps[0] == 0 && Ones(120)[0] == 1;
  }

  // ----- decompressing and processing

  lemma DecodedSnoc(words: seq<nat>, word: nat)
    ensures Decoded(words + [word]) == Decoded(words) + DecodeWord(word)
  {
    assert Parts(words + [word]) == Parts(words) + [DecodeWord(word)];
    FlattenSnoc(Parts(words), DecodeWord(word));
  }

  /** The j-th integer of a case of the decoders' switches. */
  function IntegerAt(maskType: nat, value: nat, j: nat): nat
    requires maskType < 16
  {
    if maskType < 2 then 1 else Low(Low(Shr(value, Shift(maskType, j)), WIDTHS[maskType]), 32)
  }

  lemma IntegersOfWord(word: nat)
    ensures |DecodeWord(word)| == COUNTS[Selector(word)]
    ensures forall j :: 0 <= j < |DecodeWord(word)| ==>
            DecodeWord(word)[j] == IntegerAt(Selector(word), Shr(word, SELECTOR_BITS), j)
  {
    var s, value := Selector(word), Shr(word, SELECTOR_BITS);
    forall j | 0 <= j < COUNTS[s] && s >= 2
      ensures Low(Unpack(Same(COUNTS[s], WIDTHS[s]), value)[j], 32) == IntegerAt(s, value, j)
    {
      UnpackAt(Same(COUNTS[s], WIDTHS[s]), value, j);
      assert Same(COUNTS[s], WIDTHS[s])[..j] == Same(j, WIDTHS[s]);
    }
  }

  /** One case of the decoder's switch, as the loop that it unrolls. */
  method UnpackWord(word: nat) returns (values: seq<nat>)
    ensures values == DecodeWord(word)
  {
    IntegersOfWord(word);
    var maskType, value := Selector(word), Shr(word, SELECTOR_BITS);
    var count := COUNTS[maskType];
    values := [];
    ghost var all := DecodeWord(word);
    while |values| < count
      invariant |values| <= count && values == all[..|values|]
    {
      values := values + [IntegerAt(maskType, value, |values|)];
    }
  }

  lemma PrefixDecodes(words: seq<nat>, k: nat)
    requires k <= |words|
    ensures Decoded(words) == Decoded(words[..k]) + Decoded(words[k..])
  {
    FlattenSplit(Parts(words), k);
    assert Parts(words)[..k] == Parts(words[..k]) && Parts(words)[k..] == Parts(words[k..]);
  }

  /** `decompress`: words until there are as many integers as are asked for. */
  method Decompress(words: seq<nat>, integers: nat) returns (decoded: seq<nat>)
    requires integers <= |Decoded(words)|
    ensures integers <= |decoded| && decoded <= Decoded(words)
    ensures integers == |Decoded(words)| ==> decoded == Decoded(words)
  {
    decoded := [];
    var k := 0;
    while |decoded| < integers
      invariant k <= |words| && decoded == Decoded(words[..k])
    {
      PrefixDecodes(words, k);
      if k == |words| {
        assert false;
      }
      var values := UnpackWord(words[k]);
      assert words[..k + 1] == words[..k] + [words[k]];
      DecodedSnoc(words[..k], words[k]);
      decoded := decoded + values;
      k := k + 1;
    }
    PrefixDecodes(words, k);
  }

  /** Decoding and scoring interleaved, word by word to the end: the calls of `add_rsv`. */
  method ProcessFused(words: seq<nat>) returns (docids: seq<nat>)
    ensures docids == Gaps.RunningSums(0, Decoded(words))
  {
    docids := [];
    var sum: nat, k := 0, 0;
    while k < |words|
      invariant k <= |words| && Gaps.Summed(Decoded(words[..k]), docids, sum)
    {
      assert words[..k + 1] == words[..k] + [words[k]];
      DecodedSnoc(words[..k], words[k]);
      docids, sum := AddWord(words[k], docids, sum, Decoded(words[..k]));
      k := k + 1;
    }
    assert words[..k] == words;
  }

  /** The calls that one word makes. */
  method AddWord(word: nat, docids: seq<nat>, sum: nat, ghost before: seq<nat>)
    returns (docids': seq<nat>, sum': nat)
    requires Gaps.Summed(before, docids, sum)
    ensures Gaps.Summed(before + DecodeWord(word), docids', sum')
  {
    IntegersOfWord(word);
    docids', sum' := AddIntegers(Selector(word), Shr(word, SELECTOR_BITS), COUNTS[Selector(word)], docids, sum, before,
                                 DecodeWord(word));
  }

  /** A case of the switch, as the loop that it unrolls. */
  method AddIntegers(maskType: nat, value: nat, count: nat, docids: seq<nat>, sum: nat, ghost before: seq<nat>,
                     ghost all: seq<nat>)
    returns (docids': seq<nat>, sum': nat)
    requires maskType < 16 && |all| == count && forall j :: 0 <= j < count ==> all[j] == IntegerAt(maskType, value, j)
    requires Gaps.Summed(before, docids, sum)
    ensures Gaps.Summed(before + all, docids', sum')
  {
    docids', sum' := docids, sum;
    ghost var so := before;
    var j := 0;
    while j < count
      invariant j <= count && so == before + all[..j] && Gaps.Summed(so, docids', sum')
    {
      var gap := IntegerAt(maskType, value, j);
      docids', sum' := Gaps.AddGap(docids', sum', gap, so);
      so := so + [gap];
      j := j + 1;
    }
    assert all[..j] == all;
  }

  /** Everything is decoded first and scored afterwards: on what the encoder writes, the same calls. */
  method ProcessStaged(words: seq<nat>, integers: nat, ghost source: seq<nat>) returns (docids: seq<nat>)
    requires Words32(source) && words == Compressed(source, 0) && integers == |source|
    ensures docids == Gaps.RunningSums(0, Decoded(words))
  {
    CountsAddUp(source, 0);
    var decoded := Decompress(words, integers);
    assert decoded[..integers] == Decoded(words);
    docids := Gaps.SumAndAdd(decoded, integers);
  }
}
