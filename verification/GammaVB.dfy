/** Group Elias Gamma without carrying rows across words: the last width of a word takes its spare
    bits, and integers that do not fill a row are left to variable-byte codes at the end. */
module GammaVB {
  import opened Bits
  import opened Simd
  import opened GroupElias
  import opened Gamma
  import VByte

  // ----- what a word holds

  /** The last width takes the spare bits. */
  function Padded(ws: seq<nat>, spare: nat): (r: seq<nat>)
    requires ws != []
    ensures |r| == |ws|
  {
    ws[..|ws| - 1] + [ws[|ws| - 1] + spare]
  }

  lemma PaddedSum(ws: seq<nat>, spare: nat)
    requires ws != []
    ensures SumOf(Padded(ws, spare)) == SumOf(ws) + spare
  {
    var n := |ws| - 1;
    var front := ws[..n];
    assert ws == front + [ws[n]];
    SumSnoc(front, ws[n]);
    SumSnoc(front, ws[n] + spare);
  }

  /** The width of the last field does not matter when there is nothing above it. */
  lemma LastWidth(ws: seq<nat>, vs: seq<nat>, w: nat, pad: nat, v: nat)
    requires |ws| == |vs|
    ensures Pack(ws + [w], vs + [v], 0) == Pack(ws + [pad], vs + [v], 0)
  {
    PackSnoc(ws, vs, w, v, 0);
    PackSnoc(ws, vs, pad, v, 0);
    ShlZero(w);
    ShlZero(pad);
  }

  lemma PadFits(ws: seq<nat>, vs: seq<nat>, spare: nat)
    requires ws != [] && FieldsFit(ws, vs)
    ensures FieldsFit(Padded(ws, spare), vs)
  {
    Pow2Grows(ws[|ws| - 1], ws[|ws| - 1] + spare);
  }

  lemma PadUnpacks(ws: seq<nat>, vs: seq<nat>, spare: nat)
    requires ws != [] && FieldsFit(ws, vs)
    ensures Unpack(Padded(ws, spare), Pack(ws, vs, 0)) == vs
  {
    var n := |ws| - 1;
    assert ws == ws[..n] + [ws[n]] && vs == vs[..n] + [vs[n]];
    LastWidth(ws[..n], vs[..n], ws[n], ws[n] + spare, vs[n]);
    PadFits(ws, vs, spare);
    UnpackPack(Padded(ws, spare), vs, 0);
  }

  /** A word of the m rows from row r on. */
  ghost predicate HoldsRows(input: seq<nat>, r: nat, m: nat, ws: seq<nat>, payload: seq<nat>) {
    && m >= 1 && ws == FieldWidths(input, r, 0, m) && SumOf(ws) <= 32 && |payload| == 16
    && forall l :: 0 <= l < 16 ==> payload[l] == PackedLane(input, r, 0, m, 0, l)
  }

  function WordLane(w: CodeWord, l: nat): seq<nat>
    requires |w.payload| == 16 && l < 16
  {
    Unpack(Widths(w.selector), w.payload[l])
  }

  /** The integers of lane l in all the words. */
  function LaneAll(words: seq<CodeWord>, l: nat): seq<nat>
    requires Lanes(words) && l < 16
  {
    Flatten(seq(|words|, k requires 0 <= k < |words| => WordLane(words[k], l)))
  }

  lemma LaneSnocs(words: seq<CodeWord>, w: CodeWord, l: nat)
    requires Lanes(words) && |w.payload| == 16 && Lanes(words + [w]) && l < 16
    ensures LaneAll(words + [w], l) == LaneAll(words, l) + WordLane(w, l)
  {
    var parts := seq(|words|, k requires 0 <= k < |words| => WordLane(words[k], l));
    var more := words + [w];
    assert seq(|more|, k requires 0 <= k < |more| => WordLane(more[k], l)) == parts + [WordLane(w, l)];
    FlattenSnoc(parts, WordLane(w, l));
  }

  lemma LaneCons(words: seq<CodeWord>, l: nat)
    requires Lanes(words) && words != [] && l < 16
    ensures LaneAll(words, l) == WordLane(words[0], l) + LaneAll(words[1..], l)
  {
    var parts := seq(|words|, k requires 0 <= k < |words| => WordLane(words[k], l));
    assert parts[1..] == seq(|words[1..]|, k requires 0 <= k < |words[1..]| => WordLane(words[1..][k], l));
  }

  /** The words decode to the first r rows, and each uses all of its bits. */
  ghost predicate RowsEncoded(input: seq<nat>, words: seq<CodeWord>, r: nat) {
    && Lanes(words) && Full(words)
    && forall l :: 0 <= l < 16 ==> LaneAll(words, l) == Column(input, 0, r, l)
  }

  /** Every finished selector's widths add up to the word. */
  ghost predicate Full(words: seq<CodeWord>) {
    forall k :: 0 <= k < |words| ==> SumOf(Widths(words[k].selector)) == 32
  }

  /** The selector's widths are the rows', the last one made up to the whole word. */
  ghost predicate IsPadded(selector: nat, ws: seq<nat>) {
    ws != [] && SumOf(ws) <= 32 && Widths(selector) == Padded(ws, 32 - SumOf(ws))
  }

  lemma WholeRows(input: seq<nat>, r: nat, m: nat, l: nat)
    requires Words32(input) && l < 16
    ensures Fields(input, r, 0, m, l) == Column(input, r, r + m, l)
  {
    forall j: nat | j < m ensures Field(input, r, 0, j, l) == Cell(input, r + j, l) {
      CellFits(input, r + j, l);
      LowSmall(Cell(input, r + j, l), RowWidth(input, r + j));
    }
    assert forall j :: 0 <= j < m ==> Fields(input, r, 0, m, l)[j] == Field(input, r, 0, j, l);
  }

  lemma RowsDecode(input: seq<nat>, r: nat, m: nat, ws: seq<nat>, w: CodeWord, l: nat)
    requires Words32(input) && HoldsRows(input, r, m, ws, w.payload) && IsPadded(w.selector, ws) && l < 16
    ensures WordLane(w, l) == Column(input, r, r + m, l)
  {
    FieldsAreFit(input, r, 0, m, l);
    PadUnpacks(ws, Fields(input, r, 0, m, l), 32 - SumOf(ws));
    WholeRows(input, r, m, l);
  }

  lemma WordAdded(input: seq<nat>, words: seq<CodeWord>, r: nat, m: nat, ws: seq<nat>, w: CodeWord)
    requires Words32(input) && RowsEncoded(input, words, r) && HoldsRows(input, r, m, ws, w.payload)
    requires IsPadded(w.selector, ws)
    ensures RowsEncoded(input, words + [w], r + m)
  {
    PaddedSum(ws, 32 - SumOf(ws));
    var more := words + [w];
    assert Lanes(more);
    forall l: nat | l < 16 ensures LaneAll(more, l) == Column(input, 0, r + m, l) {
      LaneSnocs(words, w, l);
      RowsDecode(input, r, m, ws, w, l);
      ColumnJoin(input, r, m, l);
    }
  }

  // ----- packing

  /** The OR of a row's integers is as long as the longest of them. */
  method WidthOfRow(input: seq<nat>, r: nat) returns (maxWidth: nat)
    ensures maxWidth == RowWidth(input, r)
  {
    maxWidth := 1;
    var word := 0;
    while word < 16
      invariant word <= 16 && BitLength(maxWidth) == Max(RowWidthTo(input, r, word), 1)
    {
      var value := if 16 * r + word < |input| then input[16 * r + word] else 1;
      BitLengthOr(maxWidth, value);
      maxWidth := Or(maxWidth, value);
      word := word + 1;
    }
    maxWidth := BitLength(maxWidth);
  }

  method AddRow(input: seq<nat>, r: nat, m: nat, payload: seq<nat>, shift: nat) returns (packed: seq<nat>)
    requires Words32(input) && |payload| == 16 && shift == SumOf(FieldWidths(input, r, 0, m))
    requires shift + RowWidth(input, r + m) <= 32
    requires forall l :: 0 <= l < 16 ==> payload[l] == PackedLane(input, r, 0, m, 0, l)
    ensures |packed| == 16 && forall l :: 0 <= l < 16 ==> packed[l] == PackedLane(input, r, 0, m + 1, 0, l)
  {
    packed := payload;
    var word := 0;
    while word < 16
      invariant word <= 16 && |packed| == 16
      invariant forall l :: 0 <= l < word ==> packed[l] == PackedLane(input, r, 0, m + 1, 0, l)
      invariant forall l :: word <= l < 16 ==> packed[l] == PackedLane(input, r, 0, m, 0, l)
    {
      RowAdds(input, r, m, shift, word);
      packed := packed[word := Or(packed[word], Low(Shl(Cell(input, r + m, word), shift), 32))];
      word := word + 1;
    }
  }

  lemma RowAdds(input: seq<nat>, r: nat, m: nat, shift: nat, l: nat)
    requires Words32(input) && l < 16 && shift == SumOf(FieldWidths(input, r, 0, m))
    requires shift + RowWidth(input, r + m) <= 32
    ensures Or(PackedLane(input, r, 0, m, 0, l), Low(Shl(Cell(input, r + m, l), shift), 32)) ==
            PackedLane(input, r, 0, m + 1, 0, l)
  {
    if m == 0 {
      FirstRow(input, r, 0, l);
    } else {
      RowFits(input, r, 0, m, l);
    }
  }

  // ----- where the words and the variable bytes start, from the input alone

  /** How many rows from r on fit in `left` bits. */
  function RowsThatFit(input: seq<nat>, r: nat, left: nat): (m: nat)
    ensures r <= Rows(|input|) ==> r + m <= Rows(|input|)
    decreases Rows(|input|) - r
  {
    if r >= Rows(|input|) || RowWidth(input, r) > left then 0
    else 1 + RowsThatFit(input, r + 1, left - RowWidth(input, r))
  }

  /** The number of words before the last, if a word starts at row r. */
  function WordsBefore(input: seq<nat>, r: nat): (n: nat)
    ensures r < Rows(|input|) ==> r + n < Rows(|input|)
    decreases Rows(|input|) - r
  {
    var m := RowsThatFit(input, r, 32);
    if m == 0 || r + m >= Rows(|input|) then 0 else 1 + WordsBefore(input, r + m)
  }

  /** The first row of the last word. */
  function LastWord(input: seq<nat>, r: nat): (last: nat)
    requires r < Rows(|input|)
    ensures r <= last < Rows(|input|)
    decreases Rows(|input|) - r
  {
    var m := RowsThatFit(input, r, 32);
    if m == 0 || r + m >= Rows(|input|) then r else LastWord(input, r + m)
  }

  /** The size of the integers from a row on as variable bytes. */
  function TailSize(input: seq<nat>, row: nat): nat
    requires row < Rows(|input|)
  {
    |VByte.Codes(input[16 * row..])|
  }

  /** The first row that is not in a word, if the last word starts at row `last`: none is left if the
      last row is whole, otherwise that word or its last column is re-coded, whichever is shorter. */
  function TailFrom(input: seq<nat>, last: nat): (rows: nat)
    requires last < Rows(|input|)
    ensures 16 * rows <= |input|
  {
    var column := Rows(|input|) - 1;
    if |input| == 16 * Rows(|input|) then Rows(|input|)
    else if TailSize(input, last) < 64 + TailSize(input, column) then last
    else column
  }

  function TailStart(input: seq<nat>): (rows: nat)
    ensures 16 * rows <= |input|
  {
    TailFrom(input, LastWord(input, 0))
  }

  /** What the encoder takes for the room left for variable bytes, in a buffer of so many words. */
  function Room(input: seq<nat>, capacity: nat): nat {
    var used := 1 + 17 * WordsBefore(input, 0);
    if used <= capacity then capacity - used else 0
  }

  ghost predicate IsEncoding(input: seq<nat>, capacity: nat, words: seq<CodeWord>, tail: seq<nat>) {
    Words32(input) && RowsEncoded(input, words, TailStart(input))
      && IsTail(input, TailStart(input), Room(input, capacity), tail)
  }

  ghost predicate IsLossless(input: seq<nat>, capacity: nat) {
    |VByte.Codes(input[16 * TailStart(input)..])| <= Room(input, capacity)
  }

  ghost predicate Filling(input: seq<nat>, r: nat, payload: seq<nat>, encodings: seq<nat>, remaining: nat) {
    && encodings == FieldWidths(input, r, 0, |encodings|) && remaining + SumOf(encodings) == 32 && |payload| == 16
    && forall l :: 0 <= l < 16 ==> payload[l] == PackedLane(input, r, 0, |encodings|, 0, l)
  }

  /** One more row, if it fits. */
  method NextRow(input: seq<nat>, r: nat, payload: seq<nat>, encodings: seq<nat>, remaining: nat)
    returns (fits: bool, payload': seq<nat>, encodings': seq<nat>, remaining': nat)
    requires Words32(input) && Filling(input, r, payload, encodings, remaining)
    ensures Filling(input, r, payload', encodings', remaining')
    ensures fits <==> RowWidth(input, r + |encodings|) <= remaining
    ensures if fits then |encodings'| == |encodings| + 1 && remaining' == remaining - RowWidth(input, r + |encodings|)
            else encodings' == encodings && remaining' == remaining
  {
    fits, payload', encodings', remaining' := false, payload, encodings, remaining;
    var slice := |encodings|;
    var maxWidth := WidthOfRow(input, r + slice);
    if maxWidth <= remaining {
      FieldWidthsSnoc(input, r, 0, slice);
      payload' := AddRow(input, r, slice, payload, 32 - remaining);
      fits, encodings', remaining' := true, encodings + [maxWidth], remaining - maxWidth;
    }
  }

  /** Packs rows into one word until one does not fit or the input ends. */
  method FillWord(input: seq<nat>, r: nat) returns (payload: seq<nat>, encodings: seq<nat>, remaining: nat, ended: bool)
    requires Words32(input) && r < Rows(|input|)
    ensures HoldsRows(input, r, |encodings|, encodings, payload) && remaining == 32 - SumOf(encodings)
    ensures r + |encodings| <= Rows(|input|) && (ended <==> r + |encodings| == Rows(|input|))
    ensures |encodings| == RowsThatFit(input, r, 32)
    ensures SumOf(encodings) <= 32 && (!ended ==> SumOf(encodings) + RowWidth(input, r + |encodings|) > 32)
  {
    payload, encodings, remaining, ended := seq(16, i => 0), [], 32, false;
    CellFits(input, r, 0);
    assert Filling(input, r, payload, encodings, remaining);
    while true
      invariant Filling(input, r, payload, encodings, remaining) && r + |encodings| < Rows(|input|) && !ended
      invariant |encodings| + RowsThatFit(input, r + |encodings|, remaining) == RowsThatFit(input, r, 32)
      decreases Rows(|input|) - |encodings|
    {
      var fits;
      fits, payload, encodings, remaining := NextRow(input, r, payload, encodings, remaining);
      if !fits {
        return;
      }
      if 16 * (r + |encodings|) >= |input| {
        ended := true;
        return;
      }
    }
  }

  // ----- the end of the input

  lemma ColumnOut(input: seq<nat>, r: nat, m: nat, shift: nat, l: nat)
    requires Words32(input) && l < 16 && m >= 1 && shift == SumOf(FieldWidths(input, r, 0, m))
    requires shift + RowWidth(input, r + m) <= 32
    ensures Xor(PackedLane(input, r, 0, m + 1, 0, l), Low(Shl(Cell(input, r + m, l), shift), 32)) ==
            PackedLane(input, r, 0, m, 0, l)
  {
    CellFits(input, r + m, l);
    LaneBelow(input, r, m, l);
    LaneOnTop(input, r, m, l);
    XorOut(PackedLane(input, r, 0, m, 0, l), Cell(input, r + m, l), RowWidth(input, r + m), shift);
  }

  lemma LaneBelow(input: seq<nat>, r: nat, m: nat, l: nat)
    requires Words32(input) && l < 16
    ensures PackedLane(input, r, 0, m, 0, l) < Pow2(SumOf(FieldWidths(input, r, 0, m)))
  {
    FieldsAreFit(input, r, 0, m, l);
    PackFits(FieldWidths(input, r, 0, m), Fields(input, r, 0, m, l), 0, 0);
  }

  lemma XorOut(lane: nat, v: nat, width: nat, shift: nat)
    requires lane < Pow2(shift) && v < Pow2(width) && shift + width <= 32
    ensures Xor(lane + Shl(v, shift), Low(Shl(v, shift), 32)) == lane
  {
    ShlFits(v, width, shift);
    Pow2Grows(shift + width, 32);
    LowSmall(Shl(v, shift), 32);
    XorJoin(lane, v, shift);
  }

  lemma LaneOnTop(input: seq<nat>, r: nat, m: nat, l: nat)
    requires l < 16 && m >= 1
    ensures PackedLane(input, r, 0, m + 1, 0, l)
         == PackedLane(input, r, 0, m, 0, l) + Shl(Cell(input, r + m, l), SumOf(FieldWidths(input, r, 0, m)))
  {
    var v, w, ws, vs := Cell(input, r + m, l), RowWidth(input, r + m), FieldWidths(input, r, 0, m),
      Fields(input, r, 0, m, l);
    FieldWidthsSnoc(input, r, 0, m);
    assert Fields(input, r, 0, m + 1, l) == vs + [v];
    PackSnoc(ws, vs, w, v, 0);
    ShlZero(w);
    PackTop(ws, vs, v);
  }

  /** XORs the last column out of the word. */
  method RemoveRow(input: seq<nat>, r: nat, m: nat, payload: seq<nat>, shift: nat) returns (packed: seq<nat>)
    requires Words32(input) && m >= 1 && |payload| == 16 && shift == SumOf(FieldWidths(input, r, 0, m))
    requires shift + RowWidth(input, r + m) <= 32
    requires forall l :: 0 <= l < 16 ==> payload[l] == PackedLane(input, r, 0, m + 1, 0, l)
    ensures |packed| == 16 && forall l :: 0 <= l < 16 ==> packed[l] == PackedLane(input, r, 0, m, 0, l)
  {
    packed := payload;
    var word := 0;
    while word < 16
      invariant word <= 16 && |packed| == 16
      invariant forall l :: 0 <= l < word ==> packed[l] == PackedLane(input, r, 0, m, 0, l)
      invariant forall l :: word <= l < 16 ==> packed[l] == PackedLane(input, r, 0, m + 1, 0, l)
    {
      ColumnOut(input, r, m, shift, word);
      packed := packed[word := Xor(packed[word], Low(Shl(Cell(input, r + m, word), shift), 32))];
      word := word + 1;
    }
  }

  /** The selector of a word's widths, made up to 32 bits. */
  method SelectPadded(input: seq<nat>, r: nat, m: nat, ws: seq<nat>, payload: seq<nat>, remaining: nat)
    returns (selector: nat)
    requires Words32(input) && HoldsRows(input, r, m, ws, payload) && remaining == 32 - SumOf(ws)
    ensures IsPadded(selector, ws)
  {
    PaddedSum(ws, remaining);
    var padded := Padded(ws, remaining);
    forall i: nat | i < m ensures padded[i] >= 1 {
      CellFits(input, r + i, 0);
      assert ws[i] == FieldWidth(input, r, 0, i);
    }
    selector := ComputeSelector(padded);
    WidthsOfSelector(padded);
  }

  /** The bytes that the integers from `from` on need. */
  method SizeFrom(input: seq<nat>, from: nat) returns (size: nat)
    requires Words32(input) && from <= |input|
    ensures size == |VByte.Codes(input[from..])|
  {
    size := 0;
    var current := |input|;
    assert input[current..] == [];
    while current > from
      invariant from <= current <= |input| && size == |VByte.Codes(input[current..])|
    {
      current := current - 1;
      assert input[current..][1..] == input[current + 1..];
      var needed := BytesFor(input[current]);
      size := size + needed;
    }
  }

  method BytesFor(v: nat) returns (needed: nat)
    requires v < Pow2(32)
    ensures needed == VByte.Needed(v)
  {
    Pow2Grows(32, 63);
    needed := VByte.BytesNeeded(v);
  }

  lemma {:induction false} FewBytes(vs: seq<nat>)
    requires Words32(vs)
    ensures |VByte.Codes(vs)| <= 5 * |vs|
  {
    if vs != [] {
      VByte.AtMostFive(vs[0]);
      FewBytes(vs[1..]);
    }
  }

  /** The integers from row `rows` on as variable bytes, if the buffer has `room` bytes for them. */
  ghost predicate IsTail(input: seq<nat>, rows: nat, room: nat, tail: seq<nat>) {
    && 16 * rows <= |input|
    && tail == if |VByte.Codes(input[16 * rows..])| <= room then VByte.Codes(input[16 * rows..]) else []
  }

  /** A finished word, its spare bits given to the last width. */
  method AppendWord(input: seq<nat>, words: seq<CodeWord>, r: nat, payload: seq<nat>, encodings: seq<nat>,
                    remaining: nat)
    returns (words': seq<CodeWord>)
    requires Words32(input) && RowsEncoded(input, words, r) && HoldsRows(input, r, |encodings|, encodings, payload)
    requires remaining == 32 - SumOf(encodings)
    ensures RowsEncoded(input, words', r + |encodings|) && |words'| == |words| + 1
  {
    var selector := SelectPadded(input, r, |encodings|, encodings, payload, remaining);
    words' := words + [CodeWord(selector, payload)];
    WordAdded(input, words, r, |encodings|, encodings, CodeWord(selector, payload));
  }

  /** What is left after the last whole row is short. */
  lemma ShortTails(input: seq<nat>, r: nat, k: nat)
    requires Words32(input) && r <= k && 16 * k <= |input| <= 16 * k + 15
    ensures |VByte.Codes(input[16 * k..])| <= 75
  {
    FewBytes(input[16 * k..]);
  }

  /** At the end of the input: the last row is whole, or the last word or its last column is re-coded. */
  method EndWord(input: seq<nat>, words: seq<CodeWord>, r: nat, payload: seq<nat>, encodings: seq<nat>, remaining: nat,
                 room: nat)
    returns (words': seq<CodeWord>, tail: seq<nat>)
    requires Words32(input) && RowsEncoded(input, words, r) && HoldsRows(input, r, |encodings|, encodings, payload)
    requires r + |encodings| == Rows(|input|) && remaining == 32 - SumOf(encodings)
    ensures RowsEncoded(input, words', TailFrom(input, r)) && IsTail(input, TailFrom(input, r), room, tail)
  {
    if |input| - 16 * (r + |encodings| - 1) == 16 {
      words' := AppendWord(input, words, r, payload, encodings, remaining);
      tail := [];
      assert input[16 * (r + |encodings|)..] == [];
    } else {
      words', tail := Recode(input, words, r, payload, encodings, remaining, room);
    }
  }

  /** Is the whole last word shorter as variable bytes? Always, if the last row is its only one. */
  method IsShorterWhole(input: seq<nat>, r: nat, last: nat) returns (whole: bool)
    requires Words32(input) && r <= last < Rows(|input|)
    ensures whole <==> TailSize(input, r) < 64 + TailSize(input, last)
    ensures r == last ==> whole
  {
    var eliasSize := SizeFrom(input, 16 * last);
    eliasSize := 64 + eliasSize;
    var vbyteSize := SizeFrom(input, 16 * r);
    whole := vbyteSize < eliasSize;
  }

  method WriteTail(input: seq<nat>, row: nat, room: nat) returns (tail: seq<nat>)
    requires Words32(input) && 16 * row <= |input|
    ensures IsTail(input, row, room, tail)
  {
    tail := VByte.Compress(input[16 * row..], room);
  }

  method Recode(input: seq<nat>, words: seq<CodeWord>, r: nat, payload: seq<nat>, encodings: seq<nat>, remaining: nat,
                room: nat)
    returns (words': seq<CodeWord>, tail: seq<nat>)
    requires Words32(input) && RowsEncoded(input, words, r) && HoldsRows(input, r, |encodings|, encodings, payload)
    requires r + |encodings| == Rows(|input|) && |input| < 16 * Rows(|input|) && remaining == 32 - SumOf(encodings)
    ensures RowsEncoded(input, words', TailFrom(input, r)) && IsTail(input, TailFrom(input, r), room, tail)
  {
    var last := r + |encodings| - 1;
    var whole := IsShorterWhole(input, r, last);
    if whole {
      words' := words;
      tail := WriteTail(input, r, room);
    } else {
      words' := RecodeColumn(input, words, r, payload, encodings, remaining);
      tail := WriteTail(input, last, room);
    }
  }

  /** Takes the last column out of the word; there is one before it. */
  method RecodeColumn(input: seq<nat>, words: seq<CodeWord>, r: nat, payload: seq<nat>, encodings: seq<nat>,
                      remaining: nat)
    returns (words': seq<CodeWord>)
    requires Words32(input) && RowsEncoded(input, words, r) && HoldsRows(input, r, |encodings|, encodings, payload)
    requires |encodings| >= 2 && remaining == 32 - SumOf(encodings)
    ensures RowsEncoded(input, words', r + |encodings| - 1)
  {
    var slice := |encodings| - 1;
    var kept := encodings[..slice];
    assert encodings == kept + [encodings[slice]];
    SumSnoc(kept, encodings[slice]);
    FieldWidthsSnoc(input, r, 0, slice);
    assert kept == FieldWidths(input, r, 0, slice);
    var packed := RemoveRow(input, r, slice, payload, (32 - remaining) - encodings[slice]);
    // the last width, spare bits included, is added to the one before it
    var selector := SelectPadded(input, r, slice, kept, packed, encodings[slice] + remaining);
    words' := words + [CodeWord(selector, packed)];
    WordAdded(input, words, r, slice, kept, CodeWord(selector, packed));
  }

  /** Encodes into a buffer of `capacity` 32-bit words. The room for the variable bytes is measured in
      words, although the codes are bytes. */
  method Encode(input: seq<nat>, capacity: nat) returns (ok: bool, words: seq<CodeWord>, tail: seq<nat>)
    requires Words32(input)
    ensures ok <==> 17 * WordsBefore(input, 0) + 19 <= capacity
    ensures ok ==> IsEncoding(input, capacity, words, tail)
  {
    ok, words, tail := false, [], [];
    var r := 0;
    NoWords(input);
    while true
      invariant r < Rows(|input|) && RowsEncoded(input, words, r) && !ok
      invariant |words| + WordsBefore(input, r) == WordsBefore(input, 0) && LastWord(input, r) == LastWord(input, 0)
      decreases Rows(|input|) - r
    {
      var destination := 1 + 17 * |words|;
      if destination + 16 + 1 + 1 > capacity {
        return;
      }
      var payload, encodings, remaining, ended := FillWord(input, r);
      if ended {
        words, tail := EndWord(input, words, r, payload, encodings, remaining, capacity - destination);
        ok := true;
        return;
      }
      words := AppendWord(input, words, r, payload, encodings, remaining);
      r := r + |encodings|;
    }
  }

  /** A buffer with room to spare. */
  lemma {:induction false} AmpleIsLossless(input: seq<nat>, capacity: nat)
    requires Words32(input) && 17 * Rows(|input|) + 123 <= capacity
    ensures 17 * WordsBefore(input, 0) + 19 <= capacity && IsLossless(input, capacity)
  {
    TailIsShort(input, LastWord(input, 0));
  }

  lemma TailIsShort(input: seq<nat>, last: nat)
    requires Words32(input) && last < Rows(|input|)
    ensures |VByte.Codes(input[16 * TailFrom(input, last)..])| < 139
  {
    if |input| == 16 * Rows(|input|) {
      assert input[16 * Rows(|input|)..] == [];
    } else {
      ShortTails(input, last, Rows(|input|) - 1);
    }
  }

  lemma NoWords(input: seq<nat>)
    ensures RowsEncoded(input, [], 0)
  {
    forall l: nat | l < 16 ensures LaneAll([], l) == Column(input, 0, 0, l) {
    }
  }

  // ----- decoding

  ghost predicate LaneSoFar(words: seq<CodeWord>, stored: seq<seq<nat>>, selector: nat, payload: seq<nat>,
                            rest: seq<CodeWord>, l: nat)
    requires Lanes(words) && Lanes(rest) && AllRows(stored) && |payload| == 16 && l < 16
  {
    LaneOf(stored, l) + (Unpack(Widths(selector), payload[l]) + LaneAll(rest, l)) == LaneAll(words, l)
  }

  ghost predicate SoFar(words: seq<CodeWord>, stored: seq<seq<nat>>, selector: nat, payload: seq<nat>,
                        rest: seq<CodeWord>) {
    && Lanes(words) && Lanes(rest) && AllRows(stored) && |payload| == 16
    && forall l :: 0 <= l < 16 ==> LaneSoFar(words, stored, selector, payload, rest, l)
  }

  lemma WordLoaded(words: seq<CodeWord>, stored: seq<seq<nat>>, payload: seq<nat>, rest: seq<CodeWord>)
    requires SoFar(words, stored, 0, payload, rest) && rest != []
    ensures SoFar(words, stored, rest[0].selector, rest[0].payload, rest[1..])
  {
    forall l: nat | l < 16 ensures LaneSoFar(words, stored, rest[0].selector, rest[0].payload, rest[1..], l) {
      assert LaneSoFar(words, stored, 0, payload, rest, l);
      LaneCons(rest, l);
      assert Unpack(Widths(0), payload[l]) + LaneAll(rest, l) == LaneAll(rest, l);
    }
  }

  lemma RowStored(words: seq<CodeWord>, stored: seq<seq<nat>>, selector: nat, payload: seq<nat>, rest: seq<CodeWord>,
                  w: nat, stored': seq<seq<nat>>, selector': nat, payload': seq<nat>)
    requires SoFar(words, stored, selector, payload, rest) && selector > 0 && w == FirstSet(selector)
    requires stored' == stored + [Mask(payload, w)] && selector' == Shr(selector, w)
             && payload' == ShiftRight(payload, w)
    ensures SoFar(words, stored', selector', payload', rest)
  {
    assert Widths(selector) == [w] + Widths(selector');
    forall l: nat | l < 16 ensures LaneSoFar(words, stored', selector', payload', rest, l) {
      assert LaneSoFar(words, stored, selector, payload, rest, l);
      FirstField(Widths(selector), w, Widths(selector'), payload[l]);
      LaneSnoc(stored, Mask(payload, w), l);
      StoredOne(LaneOf(stored, l), Low(payload[l], w), Unpack(Widths(selector'), payload'[l]), LaneAll(rest, l));
    }
  }

  lemma StoredOne(stored: seq<nat>, v: nat, left: seq<nat>, rest: seq<nat>)
    ensures stored + (([v] + left) + rest) == (stored + [v]) + (left + rest)
  {
  }

  method Decode(words: seq<CodeWord>, tail: seq<nat>, ghost input: seq<nat>, ghost capacity: nat)
    returns (decoded: seq<nat>)
    requires IsEncoding(input, capacity, words, tail)
    ensures decoded == input <==> IsLossless(input, capacity)
  {
    decoded := DecodeRows(words, tail, input, TailStart(input), Room(input, capacity));
  }

  /** Words while there are any, each until its selector is used up; then the variable bytes. */
  method DecodeRows(words: seq<CodeWord>, tail: seq<nat>, ghost input: seq<nat>, ghost rows: nat, ghost room: nat)
    returns (decoded: seq<nat>)
    requires Words32(input) && RowsEncoded(input, words, rows) && IsTail(input, rows, room, tail)
    ensures decoded == input <==> |VByte.Codes(input[16 * rows..])| <= room
  {
    var stored: seq<seq<nat>>, selector: nat, payload: seq<nat>, source: nat := [], 0, seq(16, i => 0), 0;
    ghost var rest := words;
    Nothing(words, payload);
    while true
      invariant source <= |words| && rest == words[source..] && SoFar(words, stored, selector, payload, rest)
      decreases |words| - source, selector
    {
      if selector == 0 {
        if source >= |words| {
          break;
        }
        WordLoaded(words, stored, payload, rest);
        FullIsSelected(words[source]);
        selector, payload := words[source].selector, words[source].payload;
        source, rest := source + 1, rest[1..];
      }
      var width := FirstSet(selector);
      ghost var stored', selector', payload' := stored, selector, payload;
      stored := stored + [Mask(payload, width)];
      payload := ShiftRight(payload, width);
      selector := Shr(selector, width);
      RowStored(words, stored', selector', payload', rest, width, stored, selector, payload);
    }
    RowsStored(input, words, stored, payload, rows);
    decoded := Flat(stored);
    ghost var left := input[16 * rows..];
    assert input == input[..16 * rows] + left;
    if |tail| != 0 {
      var values := VByte.StaticDecode(tail, left);
      decoded := decoded + values;
    } else {
      NothingLeft(input, rows);
    }
  }

  lemma Nothing(words: seq<CodeWord>, payload: seq<nat>)
    requires Lanes(words) && |payload| == 16
    ensures SoFar(words, [], 0, payload, words)
  {
    forall l: nat | l < 16 ensures LaneSoFar(words, [], 0, payload, words, l) {
      assert LaneOf([], l) + (Unpack(Widths(0), payload[l]) + LaneAll(words, l)) == LaneAll(words, l);
    }
  }

  lemma FullIsSelected(w: CodeWord)
    requires SumOf(Widths(w.selector)) == 32
    ensures w.selector > 0
  {
  }

  lemma RowsStored(input: seq<nat>, words: seq<CodeWord>, stored: seq<seq<nat>>, payload: seq<nat>, rows: nat)
    requires RowsEncoded(input, words, rows) && SoFar(words, stored, 0, payload, []) && 16 * rows <= |input|
    ensures Flat(stored) == input[..16 * rows]
  {
    forall l: nat | l < 16 ensures LaneOf(stored, l) == Column(input, 0, rows, l) {
      assert LaneSoFar(words, stored, 0, payload, [], l);
      assert Unpack(Widths(0), payload[l]) + LaneAll([], l) == [];
    }
    assert |LaneOf(stored, 0)| == rows;
    forall i: nat | i < 16 * rows ensures Flat(stored)[i] == input[i] {
      FlatAt(stored, i / 16, i % 16);
      assert LaneOf(stored, i % 16)[i / 16] == Cell(input, i / 16, i % 16);
    }
  }

  lemma NothingLeft(input: seq<nat>, rows: nat)
    requires 16 * rows <= |input|
    ensures input[..16 * rows] == input <==> |VByte.Codes(input[16 * rows..])| == 0
  {
    var left := input[16 * rows..];
    if left != [] {
      assert |VByte.Codes(left)| >= |VByte.Code(left[0])|;
    }
  }

  lemma {:induction false} SizeOfCopies(n: nat, v: nat)
    ensures |VByte.Codes(seq(n, i => v))| == n * VByte.Needed(v)
  {
    if n > 0 {
      SizeOfCopies(n - 1, v);
      assert seq(n, i => v)[1..] == seq(n - 1, i => v);
    }
  }

  /** Fifteen integers of four bytes: 60 bytes, for which a buffer of 19 words has 72 bytes left, but
      since the room is taken to be 18 bytes they are lost. */
  lemma TightBufferLosesTail()
    ensures var input := seq<nat>(15, i => 0x20_0000);
            && Words32(input) && 17 * WordsBefore(input, 0) + 19 <= 19 && TailStart(input) == 0
            && |VByte.Codes(input)| == 60 && !IsLossless(input, 19)
  {
    var input := seq<nat>(15, i => 0x20_0000);
    TwoTo32();
    assert Pow2(21) == 0x20_0000;
    Pow2Grows(22, 28);
    VByte.NeededIs(0x20_0000, 4);
    SizeOfCopies(15, 0x20_0000);
    assert input[0..] == input;
  }
}
