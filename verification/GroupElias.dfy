/** The payload packing that the Group Elias Gamma and Group Elias Delta codecs share: rows of 16
    integers, one per 32-bit lane, each row as wide as its widest integer. A row that does not fit
    in what is left of a word leaves its high bits there and starts the next word with its low bits. */
module GroupElias {
  import opened Bits
  import opened Simd

  /** The integer of row r in lane l; the last row is padded with zeros. */
  function Cell(input: seq<nat>, r: nat, l: nat): nat {
    if 16 * r + l < |input| then input[16 * r + l] else 0
  }

  /** There is one row even for no integers. */
  function Rows(n: nat): nat {
    if n == 0 then 1 else (n + 15) / 16
  }

  /** The integers of lane l in rows [from, to). */
  function Column(input: seq<nat>, from: nat, to: nat, l: nat): (r: seq<nat>)
    requires from <= to
    ensures |r| == to - from
  {
    seq<nat>(to - from, i requires 0 <= i => Cell(input, from + i, l))
  }

  lemma ColumnJoin(input: seq<nat>, r: nat, m: nat, l: nat)
    ensures Column(input, 0, r + m, l) == Column(input, 0, r, l) + Column(input, r, r + m, l)
  {
  }

  /** Registers whose lanes are the columns of the input hold the input, padded with zeroes. */
  lemma ColumnsAreInput(input: seq<nat>, rows: seq<seq<nat>>)
    requires AllRows(rows) && forall l :: 0 <= l < 16 ==> LaneOf(rows, l) == Column(input, 0, Rows(|input|), l)
    ensures |input| <= |Flat(rows)| && Flat(rows)[..|input|] == input
    ensures forall i :: |input| <= i < |Flat(rows)| ==> Flat(rows)[i] == 0
  {
    assert |LaneOf(rows, 0)| == Rows(|input|);
    forall i: nat | i < |Flat(rows)| ensures Flat(rows)[i] == if i < |input| then input[i] else 0 {
      var r, l := i / 16, i % 16;
      FlatAt(rows, r, l);
      assert LaneOf(rows, l)[r] == Cell(input, r, l);
    }
  }

  function RowWidthTo(input: seq<nat>, r: nat, m: nat): nat {
    if m == 0 then 0 else Max(RowWidthTo(input, r, m - 1), Max(BitLength(Cell(input, r, m - 1)), 1))
  }

  /** The width of the widest integer of the row, at least 1. */
  function RowWidth(input: seq<nat>, r: nat): nat {
    RowWidthTo(input, r, 16)
  }

  lemma {:induction false} RowWidthBounds(input: seq<nat>, r: nat, m: nat, l: nat)
    requires Words32(input)
    ensures RowWidthTo(input, r, m) <= 32
    ensures l < m ==> 1 <= RowWidthTo(input, r, m) && Cell(input, r, l) < Pow2(RowWidthTo(input, r, m))
  {
    if m > 0 {
      RowWidthBounds(input, r, m - 1, l);
      var v, before, width := Cell(input, r, m - 1), RowWidthTo(input, r, m - 1), RowWidthTo(input, r, m);
      CellIsWord(input, r, m - 1);
      OneMoreCell(v, before, width);
      if l < m - 1 {
        Pow2Grows(before, width);
      }
    }
  }

  lemma CellIsWord(input: seq<nat>, r: nat, l: nat)
    requires Words32(input)
    ensures Cell(input, r, l) < Pow2(32)
  {
    if 16 * r + l >= |input| {
      Pow2Grows(0, 32);
    }
  }

  lemma OneMoreCell(v: nat, before: nat, width: nat)
    requires v < Pow2(32) && before <= 32 && width == Max(before, Max(BitLength(v), 1))
    ensures before <= width <= 32 && 1 <= width && v < Pow2(width)
  {
    BitLengthAtMost(v, 32);
    BitLengthFits(v);
    Pow2Grows(BitLength(v), width);
  }

  /** A width holds the row if and only if every integer of the row fits in it. */
  lemma RowWidthIs(input: seq<nat>, r: nat, w: nat)
    requires w >= 1
    ensures RowWidth(input, r) <= w <==> forall l :: 0 <= l < 16 ==> Cell(input, r, l) < Pow2(w)
  {
    RowWidthToIs(input, r, 16, w);
  }

  lemma {:induction false} RowWidthToIs(input: seq<nat>, r: nat, m: nat, w: nat)
    requires w >= 1
    ensures RowWidthTo(input, r, m) <= w <==> forall l :: 0 <= l < m ==> Cell(input, r, l) < Pow2(w)
  {
    if m > 0 {
      RowWidthToIs(input, r, m - 1, w);
      BitLengthIs(Cell(input, r, m - 1), w);
    }
  }

  lemma CellFits(input: seq<nat>, r: nat, l: nat)
    requires Words32(input) && l < 16
    ensures 1 <= RowWidth(input, r) <= 32 && Cell(input, r, l) < Pow2(RowWidth(input, r))
  {
    RowWidthBounds(input, r, 16, l);
  }

  /** The fields of one word: the rest of row r0, of which `carry` high bits are in the word before,
      and whole rows after it. */
  function FieldWidth(input: seq<nat>, r0: nat, carry: nat, j: nat): nat
    requires carry <= RowWidth(input, r0)
  {
    if j == 0 then RowWidth(input, r0) - carry else RowWidth(input, r0 + j)
  }

  function Field(input: seq<nat>, r0: nat, carry: nat, j: nat, l: nat): nat
    requires carry <= RowWidth(input, r0)
  {
    if j == 0 then Low(Cell(input, r0, l), RowWidth(input, r0) - carry) else Cell(input, r0 + j, l)
  }

  function FieldWidths(input: seq<nat>, r0: nat, carry: nat, m: nat): (r: seq<nat>)
    requires carry <= RowWidth(input, r0)
    ensures |r| == m
  {
    seq(m, j requires 0 <= j => FieldWidth(input, r0, carry, j))
  }

  function Fields(input: seq<nat>, r0: nat, carry: nat, m: nat, l: nat): (r: seq<nat>)
    requires carry <= RowWidth(input, r0)
    ensures |r| == m
  {
    seq(m, j requires 0 <= j => Field(input, r0, carry, j, l))
  }

  /** The high bits that the row after the fields leaves in this word. */
  function HighBits(input: seq<nat>, r: nat, carry: nat, l: nat): nat
    requires carry <= RowWidth(input, r)
  {
    if carry == 0 then 0 else Shr(Cell(input, r, l), RowWidth(input, r) - carry)
  }

  lemma FieldsAreFit(input: seq<nat>, r0: nat, carry: nat, m: nat, l: nat)
    requires Words32(input) && l < 16 && carry <= RowWidth(input, r0)
    ensures FieldsFit(FieldWidths(input, r0, carry, m), Fields(input, r0, carry, m, l))
  {
    forall j: nat | j < m
      ensures Fields(input, r0, carry, m, l)[j] < Pow2(FieldWidths(input, r0, carry, m)[j])
    {
      FieldFits(input, r0, carry, j, l);
    }
  }

  lemma FieldFits(input: seq<nat>, r0: nat, carry: nat, j: nat, l: nat)
    requires Words32(input) && l < 16 && carry <= RowWidth(input, r0)
    ensures Field(input, r0, carry, j, l) < Pow2(FieldWidth(input, r0, carry, j))
  {
    CellFits(input, r0 + j, l);
  }

  lemma HighBitsFit(input: seq<nat>, r: nat, carry: nat, l: nat)
    requires Words32(input) && l < 16 && carry <= RowWidth(input, r)
    ensures HighBits(input, r, carry, l) < Pow2(carry)
  {
    CellFits(input, r, l);
    if carry > 0 {
      ShrFits(Cell(input, r, l), carry, RowWidth(input, r) - carry);
    }
  }

  /** What one packed word holds in lane l. */
  function PackedLane(input: seq<nat>, r0: nat, carry: nat, m: nat, carryOut: nat, l: nat): nat
    requires carry <= RowWidth(input, r0)
    requires carryOut <= RowWidth(input, r0 + m)
  {
    Pack(FieldWidths(input, r0, carry, m), Fields(input, r0, carry, m, l), HighBits(input, r0 + m, carryOut, l))
  }

  /** The bits that the scan of a row puts into lane l: shifted above what is there or, if the row
      began in the word before, its low bits only. */
  function Placed(value: nat, carryover: nat, actualMaxWidth: nat, cumulativeShift: nat): nat
    requires carryover <= actualMaxWidth
  {
    if carryover == 0 then Low(Shl(value, cumulativeShift), 32) else Low(value, actualMaxWidth - carryover)
  }

  /** One row's integers OR-ed into the lanes; the row's width is found on the way. */
  method ScanRow(input: seq<nat>, row: nat, carryover: nat, actualMaxWidth: nat, cumulativeShift: nat,
                 payload: seq<nat>)
    returns (packed: seq<nat>, maxWidth: nat, overflow: bool, encoded: nat)
    requires |payload| == 16 && carryover <= actualMaxWidth
    ensures |packed| == 16 && maxWidth == RowWidth(input, row)
    ensures forall l :: 0 <= l < 16 ==>
              packed[l] == Or(payload[l], Placed(Cell(input, row, l), carryover, actualMaxWidth, cumulativeShift))
    ensures overflow <==> 16 * row + 16 > |input|
    ensures encoded == Encoded(|input|, row, 16)
  {
    packed, maxWidth, overflow, encoded := payload, 0, false, 0;
    var word := 0;
    while word < 16
      invariant word <= 16 && |packed| == 16 && maxWidth == RowWidthTo(input, row, word)
      invariant forall l :: 0 <= l < word ==>
                  packed[l] == Or(payload[l], Placed(Cell(input, row, l), carryover, actualMaxWidth, cumulativeShift))
      invariant forall l :: word <= l < 16 ==> packed[l] == payload[l]
      invariant overflow <==> word > 0 && 16 * row + word > |input|
      invariant encoded == Encoded(|input|, row, word)
    {
      var index := 16 * row + word;
      var value := 0;
      if index < |input| {
        encoded := encoded + 1;
        value := input[index];
      } else {
        overflow := true;
      }
      maxWidth := Max(maxWidth, Max(BitLength(value), 1));
      packed := packed[word := Or(packed[word], Placed(value, carryover, actualMaxWidth, cumulativeShift))];
      word := word + 1;
    }
  }

  /** How many of the first m integers of a row there are. */
  function Encoded(n: nat, row: nat, m: nat): nat {
    if 16 * row >= n then 0 else if n - 16 * row < m then n - 16 * row else m
  }

  // ----- one word

  lemma FieldWidthsSnoc(input: seq<nat>, r0: nat, carry: nat, m: nat)
    requires carry <= RowWidth(input, r0)
    ensures FieldWidths(input, r0, carry, m + 1) == FieldWidths(input, r0, carry, m) + [FieldWidth(input, r0, carry, m)]
    ensures SumOf(FieldWidths(input, r0, carry, m + 1))
         == SumOf(FieldWidths(input, r0, carry, m)) + FieldWidth(input, r0, carry, m)
  {
    SumSnoc(FieldWidths(input, r0, carry, m), FieldWidth(input, r0, carry, m));
  }

  /** OR-ing in a value that fits makes it the next field. */
  lemma OrField(ws: seq<nat>, vs: seq<nat>, w: nat, v: nat)
    requires FieldsFit(ws, vs) && v < Pow2(w) && SumOf(ws) + w <= 32
    ensures Or(Pack(ws, vs, 0), Low(Shl(v, SumOf(ws)), 32)) == Pack(ws + [w], vs + [v], 0)
  {
    PackOneMore(ws, vs, w, v);
    Pow2Grows(w, 32 - SumOf(ws));
    OrHigh(ws, vs, v);
  }

  /** A row that fits becomes the next field of every lane. */
  lemma RowFits(input: seq<nat>, r0: nat, carry: nat, m: nat, l: nat)
    requires Words32(input) && l < 16 && carry <= RowWidth(input, r0) && m >= 1
    requires SumOf(FieldWidths(input, r0, carry, m)) + RowWidth(input, r0 + m) <= 32
    ensures Or(PackedLane(input, r0, carry, m, 0, l),
               Low(Shl(Cell(input, r0 + m, l), SumOf(FieldWidths(input, r0, carry, m))), 32))
         == PackedLane(input, r0, carry, m + 1, 0, l)
  {
    var ws, vs := FieldWidths(input, r0, carry, m), Fields(input, r0, carry, m, l);
    FieldWidthsSnoc(input, r0, carry, m);
    FieldsAreFit(input, r0, carry, m, l);
    FieldFits(input, r0, carry, m, l);
    assert Fields(input, r0, carry, m + 1, l) == vs + [Field(input, r0, carry, m, l)];
    OrField(ws, vs, RowWidth(input, r0 + m), Cell(input, r0 + m, l));
  }

  /** The word's first row, whole or what is left of it. */
  lemma FirstRow(input: seq<nat>, r0: nat, carry: nat, l: nat)
    requires Words32(input) && l < 16 && carry <= RowWidth(input, r0)
    ensures Or(0, Placed(Cell(input, r0, l), carry, RowWidth(input, r0), 0)) == PackedLane(input, r0, carry, 1, 0, l)
  {
    var v, w := Cell(input, r0, l), RowWidth(input, r0);
    CellFits(input, r0, l);
    FirstPlaced(v, w, carry);
    OneField(FieldWidths(input, r0, carry, 1), Fields(input, r0, carry, 1, l), w - carry, Low(v, w - carry));
  }

  lemma FirstPlaced(v: nat, w: nat, carry: nat)
    requires v < Pow2(w) && w <= 32 && carry <= w
    ensures Or(0, Placed(v, carry, w, 0)) == Low(v, w - carry)
  {
    LowSmall(v, w);
    Pow2Grows(w, 32);
    LowSmall(v, 32);
  }

  lemma OneField(ws: seq<nat>, vs: seq<nat>, w: nat, v: nat)
    requires ws == [w] && vs == [v]
    ensures Pack(ws, vs, 0) == v
  {
    ShlZero(w);
  }

  /** What is written of a row that does not fit: the overflowing attempt is masked off again and the
      row's `remaining` high bits take its place. */
  function Spilled(packed: nat, value: nat, actualMaxWidth: nat, remaining: nat): nat
    requires remaining <= 32 && remaining <= actualMaxWidth
  {
    Or(Low(packed, 32 - remaining), Low(Shl(Shr(value, actualMaxWidth - remaining), 32 - remaining), 32))
  }

  lemma RowSpills(input: seq<nat>, r0: nat, carry: nat, m: nat, l: nat)
    requires Words32(input) && l < 16 && carry <= RowWidth(input, r0) && m >= 1
    requires SumOf(FieldWidths(input, r0, carry, m)) < 32
    requires SumOf(FieldWidths(input, r0, carry, m)) + RowWidth(input, r0 + m) > 32
    ensures var sum := SumOf(FieldWidths(input, r0, carry, m));
            var v := Cell(input, r0 + m, l);
            Spilled(Or(PackedLane(input, r0, carry, m, 0, l), Low(Shl(v, sum), 32)), v, RowWidth(input, r0 + m),
                    32 - sum)
            == PackedLane(input, r0, carry, m, 32 - sum, l)
  {
    var ws, vs := FieldWidths(input, r0, carry, m), Fields(input, r0, carry, m, l);
    var remaining := 32 - SumOf(ws);
    FieldsAreFit(input, r0, carry, m, l);
    HighBitsFit(input, r0 + m, remaining, l);
    SpilledLane(ws, vs, Cell(input, r0 + m, l), RowWidth(input, r0 + m), remaining,
                HighBits(input, r0 + m, remaining, l));
  }

  lemma SpilledLane(ws: seq<nat>, vs: seq<nat>, v: nat, width: nat, remaining: nat, high: nat)
    requires FieldsFit(ws, vs) && SumOf(ws) + remaining == 32 && remaining <= width
    requires high == Shr(v, width - remaining) < Pow2(remaining)
    ensures Spilled(Or(Pack(ws, vs, 0), Low(Shl(v, SumOf(ws)), 32)), v, width, remaining) == Pack(ws, vs, high)
  {
    MaskOff(ws, vs, v);
    OrHigh(ws, vs, high);
  }

  lemma MaskOff(ws: seq<nat>, vs: seq<nat>, v: nat)
    requires FieldsFit(ws, vs) && SumOf(ws) <= 32
    ensures Low(Or(Pack(ws, vs, 0), Low(Shl(v, SumOf(ws)), 32)), SumOf(ws)) == Pack(ws, vs, 0)
  {
    var lane, sum := Pack(ws, vs, 0), SumOf(ws);
    PackFits(ws, vs, 0, 0);
    LowOr(lane, Low(Shl(v, sum), 32), sum);
    LowLow(Shl(v, sum), sum, 32);
    LowOfShl(v, sum, sum);
    LowSmall(lane, sum);
    OrZero(lane);
  }

  lemma OrHigh(ws: seq<nat>, vs: seq<nat>, top: nat)
    requires FieldsFit(ws, vs) && SumOf(ws) <= 32 && top < Pow2(32 - SumOf(ws))
    ensures Or(Pack(ws, vs, 0), Low(Shl(top, SumOf(ws)), 32)) == Pack(ws, vs, top)
  {
    ShlFits(top, 32 - SumOf(ws), SumOf(ws));
    LowSmall(Shl(top, SumOf(ws)), 32);
    OrOnTop(ws, vs, top);
  }

  /** The row does not fit, so its high bits take what is left of the word. */
  method SpillRow(input: seq<nat>, row: nat, actualMaxWidth: nat, remaining: nat, payload: seq<nat>)
    returns (spilled: seq<nat>)
    requires |payload| == 16 && remaining <= 32 && remaining <= actualMaxWidth
    ensures |spilled| == 16
    ensures forall l :: 0 <= l < 16 ==>
            spilled[l] == Spilled(payload[l], Cell(input, row, l), actualMaxWidth, remaining)
  {
    spilled := payload;
    var word := 0;
    while word < 16
      invariant word <= 16 && |spilled| == 16
      invariant forall l :: 0 <= l < word ==>
                spilled[l] == Spilled(payload[l], Cell(input, row, l), actualMaxWidth, remaining)
      invariant forall l :: word <= l < 16 ==> spilled[l] == payload[l]
    {
      var index := 16 * row + word;
      var value := if index < |input| then input[index] else 0;
      spilled := spilled[word := Low(spilled[word], 32 - remaining)];
      var shift := actualMaxWidth - remaining;
      spilled := spilled[word := Or(spilled[word], Low(Shl(Shr(value, shift), 32 - remaining), 32))];
      word := word + 1;
    }
  }

  /** Where a word that starts at row r0 with `carry` bits already written ends: after `m` fields, with
      `out` bits of the row that follows them. */
  ghost predicate WordEnds(input: seq<nat>, r0: nat, carry: nat, m: nat, out: nat) {
    && carry <= RowWidth(input, r0) && 1 <= m <= 32
    && out < RowWidth(input, r0 + m)
    && r0 + m <= Rows(|input|)
    && (out > 0 ==> r0 + m < Rows(|input|))
    && SumOf(FieldWidths(input, r0, carry, m)) + out <= 32
    && (SumOf(FieldWidths(input, r0, carry, m)) + out == 32 || r0 + m == Rows(|input|))
  }

  /** The scan of row r0 + m on top of the m fields before it. */
  method PackRow(input: seq<nat>, r0: nat, carry: nat, m: nat, carryover: nat, actualMaxWidth: nat,
                 cumulativeShift: nat, payload: seq<nat>)
    returns (packed: seq<nat>, maxWidth: nat, overflow: bool, encoded: nat)
    requires Words32(input) && carry < RowWidth(input, r0) && |payload| == 16
    requires carryover == (if m == 0 then carry else 0) <= actualMaxWidth
    requires carryover > 0 ==> actualMaxWidth == RowWidth(input, r0)
    requires cumulativeShift == SumOf(FieldWidths(input, r0, carry, m)) < 32
    requires forall l :: 0 <= l < 16 ==> payload[l] == PackedLane(input, r0, carry, m, 0, l)
    ensures |packed| == 16 && maxWidth == RowWidth(input, r0 + m)
    ensures overflow <==> 16 * (r0 + m) + 16 > |input|
    ensures encoded == Encoded(|input|, r0 + m, 16)
    ensures cumulativeShift + FieldWidth(input, r0, carry, m) <= 32 ==>
              forall l :: 0 <= l < 16 ==> packed[l] == PackedLane(input, r0, carry, m + 1, 0, l)
    ensures m >= 1 ==> forall l :: 0 <= l < 16 ==>
              packed[l] == Or(PackedLane(input, r0, carry, m, 0, l),
                              Low(Shl(Cell(input, r0 + m, l), cumulativeShift), 32))
  {
    packed, maxWidth, overflow, encoded := ScanRow(input, r0 + m, carryover, actualMaxWidth, cumulativeShift, payload);
    if cumulativeShift + FieldWidth(input, r0, carry, m) <= 32 {
      forall l: nat | l < 16 ensures packed[l] == PackedLane(input, r0, carry, m + 1, 0, l) {
        if m == 0 {
          FirstRow(input, r0, carry, l);
        } else {
          RowFits(input, r0, carry, m, l);
        }
      }
    }
  }

  /** The scan went past the end of the input, or to it, exactly in the last row. */
  lemma LastRow(n: nat, r: nat)
    requires r < Rows(n)
    ensures r + 1 == Rows(n) <==> 16 * r + 16 > n || 16 * (r + 1) >= n
    ensures Encoded(n, r, 16) == if r + 1 == Rows(n) then n - 16 * r else 16
  {
  }

  /** Row r0 + m does not fit on top of the m fields: it leaves its high bits. */
  method SpillOnTop(input: seq<nat>, r0: nat, carry: nat, m: nat, remaining: nat, payload: seq<nat>)
    returns (spilled: seq<nat>)
    requires Words32(input) && carry < RowWidth(input, r0) && |payload| == 16 && m >= 1
    requires remaining == 32 - SumOf(FieldWidths(input, r0, carry, m)) && 0 < remaining < RowWidth(input, r0 + m)
    requires forall l :: 0 <= l < 16 ==>
               payload[l] == Or(PackedLane(input, r0, carry, m, 0, l),
                                Low(Shl(Cell(input, r0 + m, l), 32 - remaining), 32))
    ensures |spilled| == 16
    ensures forall l :: 0 <= l < 16 ==> spilled[l] == PackedLane(input, r0, carry, m, remaining, l)
  {
    CellFits(input, r0 + m, 0);
    spilled := SpillRow(input, r0 + m, RowWidth(input, r0 + m), remaining, payload);
    forall l: nat | l < 16 ensures spilled[l] == PackedLane(input, r0, carry, m, remaining, l) {
      RowSpills(input, r0, carry, m, l);
    }
  }

  /** A word under construction: m fields, room left, and more rows to come. */
  ghost predicate Filling(input: seq<nat>, r0: nat, carry: nat, m: nat, payload: seq<nat>, encodings: seq<nat>) {
    && carry < RowWidth(input, r0) && |payload| == 16 && r0 + m < Rows(|input|)
    && encodings == FieldWidths(input, r0, carry, m) && m <= SumOf(encodings) < 32
    && forall l :: 0 <= l < 16 ==> payload[l] == PackedLane(input, r0, carry, m, 0, l)
  }

  lemma EmptyWord(input: seq<nat>, r0: nat, carry: nat, payload: seq<nat>)
    requires carry < RowWidth(input, r0) && r0 < Rows(|input|) && payload == seq(16, i => 0)
    ensures Filling(input, r0, carry, 0, payload, [])
  {
  }

  /** A finished word and what the next one needs to know. */
  ghost predicate PackedWord(input: seq<nat>, r0: nat, carry: nat, payload: seq<nat>, encodings: seq<nat>,
                             integersEncoded: nat, carryover: nat, actualMaxWidth: nat) {
    && carry < RowWidth(input, r0) && |payload| == 16 && WordEnds(input, r0, carry, |encodings|, carryover)
    && encodings == FieldWidths(input, r0, carry, |encodings|)
    && (forall l :: 0 <= l < 16 ==> payload[l] == PackedLane(input, r0, carry, |encodings|, carryover, l))
    && (carryover > 0 ==> actualMaxWidth == RowWidth(input, r0 + |encodings|))
    && integersEncoded == if r0 + |encodings| == Rows(|input|) then |input| - 16 * r0 else 16 * |encodings|
  }

  lemma SliceAdded(input: seq<nat>, r0: nat, carry: nat, m: nat, encodings: seq<nat>, packed: seq<nat>, width: nat,
                   actualMaxWidth: nat, more: seq<nat>, encoded: nat)
    requires Words32(input) && carry < RowWidth(input, r0) && |packed| == 16 && r0 + m < Rows(|input|)
    requires encodings == FieldWidths(input, r0, carry, m) && m <= SumOf(encodings)
    requires width == FieldWidth(input, r0, carry, m) && SumOf(encodings) + width <= 32
    requires forall l :: 0 <= l < 16 ==> packed[l] == PackedLane(input, r0, carry, m + 1, 0, l)
    requires more == encodings + [width] && encoded == 16 * m + Encoded(|input|, r0 + m, 16)
    ensures SumOf(more) == SumOf(encodings) + width && width >= 1
    ensures SumOf(more) == 32 || 16 * (r0 + m + 1) >= |input| ==>
              PackedWord(input, r0, carry, packed, more, encoded, 0, actualMaxWidth)
    ensures SumOf(more) < 32 && 16 * (r0 + m + 1) < |input| ==> Filling(input, r0, carry, m + 1, packed, more)
  {
    var next := m + 1;
    WidthsGrow(input, r0, carry, m, encodings, width, more);
    LastRow(|input|, r0 + m);
    CellFits(input, r0 + next, 0);
    if SumOf(more) == 32 || 16 * (r0 + next) >= |input| {
      assert WordEnds(input, r0, carry, next, 0);
    }
  }

  lemma WidthsGrow(input: seq<nat>, r0: nat, carry: nat, m: nat, encodings: seq<nat>, width: nat, more: seq<nat>)
    requires Words32(input) && carry < RowWidth(input, r0) && encodings == FieldWidths(input, r0, carry, m)
    requires width == FieldWidth(input, r0, carry, m) && more == encodings + [width]
    ensures more == FieldWidths(input, r0, carry, m + 1) && SumOf(more) == SumOf(encodings) + width && width >= 1
  {
    CellFits(input, r0 + m, 0);
    FieldWidthsSnoc(input, r0, carry, m);
  }

  lemma SliceSpilled(input: seq<nat>, r0: nat, carry: nat, m: nat, encodings: seq<nat>, spilled: seq<nat>,
                     remaining: nat)
    requires Words32(input) && carry < RowWidth(input, r0) && |spilled| == 16 && r0 + m < Rows(|input|) && m >= 1
    requires encodings == FieldWidths(input, r0, carry, m) && m <= SumOf(encodings) < 32
    requires remaining == 32 - SumOf(encodings) < RowWidth(input, r0 + m)
    requires forall l :: 0 <= l < 16 ==> spilled[l] == PackedLane(input, r0, carry, m, remaining, l)
    ensures PackedWord(input, r0, carry, spilled, encodings, 16 * m, remaining, RowWidth(input, r0 + m))
  {
  }

  /** One turn of the slice loop: the row is added, or it ends the word. */
  method NextSlice(input: seq<nat>, r0: nat, carry: nat, slice: nat, carryover: nat, actualMaxWidth: nat,
                   payload: seq<nat>, encodings: seq<nat>, remaining: nat)
    returns (payload': seq<nat>, encodings': seq<nat>, integersEncoded: nat, carryover': nat, actualMaxWidth': nat,
             remaining': nat, done: bool)
    requires Words32(input) && Filling(input, r0, carry, slice, payload, encodings)
    requires remaining == 32 - SumOf(encodings)
    requires carryover == (if slice == 0 then carry else 0) <= actualMaxWidth
    requires carryover > 0 ==> actualMaxWidth == RowWidth(input, r0)
    ensures done ==> PackedWord(input, r0, carry, payload', encodings', integersEncoded, carryover', actualMaxWidth')
    ensures !done ==> Filling(input, r0, carry, slice + 1, payload', encodings')
    ensures !done ==> carryover' == 0 && remaining' == 32 - SumOf(encodings') < remaining
    ensures actualMaxWidth' == RowWidth(input, r0 + slice)
    ensures done ==> |encodings'| == if carryover' > 0 then slice else slice + 1
  {
    var maxWidth, overflow, encoded;
    payload', maxWidth, overflow, encoded :=
      PackRow(input, r0, carry, slice, carryover, actualMaxWidth, 32 - remaining, payload);
    CellFits(input, r0 + slice, 0);
    integersEncoded := 16 * slice + encoded;
    actualMaxWidth' := maxWidth;
    maxWidth := maxWidth - carryover;
    carryover', remaining' := 0, remaining;
    if maxWidth > remaining {
      integersEncoded := 16 * slice;
      payload' := SpillOnTop(input, r0, carry, slice, remaining, payload');
      SliceSpilled(input, r0, carry, slice, encodings, payload', remaining);
      carryover', encodings', done := remaining, encodings, true;
    } else {
      encodings' := encodings + [maxWidth];
      SliceAdded(input, r0, carry, slice, encodings, payload', maxWidth, actualMaxWidth', encodings', integersEncoded);
      done := maxWidth == remaining || overflow || 16 * (r0 + slice + 1) >= |input|;
      remaining' := remaining - maxWidth;
    }
  }

  /** Packs rows into one word from row r0 on. */
  method PackWord(input: seq<nat>, r0: nat, carry: nat, rowWidth: nat)
    returns (payload: seq<nat>, encodings: seq<nat>, integersEncoded: nat, carryover: nat, actualMaxWidth: nat)
    requires Words32(input) && r0 < Rows(|input|) && carry < RowWidth(input, r0)
    requires carry > 0 ==> rowWidth == RowWidth(input, r0)
    ensures PackedWord(input, r0, carry, payload, encodings, integersEncoded, carryover, actualMaxWidth)
  {
    payload := seq(16, i => 0);
    encodings, integersEncoded := [], 0;
    carryover, actualMaxWidth := carry, if carry > 0 then rowWidth else 0;
    var slice, remaining := 0, 32;
    while true
      invariant Filling(input, r0, carry, slice, payload, encodings) && 0 < remaining == 32 - SumOf(encodings)
      invariant carryover == (if slice == 0 then carry else 0) <= actualMaxWidth
      invariant carryover > 0 ==> actualMaxWidth == RowWidth(input, r0)
      decreases remaining
    {
      var done;
      payload, encodings, integersEncoded, carryover, actualMaxWidth, remaining, done :=
        NextSlice(input, r0, carry, slice, carryover, actualMaxWidth, payload, encodings, remaining);
      if done {
        return;
      }
      slice := slice + 1;
    }
  }
}
