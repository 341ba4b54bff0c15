/** The payload of a whole sequence: which rows each packed word holds, that this is determined by
    the sequence alone, and how a row is read back from it. */
module Payload {
  import opened Bits
  import opened GroupElias

  /** Where a word starts: at a row of which `carry` high bits are in the word before. */
  datatype Mark = Mark(row: nat, carry: nat)

  ghost predicate IsWord(input: seq<nat>, start: Mark, end: Mark, payload: seq<nat>) {
    && |payload| == 16 && start.row < end.row && start.carry < RowWidth(input, start.row)
    && WordEnds(input, start.row, start.carry, end.row - start.row, end.carry)
    && forall l :: 0 <= l < 16 ==>
         payload[l] == PackedLane(input, start.row, start.carry, end.row - start.row, end.carry, l)
  }

  /** The words hold the rows before the last mark. */
  ghost predicate IsPayload(input: seq<nat>, payloads: seq<seq<nat>>, marks: seq<Mark>) {
    && |marks| == |payloads| + 1 && marks[0] == Mark(0, 0)
    && forall k :: 0 <= k < |payloads| ==> IsWord(input, marks[k], marks[k + 1], payloads[k])
  }

  ghost predicate IsWholePayload(input: seq<nat>, payloads: seq<seq<nat>>, marks: seq<Mark>) {
    IsPayload(input, payloads, marks) && marks[|payloads|] == Mark(Rows(|input|), 0)
  }

  lemma PayloadSnoc(input: seq<nat>, payloads: seq<seq<nat>>, marks: seq<Mark>, payload: seq<nat>, end: Mark)
    requires IsPayload(input, payloads, marks) && IsWord(input, marks[|payloads|], end, payload)
    ensures IsPayload(input, payloads + [payload], marks + [end])
  {
  }

  lemma WordPacked(input: seq<nat>, payloads: seq<seq<nat>>, marks: seq<Mark>, start: Mark, end: Mark,
                   payload: seq<nat>,
                   encodings: seq<nat>, integersEncoded: nat, actualMaxWidth: nat)
    requires PackedWord(input, start.row, start.carry, payload, encodings, integersEncoded, end.carry, actualMaxWidth)
    requires end.row == start.row + |encodings|
    requires IsPayload(input, payloads, marks) && marks[|payloads|] == start
    ensures IsPayload(input, payloads + [payload], marks + [end])
    ensures start.row < end.row <= Rows(|input|) && end.carry < RowWidth(input, end.row)
    ensures end.carry > 0 ==> end.row < Rows(|input|) && actualMaxWidth == RowWidth(input, end.row)
    ensures integersEncoded == if end.row == Rows(|input|) then |input| - 16 * start.row else 16 * |encodings|
  {
    assert IsWord(input, start, end, payload);
    PayloadSnoc(input, payloads, marks, payload, end);
  }

  lemma {:induction false} SumOfWidthsGrows(input: seq<nat>, r0: nat, carry: nat, m: nat, m': nat)
    requires carry < RowWidth(input, r0) && 1 <= m < m'
    ensures SumOf(FieldWidths(input, r0, carry, m)) + RowWidth(input, r0 + m)
         <= SumOf(FieldWidths(input, r0, carry, m'))
  {
    FieldWidthsSnoc(input, r0, carry, m' - 1);
    if m < m' - 1 {
      SumOfWidthsGrows(input, r0, carry, m, m' - 1);
    }
  }

  /** Where a word ends is determined by where it starts. */
  lemma WordEndsOnce(input: seq<nat>, r0: nat, carry: nat, m: nat, out: nat, m': nat, out': nat)
    requires carry < RowWidth(input, r0)
    requires WordEnds(input, r0, carry, m, out) && WordEnds(input, r0, carry, m', out')
    ensures m == m' && out == out'
  {
    if m < m' {
      SumOfWidthsGrows(input, r0, carry, m, m');
    } else if m' < m {
      SumOfWidthsGrows(input, r0, carry, m', m);
    }
  }

  lemma {:induction false} SameMark(input: seq<nat>, p: seq<seq<nat>>, marks: seq<Mark>, q: seq<seq<nat>>,
                                    marks': seq<Mark>, k: nat)
    requires IsPayload(input, p, marks) && IsPayload(input, q, marks') && k <= |p| && k <= |q|
    ensures marks[k] == marks'[k] && p[..k] == q[..k]
  {
    if k > 0 {
      var j := k - 1;
      SameMark(input, p, marks, q, marks', j);
      assert IsWord(input, marks[j], marks[j + 1], p[j]) && IsWord(input, marks'[j], marks'[j + 1], q[j]);
      WordEndsOnce(input, marks[j].row, marks[j].carry, marks[j + 1].row - marks[j].row, marks[j + 1].carry,
                   marks'[j + 1].row - marks'[j].row, marks'[j + 1].carry);
      assert p[j] == q[j];
      assert p[..k] == p[..j] + [p[j]] && q[..k] == q[..j] + [q[j]];
    }
  }

  lemma StartsInside(input: seq<nat>, payloads: seq<seq<nat>>, marks: seq<Mark>, k: nat)
    requires IsPayload(input, payloads, marks) && k < |payloads|
    ensures marks[k].row < marks[k + 1].row <= Rows(|input|)
  {
    assert IsWord(input, marks[k], marks[k + 1], payloads[k]);
  }

  /** A sequence has one payload, whichever codec writes it. */
  lemma PayloadIsUnique(input: seq<nat>, p: seq<seq<nat>>, marks: seq<Mark>, q: seq<seq<nat>>, marks': seq<Mark>)
    requires IsWholePayload(input, p, marks) && IsWholePayload(input, q, marks')
    ensures p == q
  {
    var k := if |p| <= |q| then |p| else |q|;
    SameMark(input, p, marks, q, marks', k);
    if |p| < |q| {
      StartsInside(input, q, marks', k);
    } else if |q| < |p| {
      StartsInside(input, p, marks, k);
    }
  }

  /** The lanes of a word are 32 bits. */
  lemma LanesFit(input: seq<nat>, start: Mark, end: Mark, payload: seq<nat>)
    requires Words32(input) && IsWord(input, start, end, payload)
    ensures Words32(payload)
  {
    var m := end.row - start.row;
    var ws := FieldWidths(input, start.row, start.carry, m);
    forall l: nat | l < 16 ensures payload[l] < Pow2(32) {
      FieldsAreFit(input, start.row, start.carry, m, l);
      HighBitsFit(input, end.row, end.carry, l);
      PackFits(ws, Fields(input, start.row, start.carry, m, l), HighBits(input, end.row, end.carry, l), end.carry);
      Pow2Grows(SumOf(ws) + end.carry, 32);
    }
  }

  /** Every word ends a row. */
  lemma {:induction false} FewWords(input: seq<nat>, payloads: seq<seq<nat>>, marks: seq<Mark>, k: nat)
    requires IsPayload(input, payloads, marks) && k <= |payloads|
    ensures k <= marks[k].row
  {
    if k > 0 {
      FewWords(input, payloads, marks, k - 1);
      assert IsWord(input, marks[k - 1], marks[k], payloads[k - 1]);
    }
  }

  /** A payload that stops before the last row is shorter than the whole one. */
  lemma PartIsShorter(input: seq<nat>, p: seq<seq<nat>>, marks: seq<Mark>, q: seq<seq<nat>>, marks': seq<Mark>)
    requires IsPayload(input, p, marks) && marks[|p|].row < Rows(|input|) && IsWholePayload(input, q, marks')
    ensures |p| < |q|
  {
    if |q| <= |p| {
      SameMark(input, p, marks, q, marks', |q|);
      if |q| < |p| {
        StartsInside(input, p, marks, |q|);
      }
    }
  }

  // ----- reading rows back

  /** The two parts of a row that crosses words make it up again. */
  lemma FirstRowDecodes(input: seq<nat>, r: nat, carry: nat, l: nat)
    requires Words32(input) && l < 16 && carry < RowWidth(input, r)
    ensures Or(Low(Cell(input, r, l), RowWidth(input, r) - carry),
               Low(Shl(HighBits(input, r, carry, l), RowWidth(input, r) - carry), 32)) == Cell(input, r, l)
  {
    CellFits(input, r, l);
    Pow2Grows(RowWidth(input, r), 32);
    if carry == 0 {
      LowSmall(Cell(input, r, l), RowWidth(input, r));
      ShlZero(RowWidth(input, r));
      LowSmall(0, 32);
      OrZero(Cell(input, r, l));
    } else {
      Rejoin(Cell(input, r, l), RowWidth(input, r) - carry);
    }
  }

  lemma Rejoin(v: nat, low: nat)
    requires v < Pow2(32)
    ensures Or(Low(v, low), Low(Shl(Shr(v, low), low), 32)) == v
  {
    Split(v, low);
    OrJoin(Low(v, low), Shr(v, low), low);
    LowSmall(Shl(Shr(v, low), low), 32);
  }

  /** A row that lies within a word. */
  lemma FieldReads(input: seq<nat>, start: Mark, end: Mark, payload: seq<nat>, i: nat, l: nat)
    requires Words32(input) && IsWord(input, start, end, payload) && l < 16 && start.row <= i < end.row
    ensures var used := SumOf(FieldWidths(input, start.row, start.carry, i - start.row));
            Low(Shr(payload[l], used), FieldWidth(input, start.row, start.carry, i - start.row))
            == Field(input, start.row, start.carry, i - start.row, l)
  {
    var m, j := end.row - start.row, i - start.row;
    var ws, vs := FieldWidths(input, start.row, start.carry, m), Fields(input, start.row, start.carry, m, l);
    FieldsAreFit(input, start.row, start.carry, m, l);
    UnpackPack(ws, vs, HighBits(input, end.row, end.carry, l));
    UnpackAt(ws, payload[l], j);
    assert ws[..j] == FieldWidths(input, start.row, start.carry, j);
  }

  /** What is left of a word above its fields. */
  lemma RestReads(input: seq<nat>, start: Mark, end: Mark, payload: seq<nat>, l: nat)
    requires Words32(input) && IsWord(input, start, end, payload) && l < 16
    ensures Shr(payload[l], SumOf(FieldWidths(input, start.row, start.carry, end.row - start.row)))
            == HighBits(input, end.row, end.carry, l)
  {
    var m := end.row - start.row;
    FieldsAreFit(input, start.row, start.carry, m, l);
    UnpackPack(FieldWidths(input, start.row, start.carry, m), Fields(input, start.row, start.carry, m, l),
               HighBits(input, end.row, end.carry, l));
  }

  /** A row fits in what is left of its word exactly when the word holds all of it. */
  lemma RowFitsExactly(input: seq<nat>, start: Mark, end: Mark, payload: seq<nat>, i: nat)
    requires Words32(input) && IsWord(input, start, end, payload) && i < Rows(|input|)
    requires start.row <= i <= end.row && (i == start.row ==> start.carry == 0)
    ensures var used := SumOf(FieldWidths(input, start.row, start.carry, i - start.row));
            && used <= 32
            && (used + RowWidth(input, i) <= 32 <==> i < end.row)
            && (i == end.row ==> end.carry == 32 - used)
  {
    var r, carry, j := start.row, start.carry, i - start.row;
    if i < end.row {
      FieldWidthsSnoc(input, r, carry, j);
      if j + 1 < end.row - r {
        SumOfWidthsGrows(input, r, carry, j + 1, end.row - r);
      }
    }
  }
}
