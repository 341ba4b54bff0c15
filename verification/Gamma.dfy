/** Group Elias Gamma: the widths of a word's fields are its selector, in unary, and each 512-bit
    word of payload follows its selector. */
module Gamma {
  import opened Bits
  import opened GroupElias
  import opened Payload
  import opened Simd

  /** A selector and the 16 lanes it describes: 68 bytes. */
  datatype CodeWord = CodeWord(selector: nat, payload: seq<nat>)

  ghost predicate Lanes(words: seq<CodeWord>) {
    forall k :: 0 <= k < |words| ==> |words[k].payload| == 16
  }

  /** Every word holds at least one field. */
  ghost predicate Selected(words: seq<CodeWord>) {
    forall k :: 0 <= k < |words| ==> words[k].selector > 0
  }

  // ----- selectors

  ghost predicate Positive(ws: seq<nat>) {
    forall i :: 0 <= i < |ws| ==> ws[i] >= 1
  }

  /** For each width, that many bits of which the highest is set; the first width lowest. */
  function Selector(ws: seq<nat>): nat {
    if ws == [] then 0
    else (if ws[0] == 0 then 0 else Pow2(ws[0] - 1)) + Shl(Selector(ws[1..]), ws[0])
  }

  function Widths(selector: nat): (r: seq<nat>)
    decreases selector
  {
    if selector == 0 then []
    else [FirstSet(selector)] + Widths(Shr(selector, FirstSet(selector)))
  }

  /** The widths can be read back from the selector. */
  lemma {:induction false} WidthsOfSelector(ws: seq<nat>)
    requires Positive(ws)
    ensures Widths(Selector(ws)) == ws
  {
    if ws != [] {
      var y := Selector(ws[1..]);
      FirstSetOfMark(ws[0], y);
      Join(Pow2(ws[0] - 1), y, ws[0]);
      WidthsOfSelector(ws[1..]);
    }
  }

  lemma {:induction false} SelectorFits(ws: seq<nat>)
    requires Positive(ws)
    ensures Selector(ws) < Pow2(SumOf(ws))
  {
    if ws != [] {
      SelectorFits(ws[1..]);
      JoinFits(Pow2(ws[0] - 1), ws[0], Selector(ws[1..]), SumOf(ws[1..]));
    }
  }

  lemma {:induction false} SumFrom(ws: seq<nat>, i: nat)
    requires i <= |ws|
    ensures SumOf(ws[i..]) <= SumOf(ws)
  {
    if i > 0 {
      SumFrom(ws[1..], i - 1);
      assert ws[1..][i - 1..] == ws[i..];
    }
  }

  /** `compute_selector`: from the last width to the first, shift and set the mark, in 32 bits. */
  method ComputeSelector(encodings: seq<nat>) returns (value: nat)
    requires Positive(encodings) && SumOf(encodings) <= 32
    ensures value == Selector(encodings)
  {
    value := 0;
    var current: nat := |encodings|;
    ghost var done := [];
    while current > 0
      invariant current <= |encodings| && encodings == encodings[..current] + done
      invariant Positive(done) && SumOf(done) <= 32 && value == Selector(done)
    {
      current := current - 1;
      var zeros := encodings[current];
      ghost var more := [zeros] + done;
      assert more == encodings[current..];
      SumFrom(encodings, current);
      SelectorCons(zeros, done, more);
      value := Low(Shl(value, zeros), 32);
      value := Or(value, Pow2(zeros - 1));
      done := more;
    }
  }

  lemma SelectorCons(w: nat, rest: seq<nat>, ws: seq<nat>)
    requires Positive(rest) && w >= 1 && ws == [w] + rest && SumOf(ws) <= 32
    ensures Or(Low(Shl(Selector(rest), w), 32), Pow2(w - 1)) == Selector(ws)
  {
    assert ws[1..] == rest;
    SelectorFits(rest);
    MarkOn(Selector(rest), SumOf(rest), w);
  }

  lemma MarkOn(y: nat, s: nat, w: nat)
    requires y < Pow2(s) && w >= 1 && s + w <= 32
    ensures Or(Low(Shl(y, w), 32), Pow2(w - 1)) == Pow2(w - 1) + Shl(y, w)
  {
    ShlFits(y, s, w);
    Pow2Grows(s + w, 32);
    LowSmall(Shl(y, w), 32);
    OrCommutes(Shl(y, w), Pow2(w - 1));
    OrJoin(Pow2(w - 1), y, w);
  }

  // ----- decoding, lane by lane

  /** One word: the first field is completed by the high bits that the word before left over. */
  function LaneValues(rest: nat, ws: seq<nat>, lane: nat): (r: seq<nat>)
    ensures |r| == |ws|
  {
    if ws == [] then []
    else [Or(Low(lane, ws[0]), Low(Shl(rest, ws[0]), 32))] + Unpack(ws[1..], Shr(lane, ws[0]))
  }

  function LaneRest(ws: seq<nat>, lane: nat): nat {
    Shr(lane, SumOf(ws))
  }

  function WordValues(rest: nat, w: CodeWord, l: nat): seq<nat>
    requires |w.payload| == 16 && l < 16
  {
    LaneValues(rest, Widths(w.selector), w.payload[l])
  }

  function WordRest(w: CodeWord, l: nat): nat
    requires |w.payload| == 16 && l < 16
  {
    LaneRest(Widths(w.selector), w.payload[l])
  }

  /** All words from the one after which `rest` was left over. */
  function DecodeLane(rest: nat, words: seq<CodeWord>, l: nat): seq<nat>
    requires Lanes(words) && l < 16
    decreases words
  {
    if words == [] then []
    else WordValues(rest, words[0], l) + DecodeLane(WordRest(words[0], l), words[1..], l)
  }

  function RestAfter(rest: nat, words: seq<CodeWord>, l: nat): nat
    requires Lanes(words) && l < 16
    decreases words
  {
    if words == [] then rest else RestAfter(WordRest(words[0], l), words[1..], l)
  }

  lemma {:induction false} DecodeSnoc(rest: nat, words: seq<CodeWord>, w: CodeWord, l: nat)
    requires Lanes(words) && Lanes(words + [w]) && |w.payload| == 16 && l < 16
    ensures DecodeLane(rest, words + [w], l) == DecodeLane(rest, words, l) + WordValues(RestAfter(rest, words, l), w, l)
    ensures RestAfter(rest, words + [w], l) == WordRest(w, l)
    decreases words
  {
    var more := words + [w];
    if words == [] {
      assert more[1..] == [];
    } else {
      assert more[0] == words[0] && more[1..] == words[1..] + [w];
      DecodeSnoc(WordRest(words[0], l), words[1..], w, l);
      Assoc(WordValues(rest, words[0], l), DecodeLane(WordRest(words[0], l), words[1..], l),
            WordValues(RestAfter(rest, words, l), w, l));
    }
  }

  /** A packed word decodes to its rows, and leaves over the high bits of the row it spilled. */
  lemma WordDecodes(input: seq<nat>, r0: nat, carry: nat, m: nat, out: nat, l: nat)
    requires Words32(input) && l < 16 && carry < RowWidth(input, r0) && m >= 1 && out <= RowWidth(input, r0 + m)
    ensures var ws, lane := FieldWidths(input, r0, carry, m), PackedLane(input, r0, carry, m, out, l);
            && LaneValues(HighBits(input, r0, carry, l), ws, lane) == Column(input, r0, r0 + m, l)
            && LaneRest(ws, lane) == HighBits(input, r0 + m, out, l)
  {
    var ws, vs := FieldWidths(input, r0, carry, m), Fields(input, r0, carry, m, l);
    FieldsAreFit(input, r0, carry, m, l);
    FirstRowDecodes(input, r0, carry, l);
    var column := Column(input, r0, r0 + m, l);
    FieldsAreCells(input, r0, carry, m, l);
    FieldsDecode(ws, vs, HighBits(input, r0 + m, out, l), HighBits(input, r0, carry, l), column);
  }

  lemma FieldsAreCells(input: seq<nat>, r0: nat, carry: nat, m: nat, l: nat)
    requires carry <= RowWidth(input, r0)
    ensures forall i :: 1 <= i < m ==> Fields(input, r0, carry, m, l)[i] == Column(input, r0, r0 + m, l)[i]
  {
    forall i | 1 <= i < m ensures Fields(input, r0, carry, m, l)[i] == Column(input, r0, r0 + m, l)[i] {
      assert Fields(input, r0, carry, m, l)[i] == Field(input, r0, carry, i, l);
    }
  }

  lemma FieldsDecode(ws: seq<nat>, vs: seq<nat>, top: nat, rest: nat, column: seq<nat>)
    requires FieldsFit(ws, vs) && |ws| >= 1 && |column| == |ws|
    requires Or(vs[0], Low(Shl(rest, ws[0]), 32)) == column[0]
    requires forall i :: 1 <= i < |ws| ==> vs[i] == column[i]
    ensures LaneValues(rest, ws, Pack(ws, vs, top)) == column
    ensures LaneRest(ws, Pack(ws, vs, top)) == top
  {
    var lane := Pack(ws, vs, top);
    UnpackPack(ws, vs, top);
    assert vs == [Low(lane, ws[0])] + Unpack(ws[1..], Shr(lane, ws[0]));
    assert vs[0] == Low(lane, ws[0]) && vs[1..] == Unpack(ws[1..], Shr(lane, ws[0]));
  }

  // ----- encoding

  /** What has been written decodes to the first r rows, and leaves `carry` high bits of row r over. */
  ghost predicate LaneEncodedTo(input: seq<nat>, words: seq<CodeWord>, r: nat, carry: nat, l: nat)
    requires Lanes(words) && l < 16
  {
    && carry < RowWidth(input, r)
    && DecodeLane(0, words, l) == Column(input, 0, r, l)
    && RestAfter(0, words, l) == HighBits(input, r, carry, l)
  }

  ghost predicate EncodedTo(input: seq<nat>, words: seq<CodeWord>, r: nat, carry: nat) {
    && Lanes(words) && Selected(words) && carry < RowWidth(input, r)
    && forall l :: 0 <= l < 16 ==> LaneEncodedTo(input, words, r, carry, l)
  }

  lemma OneMoreWord(input: seq<nat>, words: seq<CodeWord>, r: nat, carry: nat, w: CodeWord, encodings: seq<nat>,
                    integersEncoded: nat, carryover: nat, actualMaxWidth: nat, more: seq<CodeWord>, next: nat)
    requires Words32(input) && EncodedTo(input, words, r, carry) && Widths(w.selector) == encodings
    requires PackedWord(input, r, carry, w.payload, encodings, integersEncoded, carryover, actualMaxWidth)
    requires more == words + [w] && next == r + |encodings|
    ensures EncodedTo(input, more, next, carryover)
  {
    var m := |encodings|;
    assert WordEnds(input, r, carry, m, carryover);
    assert Lanes(more);
    forall l: nat | l < 16 ensures LaneEncodedTo(input, more, next, carryover, l) {
      assert LaneEncodedTo(input, words, r, carry, l);
      OneMoreInLane(input, words, r, carry, m, carryover, w, more, next, l);
    }
  }

  lemma OneMoreInLane(input: seq<nat>, words: seq<CodeWord>, r: nat, carry: nat, m: nat, out: nat, w: CodeWord,
                      more: seq<CodeWord>, next: nat, l: nat)
    requires Words32(input) && l < 16 && Lanes(words) && |w.payload| == 16 && more == words + [w] && Lanes(more)
    requires carry < RowWidth(input, r) && m >= 1 && next == r + m && out < RowWidth(input, next)
    requires LaneEncodedTo(input, words, r, carry, l)
    requires Widths(w.selector) == FieldWidths(input, r, carry, m)
    requires w.payload[l] == PackedLane(input, r, carry, m, out, l)
    ensures LaneEncodedTo(input, more, next, out, l)
  {
    DecodeSnoc(0, words, w, l);
    WordDecodes(input, r, carry, m, out, l);
    ColumnJoin(input, r, m, l);
  }

  lemma EncodingsArePositive(input: seq<nat>, r: nat, carry: nat, encodings: seq<nat>)
    requires Words32(input) && carry < RowWidth(input, r) && encodings == FieldWidths(input, r, carry, |encodings|)
    ensures Positive(encodings)
  {
    forall i: nat | i < |encodings| ensures encodings[i] >= 1 {
      CellFits(input, r + i, 0);
      assert encodings[i] == FieldWidth(input, r, carry, i);
    }
  }

  /** Packs one word and selects its widths. */
  method SelectWord(input: seq<nat>, r: nat, carry: nat, rowWidth: nat)
    returns (w: CodeWord, encodings: seq<nat>, integersEncoded: nat, carryover: nat, actualMaxWidth: nat)
    requires Words32(input) && r < Rows(|input|) && carry < RowWidth(input, r)
    requires carry > 0 ==> rowWidth == RowWidth(input, r)
    ensures PackedWord(input, r, carry, w.payload, encodings, integersEncoded, carryover, actualMaxWidth)
    ensures Widths(w.selector) == encodings && w.selector < Pow2(32)
  {
    var payload;
    payload, encodings, integersEncoded, carryover, actualMaxWidth := PackWord(input, r, carry, rowWidth);
    EncodingsArePositive(input, r, carry, encodings);
    var selector := ComputeSelector(encodings);
    WidthsOfSelector(encodings);
    SelectorIsWord(encodings);
    w := CodeWord(selector, payload);
  }

  /** What follows from a packed word. */
  lemma WordIsPacked(input: seq<nat>, start: Mark, end: Mark, payload: seq<nat>,
                     encodings: seq<nat>, integersEncoded: nat, actualMaxWidth: nat)
    requires PackedWord(input, start.row, start.carry, payload, encodings, integersEncoded, end.carry, actualMaxWidth)
    requires end.row == start.row + |encodings|
    ensures IsWord(input, start, end, payload) && 1 <= |encodings| && end.row <= Rows(|input|)
    ensures end.carry > 0 ==> actualMaxWidth == RowWidth(input, end.row) && end.row < Rows(|input|)
    ensures integersEncoded == if end.row == Rows(|input|) then |input| - 16 * start.row else 16 * |encodings|
  {
  }

  /** Packs, selects and appends one word. */
  method NextWord(input: seq<nat>, words: seq<CodeWord>, r: nat, carry: nat, rowWidth: nat)
    returns (more: seq<CodeWord>, rows: nat, integersEncoded: nat, carryover: nat, actualMaxWidth: nat)
    requires Words32(input) && r < Rows(|input|) && EncodedTo(input, words, r, carry)
    requires carry > 0 ==> rowWidth == RowWidth(input, r)
    ensures |more| == |words| + 1 && more[..|words|] == words && EncodedTo(input, more, r + rows, carryover)
    ensures IsWord(input, Mark(r, carry), Mark(r + rows, carryover), more[|words|].payload)
            && more[|words|].selector < Pow2(32)
    ensures 1 <= rows && r + rows <= Rows(|input|)
    ensures carryover > 0 ==> actualMaxWidth == RowWidth(input, r + rows) && r + rows < Rows(|input|)
    ensures integersEncoded == if r + rows == Rows(|input|) then |input| - 16 * r else 16 * rows
  {
    var w, encodings;
    w, encodings, integersEncoded, carryover, actualMaxWidth := SelectWord(input, r, carry, rowWidth);
    rows := |encodings|;
    WordIsPacked(input, Mark(r, carry), Mark(r + rows, carryover), w.payload, encodings, integersEncoded,
                 actualMaxWidth);
    more := words + [w];
    OneMoreWord(input, words, r, carry, w, encodings, integersEncoded, carryover, actualMaxWidth, more, r + rows);
  }

  lemma SelectorIsWord(encodings: seq<nat>)
    requires Positive(encodings) && SumOf(encodings) <= 32
    ensures Selector(encodings) < Pow2(32)
  {
    SelectorFits(encodings);
    Pow2Grows(SumOf(encodings), 32);
  }

  lemma NothingWritten(input: seq<nat>)
    requires Words32(input)
    ensures EncodedTo(input, [], 0, 0)
  {
    CellFits(input, 0, 0);
    forall l: nat | l < 16 ensures LaneEncodedTo(input, [], 0, 0, l) {
    }
  }

  function Payloads(words: seq<CodeWord>): (r: seq<seq<nat>>)
    ensures |r| == |words|
  {
    seq(|words|, k requires 0 <= k < |words| => words[k].payload)
  }

  lemma PayloadsSnoc(input: seq<nat>, words: seq<CodeWord>, marks: seq<Mark>, more: seq<CodeWord>, end: Mark)
    requires IsPayload(input, Payloads(words), marks) && |more| == |words| + 1 && more[..|words|] == words
    requires IsWord(input, marks[|words|], end, more[|words|].payload)
    ensures IsPayload(input, Payloads(more), marks + [end])
  {
    PayloadSnoc(input, Payloads(words), marks, more[|words|].payload, end);
    assert Payloads(more) == Payloads(words) + [more[|words|].payload] by {
      assert forall k :: 0 <= k < |words| ==> more[..|words|][k] == words[k];
    }
  }

  /** The words written so far, and the mark they end at. */
  ghost predicate WordsTo(input: seq<nat>, words: seq<CodeWord>, marks: seq<Mark>, end: Mark) {
    && EncodedTo(input, words, end.row, end.carry) && Selectors32(words)
    && IsPayload(input, Payloads(words), marks) && marks[|words|] == end
  }

  ghost predicate Selectors32(words: seq<CodeWord>) {
    forall k :: 0 <= k < |words| ==> words[k].selector < Pow2(32)
  }

  lemma SelectorsSnoc(words: seq<CodeWord>, more: seq<CodeWord>)
    requires Selectors32(words) && |more| == |words| + 1 && more[..|words|] == words
             && more[|words|].selector < Pow2(32)
    ensures Selectors32(more)
  {
    forall k | 0 <= k < |more| ensures more[k].selector < Pow2(32) {
      assert k < |words| ==> more[..|words|][k] == words[k];
    }
  }

  /** One word more. */
  method WriteWord(input: seq<nat>, words: seq<CodeWord>, r: nat, carry: nat, rowWidth: nat, ghost marks: seq<Mark>)
    returns (more: seq<CodeWord>, rows: nat, integersEncoded: nat, carryover: nat, actualMaxWidth: nat,
             ghost marks': seq<Mark>)
    requires Words32(input) && r < Rows(|input|) && WordsTo(input, words, marks, Mark(r, carry))
    requires carry > 0 ==> rowWidth == RowWidth(input, r)
    ensures |more| == |words| + 1 && WordsTo(input, more, marks', Mark(r + rows, carryover)) && 1 <= rows
            && r + rows <= Rows(|input|)
    ensures carryover > 0 ==> actualMaxWidth == RowWidth(input, r + rows) && r + rows < Rows(|input|)
    ensures integersEncoded == if r + rows == Rows(|input|) then |input| - 16 * r else 16 * rows
  {
    more, rows, integersEncoded, carryover, actualMaxWidth := NextWord(input, words, r, carry, rowWidth);
    PayloadsSnoc(input, words, marks, more, Mark(r + rows, carryover));
    SelectorsSnoc(words, more);
    marks' := marks + [Mark(r + rows, carryover)];
  }

  /** The words of the whole input, or as many as the buffer has room for. */
  method EncodeWithin(input: seq<nat>, capacity: nat)
    returns (ok: bool, words: seq<CodeWord>, ghost marks: seq<Mark>, ghost end: Mark)
    requires Words32(input)
    ensures WordsTo(input, words, marks, end)
    ensures ok ==> end == Mark(Rows(|input|), 0) && words != [] && 17 * |words| + 1 <= capacity
    ensures !ok ==> end.row < Rows(|input|) && 17 * (|words| + 1) + 1 > capacity
  {
    words, marks := [], [Mark(0, 0)];
    var r, start, carryover, actualMaxWidth := 0, 0, 0, 0;
    NothingWritten(input);
    while true
      invariant r < Rows(|input|) && start == 16 * r && WordsTo(input, words, marks, Mark(r, carryover))
      invariant carryover > 0 ==> actualMaxWidth == RowWidth(input, r)
      decreases Rows(|input|) - r
    {
      if 17 * |words| + 16 + 1 + 1 > capacity {
        return false, words, marks, Mark(r, carryover);
      }
      var rows, integersEncoded;
      words, rows, integersEncoded, carryover, actualMaxWidth, marks :=
        WriteWord(input, words, r, carryover, actualMaxWidth, marks);
      r := r + rows;
      start := start + integersEncoded;
      if start == |input| {
        return true, words, marks, Mark(r, carryover);
      }
    }
  }

  /** Encodes into a buffer of `capacity` 32-bit words; no words are returned if they, and one word more,
      do not fit. */
  method Encode(input: seq<nat>, capacity: nat) returns (words: seq<CodeWord>, ghost marks: seq<Mark>)
    requires Words32(input)
    ensures words != [] ==> IsWholePayload(input, Payloads(words), marks) && EncodedTo(input, words, Rows(|input|), 0)
    ensures Selectors32(words)
    ensures forall q, ms :: IsWholePayload(input, q, ms) ==> (words != [] <==> 17 * |q| + 1 <= capacity)
    ensures 17 * Rows(|input|) + 1 <= capacity ==> words != []
  {
    var ok;
    ghost var end;
    ok, words, marks, end := EncodeWithin(input, capacity);
    forall q, ms | IsWholePayload(input, q, ms) ensures ok <==> 17 * |q| + 1 <= capacity {
      if ok {
        PayloadIsUnique(input, q, ms, Payloads(words), marks);
      } else {
        PartIsShorter(input, Payloads(words), marks, q, ms);
      }
    }
    FewWords(input, Payloads(words), marks, |words|);
    if !ok {
      words := [];
    }
  }

  // ----- the decoder's loops

  /** What is still to come in lane l: the rest of the current word and the words after it. */
  function Pending(selector: nat, lane: nat, rest: seq<CodeWord>, l: nat): seq<nat>
    requires Lanes(rest) && l < 16
  {
    Unpack(Widths(selector), lane) + DecodeLane(Shr(lane, SumOf(Widths(selector))), rest, l)
  }

  lemma PendingStep(selector: nat, w: nat, next: nat, lane: nat, rest: seq<CodeWord>, l: nat)
    requires Lanes(rest) && l < 16 && Widths(selector) == [w] + Widths(next)
    ensures Pending(selector, lane, rest, l) == [Low(lane, w)] + Pending(next, Shr(lane, w), rest, l)
  {
    var ws := Widths(next);
    FirstField(Widths(selector), w, ws, lane);
    Assoc([Low(lane, w)], Unpack(ws, Shr(lane, w)), DecodeLane(Shr(Shr(lane, w), SumOf(ws)), rest, l));
  }

  lemma FirstField(all: seq<nat>, w: nat, ws: seq<nat>, lane: nat)
    requires all == [w] + ws
    ensures Unpack(all, lane) == [Low(lane, w)] + Unpack(ws, Shr(lane, w))
    ensures Shr(lane, SumOf(all)) == Shr(Shr(lane, w), SumOf(ws))
  {
    assert all[1..] == ws;
    ShrSum(lane, w, SumOf(ws), SumOf(all));
  }

  lemma PendingNext(lane: nat, rest: seq<CodeWord>, l: nat)
    requires Lanes(rest) && l < 16 && rest != [] && rest[0].selector > 0
    ensures var w := FirstSet(rest[0].selector);
            var next := rest[0].payload[l];
            Pending(0, lane, rest, l)
            == [Or(Low(next, w), Low(Shl(lane, w), 32))] + Pending(Shr(rest[0].selector, w), Shr(next, w), rest[1..], l)
  {
    var selector, next := rest[0].selector, rest[0].payload[l];
    var w := FirstSet(selector);
    var all, ws := Widths(selector), Widths(Shr(selector, w));
    FirstField(all, w, ws, next);
    FirstAcross(all, w, ws, next, lane);
    var first := Or(Low(next, w), Low(Shl(lane, w), 32));
    var now, later := Unpack(ws, Shr(next, w)), DecodeLane(Shr(next, SumOf(all)), rest[1..], l);
    assert Pending(0, lane, rest, l) == [] + DecodeLane(lane, rest, l);
    Assoc([first], now, later);
  }

  lemma FirstAcross(all: seq<nat>, w: nat, ws: seq<nat>, next: nat, lane: nat)
    requires all == [w] + ws
    ensures LaneValues(lane, all, next) == [Or(Low(next, w), Low(Shl(lane, w), 32))] + Unpack(ws, Shr(next, w))
  {
    assert all[1..] == ws;
  }

  lemma PendingFirst(words: seq<CodeWord>, l: nat)
    requires Lanes(words) && l < 16 && words != [] && words[0].selector > 0
    ensures Pending(words[0].selector, words[0].payload[l], words[1..], l) == DecodeLane(0, words, l)
  {
    var ws, lane := Widths(words[0].selector), words[0].payload[l];
    ShlZero(ws[0]);
    LowSmall(0, 32);
    OrZero(Low(lane, ws[0]));
  }

  ghost predicate Decoded(words: seq<CodeWord>, rows: seq<seq<nat>>) {
    Lanes(words) && AllRows(rows) && forall l :: 0 <= l < 16 ==> LaneOf(rows, l) == DecodeLane(0, words, l)
  }

  ghost predicate LaneSoFar(words: seq<CodeWord>, rows: seq<seq<nat>>, selector: nat, payload: seq<nat>,
                            rest: seq<CodeWord>, l: nat)
    requires Lanes(words) && Lanes(rest) && AllRows(rows) && |payload| == 16 && l < 16
  {
    LaneOf(rows, l) + Pending(selector, payload[l], rest, l) == DecodeLane(0, words, l)
  }

  ghost predicate SoFar(words: seq<CodeWord>, rows: seq<seq<nat>>, selector: nat, payload: seq<nat>,
                        rest: seq<CodeWord>) {
    && Lanes(words) && Lanes(rest) && AllRows(rows) && |payload| == 16
    && forall l :: 0 <= l < 16 ==> LaneSoFar(words, rows, selector, payload, rest, l)
  }

  lemma StoreRow(words: seq<CodeWord>, rows: seq<seq<nat>>, selector: nat, payload: seq<nat>, rest: seq<CodeWord>)
    requires SoFar(words, rows, selector, payload, rest) && selector > 0
    ensures var w := FirstSet(selector);
            SoFar(words, rows + [Mask(payload, w)], Shr(selector, w), ShiftRight(payload, w), rest)
  {
    var w := FirstSet(selector);
    var row, selector', payload' := Mask(payload, w), Shr(selector, w), ShiftRight(payload, w);
    var rows' := rows + [row];
    assert AllRows(rows');
    assert Widths(selector) == [w] + Widths(selector');
    forall l: nat | l < 16 ensures LaneSoFar(words, rows', selector', payload', rest, l) {
      StoreInLane(words, rows, row, selector, w, selector', payload, payload', rest, rows', l);
    }
  }

  lemma StoreInLane(words: seq<CodeWord>, rows: seq<seq<nat>>, row: seq<nat>, selector: nat, w: nat, next: nat,
                    payload: seq<nat>, shifted: seq<nat>, rest: seq<CodeWord>, more: seq<seq<nat>>, l: nat)
    requires SoFar(words, rows, selector, payload, rest) && l < 16 && |row| == |shifted| == 16
    requires Widths(selector) == [w] + Widths(next)
    requires row[l] == Low(payload[l], w) && shifted[l] == Shr(payload[l], w) && more == rows + [row] && AllRows(more)
    ensures LaneSoFar(words, more, next, shifted, rest, l)
  {
    assert LaneSoFar(words, rows, selector, payload, rest, l);
    PendingStep(selector, w, next, payload[l], rest, l);
    LaneSnoc(rows, row, l);
    Assoc(LaneOf(rows, l), [row[l]], Pending(next, shifted[l], rest, l));
  }

  lemma StoreAcross(words: seq<CodeWord>, rows: seq<seq<nat>>, payload: seq<nat>, rest: seq<CodeWord>)
    requires SoFar(words, rows, 0, payload, rest) && rest != [] && rest[0].selector > 0
    ensures var w := FirstSet(rest[0].selector);
            var row := OrLanes(Mask(rest[0].payload, w), ShiftLeft(payload, w));
            SoFar(words, rows + [row], Shr(rest[0].selector, w), ShiftRight(rest[0].payload, w), rest[1..])
  {
    var w := FirstSet(rest[0].selector);
    var row := OrLanes(Mask(rest[0].payload, w), ShiftLeft(payload, w));
    var rows', selector', payload', rest' :=
      rows + [row], Shr(rest[0].selector, w), ShiftRight(rest[0].payload, w), rest[1..];
    assert AllRows(rows');
    forall l: nat | l < 16 ensures LaneSoFar(words, rows', selector', payload', rest', l) {
      assert LaneSoFar(words, rows, 0, payload, rest, l);
      PendingNext(payload[l], rest, l);
      LaneSnoc(rows, row, l);
    }
  }

  /** Reads words until there are none left, storing one register for every width. */
  method Decode(words: seq<CodeWord>) returns (rows: seq<seq<nat>>)
    requires words != [] && Lanes(words) && Selected(words)
    ensures Decoded(words, rows)
  {
    var selector, payload, source := words[0].selector, words[0].payload, 1;
    rows := [];
    ghost var rest := words[1..];
    forall l: nat | l < 16 ensures LaneSoFar(words, rows, selector, payload, rest, l) {
      PendingFirst(words, l);
    }
    while true
      invariant 1 <= source <= |words| && rest == words[source..] && selector > 0
      invariant SoFar(words, rows, selector, payload, rest)
      decreases |words| - source, selector
    {
      ghost var before, last := selector, source;
      StoreRow(words, rows, selector, payload, rest);
      var width := FirstSet(selector);
      rows := rows + [Mask(payload, width)];
      payload := ShiftRight(payload, width);
      selector := Shr(selector, width);
      while selector == 0
        invariant 1 <= source <= |words| && rest == words[source..]
        invariant SoFar(words, rows, selector, payload, rest)
        invariant source > last || (source == last && selector < before)
        decreases |words| - source
      {
        if source >= |words| {
          Finished(words, rows, payload, rest);
          return;
        }
        StoreAcross(words, rows, payload, rest);
        var highBits := payload;
        selector, payload, source := words[source].selector, words[source].payload, source + 1;
        width := FirstSet(selector);
        highBits := ShiftLeft(highBits, width);
        rows := rows + [OrLanes(Mask(payload, width), highBits)];
        payload := ShiftRight(payload, width);
        selector := Shr(selector, width);
        rest := rest[1..];
      }
    }
  }

  lemma Finished(words: seq<CodeWord>, rows: seq<seq<nat>>, payload: seq<nat>, rest: seq<CodeWord>)
    requires SoFar(words, rows, 0, payload, rest) && rest == []
    ensures Decoded(words, rows)
  {
    forall l: nat | l < 16 ensures LaneOf(rows, l) == DecodeLane(0, words, l) {
      assert LaneSoFar(words, rows, 0, payload, rest, l);
      assert Pending(0, payload[l], [], l) == [];
    }
  }

  // ----- the round trip

  /** Decoding what was encoded gives back the input, padded with zeroes to whole registers. */
  lemma RoundTrip(input: seq<nat>, words: seq<CodeWord>, rows: seq<seq<nat>>)
    requires EncodedTo(input, words, Rows(|input|), 0) && Decoded(words, rows)
    ensures |input| <= |Flat(rows)| && Flat(rows)[..|input|] == input
    ensures forall i :: |input| <= i < |Flat(rows)| ==> Flat(rows)[i] == 0
  {
    var n := Rows(|input|);
    forall l: nat | l < 16 ensures LaneOf(rows, l) == Column(input, 0, n, l) {
      assert LaneEncodedTo(input, words, n, 0, l);
    }
    ColumnsAreInput(input, rows);
  }
}
