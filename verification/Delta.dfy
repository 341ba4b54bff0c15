/** Group Elias Delta: the payload of Group Elias Gamma, with the widths of its rows in one stream of
    bits that is written downwards from the end of the buffer. */
module Delta {
  import opened Bits
  import opened Simd
  import opened GroupElias
  import opened Payload
  import opened SelectorStream

  function RowWidths(input: seq<nat>, rows: nat): (r: seq<nat>)
    ensures |r| == rows
  {
    seq(rows, i requires 0 <= i => RowWidth(input, i))
  }

  /** The words of a finished stream of the widths of all rows. */
  ghost predicate AreSelectors(input: seq<nat>, selectors: seq<nat>) {
    var ws := RowWidths(input, Rows(|input|));
    && Words32(input) && Words32(selectors) && AreWidths(ws)
    && Words(selectors, 0) == Stream(ws, 0) && StreamLength(ws) <= 32 * |selectors|
  }

  /** The width of a row of which part is already in a word. */
  ghost predicate Carries(input: seq<nat>, row: nat, carry: nat, width: nat) {
    carry > 0 ==> width == RowWidth(input, row) && row < Rows(|input|)
  }

  /** Rows before `row` are pushed, and also `row` itself if part of it is already in a word. */
  function Pushed(row: nat, carry: nat): nat {
    if carry > 0 then row + 1 else row
  }

  // ----- reading the payload

  /** i rows were read, `used` bits of word k among them; `payload` is what is left of the word. */
  ghost predicate InWord(input: seq<nat>, payloads: seq<seq<nat>>, marks: seq<Mark>, k: nat, i: nat, used: nat,
                         payload: seq<nat>) {
    && |marks| == |payloads| + 1 && k < |payloads|
    && marks[k].row <= i <= marks[k + 1].row && (i == marks[k].row ==> marks[k].carry == 0)
    && IsWord(input, marks[k], marks[k + 1], payloads[k])
    && used == SumOf(FieldWidths(input, marks[k].row, marks[k].carry, i - marks[k].row))
    && IsShifted(payload, payloads[k], used)
  }

  ghost predicate IsShifted(payload: seq<nat>, word: seq<nat>, used: nat) {
    |payload| == |word| == 16 && forall l :: 0 <= l < 16 ==> payload[l] == Shr(word[l], used)
  }

  ghost predicate IsRow(input: seq<nat>, i: nat, row: seq<nat>) {
    |row| == 16 && forall l :: 0 <= l < 16 ==> row[l] == Cell(input, i, l)
  }

  lemma WholeRow(input: seq<nat>, payloads: seq<seq<nat>>, marks: seq<Mark>, k: nat, i: nat, used: nat,
                 payload: seq<nat>,
                 width: nat, row: seq<nat>, used': nat, payload': seq<nat>)
    requires Words32(input) && InWord(input, payloads, marks, k, i, used, payload) && i < Rows(|input|)
    requires width == RowWidth(input, i) && used' == used + width <= 32
    requires row == Mask(payload, width) && payload' == ShiftRight(payload, width)
    ensures IsRow(input, i, row) && InWord(input, payloads, marks, k, i + 1, used', payload')
  {
    var start, end := marks[k], marks[k + 1];
    RowFitsExactly(input, start, end, payloads[k], i);
    FieldWidthsSnoc(input, start.row, start.carry, i - start.row);
    forall l: nat | l < 16 ensures row[l] == Cell(input, i, l) && payload'[l] == Shr(payloads[k][l], used') {
      WholeField(input, start, end, payloads[k], i, used, width, l);
    }
  }

  lemma WholeField(input: seq<nat>, start: Mark, end: Mark, word: seq<nat>, i: nat, used: nat, width: nat, l: nat)
    requires Words32(input) && IsWord(input, start, end, word) && l < 16
    requires start.row <= i < end.row && (i == start.row ==> start.carry == 0) && width == RowWidth(input, i)
    requires used == SumOf(FieldWidths(input, start.row, start.carry, i - start.row))
    ensures Low(Shr(word[l], used), width) == Cell(input, i, l)
    ensures Shr(Shr(word[l], used), width) == Shr(word[l], used + width)
  {
    FieldReads(input, start, end, word, i, l);
    CellFits(input, i, l);
    LowSmall(Cell(input, i, l), width);
    ShrShr(word[l], used, width);
  }

  lemma MoreWordsAhead(input: seq<nat>, payloads: seq<seq<nat>>, marks: seq<Mark>, k: nat, i: nat, used: nat,
                       payload: seq<nat>)
    requires Words32(input) && IsWholePayload(input, payloads, marks)
    requires InWord(input, payloads, marks, k, i, used, payload) && i < Rows(|input|) && used + RowWidth(input, i) > 32
    ensures used <= 32 && k + 1 < |payloads| && IsWord(input, marks[k + 1], marks[k + 2], payloads[k + 1])
    ensures i == marks[k + 1].row && marks[k + 1].carry == 32 - used
  {
    RowFitsExactly(input, marks[k], marks[k + 1], payloads[k], i);
    assert k + 1 < |payloads|;
  }

  lemma CrossingRow(input: seq<nat>, payloads: seq<seq<nat>>, marks: seq<Mark>, k: nat, i: nat, used: nat,
                    payload: seq<nat>,
                    width: nat, row: seq<nat>, k': nat, used': nat, payload': seq<nat>)
    requires Words32(input) && InWord(input, payloads, marks, k, i, used, payload) && k' == k + 1 < |payloads|
    requires IsWord(input, marks[k'], marks[k' + 1], payloads[k']) && i == marks[k'].row && marks[k'].carry == 32 - used
    requires width == RowWidth(input, i) && used' == used + width - 32
    requires row == OrLanes(Mask(payloads[k'], used'), ShiftLeft(payload, used'))
             && payload' == ShiftRight(payloads[k'], used')
    ensures IsRow(input, i, row) && InWord(input, payloads, marks, k', i + 1, used', payload')
  {
    forall l: nat | l < 16 ensures row[l] == Cell(input, i, l) {
      CrossingField(input, marks[k], marks[k'], marks[k' + 1], payloads[k], payloads[k'], used, used', l);
    }
    OneField(input, marks[k']);
  }

  lemma CrossingField(input: seq<nat>, start: Mark, end: Mark, next: Mark, word: seq<nat>, word': seq<nat>, used: nat,
                      low: nat, l: nat)
    requires Words32(input) && IsWord(input, start, end, word) && IsWord(input, end, next, word') && l < 16
    requires used == SumOf(FieldWidths(input, start.row, start.carry, end.row - start.row))
    requires low == RowWidth(input, end.row) - end.carry
    ensures Or(Low(word'[l], low), Low(Shl(Shr(word[l], used), low), 32)) == Cell(input, end.row, l)
  {
    RestReads(input, start, end, word, l);
    FieldReads(input, end, next, word', end.row, l);
    FirstRowDecodes(input, end.row, end.carry, l);
  }

  lemma OneField(input: seq<nat>, start: Mark)
    requires start.carry <= RowWidth(input, start.row)
    ensures SumOf(FieldWidths(input, start.row, start.carry, 1)) == RowWidth(input, start.row) - start.carry
  {
  }

  // ----- steps of the selector stream

  /** The last word takes all that is left in the accumulator. */
  lemma Flushed(words: seq<nat>, accumulated: nat, used: nat)
    requires accumulated < Pow2(used) && used <= 32
    ensures Words(words + [Low(accumulated, WORD)], 0) == Words(words, accumulated)
  {
    Pow2Grows(used, WORD);
    LowSmall(accumulated, WORD);
    MovedOut(words, accumulated);
  }

  lemma AllWritten(input: seq<nat>, words: seq<nat>, accumulated: nat, used: nat, ws: seq<nat>, selectors: seq<nat>)
    requires Words32(input) && ws == RowWidths(input, Rows(|input|)) && WrittenTo(accumulated, used, words, ws)
    requires selectors == words + [Low(accumulated, WORD)]
    ensures AreSelectors(input, selectors)
  {
    Flushed(words, accumulated, used);
  }

  /** The words written and the accumulator hold the codes of the widths. */
  ghost predicate WrittenTo(accumulated: nat, used: nat, words: seq<nat>, ws: seq<nat>) {
    AreWidths(ws) && Holds(words, accumulated, used, Lengths(ws), Codes(ws)) && Words32(words) && used <= 32
  }

  lemma CodePushed(accumulated: nat, used: nat, words: seq<nat>, ws: seq<nat>, raw: nat,
                   pushed: nat, accumulated': nat, used': nat, words': seq<nat>)
    requires WrittenTo(accumulated, used, words, ws) && 1 <= raw <= 32
    requires pushed == Or(accumulated, Shl(ZigZag(raw), used + Magnitude(raw)))
    requires if used + CodeLength(raw) > 32
             then words' == words + [Low(pushed, WORD)] && accumulated' == Shr(pushed, WORD)
               && used' == used + CodeLength(raw) - 32
             else words' == words && accumulated' == pushed && used' == used + CodeLength(raw)
    ensures WrittenTo(accumulated', used', words', ws + [raw])
  {
    var more, length, code := ws + [raw], CodeLength(raw), Code(raw);
    OrCode(accumulated, used, raw);
    CodeFits(raw);
    SmallMagnitude(raw);
    CodesSnoc(ws, raw, more);
    PushOn(words, accumulated, used, Lengths(ws), Codes(ws), length, code, pushed, Lengths(more), Codes(more));
    WordOut(pushed, used + length, words, Lengths(more), Codes(more), accumulated', used', words');
  }

  /** A full word leaves the accumulator. */
  lemma WordOut(pushed: nat, bits: nat, words: seq<nat>, lengths: seq<nat>, codes: seq<nat>,
                accumulated': nat, used': nat, words': seq<nat>)
    requires Holds(words, pushed, bits, lengths, codes) && Words32(words) && bits <= 64
    requires if bits > 32
             then words' == words + [Low(pushed, WORD)] && accumulated' == Shr(pushed, WORD) && used' == bits - 32
             else words' == words && accumulated' == pushed && used' == bits
    ensures Holds(words', accumulated', used', lengths, codes) && Words32(words') && used' <= 32
  {
    if bits > 32 {
      MoveOut(words, pushed, bits, lengths, codes, words', accumulated');
    }
  }

  lemma LoadWord(ahead: seq<nat>, accumulated: nat, valid: nat, loaded: nat)
    requires ahead != [] && Words32(ahead) && accumulated < Pow2(valid)
             && loaded == Or(accumulated, Shl(ahead[0], valid))
    ensures loaded < Pow2(valid + 32)
    ensures loaded + Shl(Words(ahead[1..], 0), valid + 32) == accumulated + Shl(Words(ahead, 0), valid)
  {
    var word, rest := ahead[0], Words(ahead[1..], 0);
    WordsCons(ahead);
    LoadBits(accumulated, word, rest, valid, loaded);
  }

  lemma WordsCons(ahead: seq<nat>)
    requires ahead != []
    ensures Words(ahead, 0) == ahead[0] + Shl(Words(ahead[1..], 0), WORD)
  {
    assert Full(|ahead|)[1..] == Full(|ahead[1..]|);
  }

  lemma LoadBits(accumulated: nat, word: nat, rest: nat, valid: nat, loaded: nat)
    requires word < Pow2(32) && accumulated < Pow2(valid) && loaded == Or(accumulated, Shl(word, valid))
    ensures loaded < Pow2(valid + 32)
    ensures loaded + Shl(rest, valid + 32) == accumulated + Shl(word + Shl(rest, WORD), valid)
  {
    OrJoin(accumulated, word, valid);
    JoinFits(accumulated, valid, word, WORD);
    ShlAdd(word, Shl(rest, WORD), valid);
    ShlShl(rest, WORD, valid);
  }

  /** A field is taken off an accumulator that holds all of it. */
  lemma TakeBits(accumulated: nat, valid: nat, ahead: nat, code: nat, length: nat, rest: nat)
    requires accumulated + Shl(ahead, valid) == code + Shl(rest, length) && code < Pow2(length) && length <= valid
    requires accumulated < Pow2(valid)
    ensures accumulated == code + Shl(Shr(accumulated, length), length)
    ensures Shr(accumulated, length) < Pow2(valid - length)
    ensures Shr(accumulated, length) + Shl(ahead, valid - length) == rest
  {
    CodeInAccumulator(accumulated, valid, ahead, code, length, rest);
    ShrFits(accumulated, valid - length, length);
  }

  /** `selector` words were read; what is valid of the accumulator, and the words ahead, are the fields
      from the i-th on, with something above them. */
  ghost predicate ReadTo(accumulated: nat, used: nat, memory: seq<nat>, selector: nat,
                         lengths: seq<nat>, codes: seq<nat>, i: nat, top: nat) {
    && |lengths| == |codes| && Words32(memory) && i <= |lengths| && selector <= |memory| && used <= 64
    && accumulated < Pow2(64 - used)
    && accumulated + Shl(Words(memory[selector..], 0), 64 - used) == Pack(lengths[i..], codes[i..], top)
    && 32 * selector == SumOf(lengths[..i]) + 64 - used
  }

  lemma WordAhead(accumulated: nat, used: nat, memory: seq<nat>, selector: nat,
                  lengths: seq<nat>, codes: seq<nat>, i: nat, top: nat)
    requires ReadTo(accumulated, used, memory, selector, lengths, codes, i, top) && used >= 32
    requires i < |lengths| && lengths[i] >= 1 && SumOf(lengths) + 32 <= 32 * |memory|
    ensures selector < |memory|
  {
    SumPrefix(lengths, i);
  }

  lemma WordLoaded(accumulated: nat, used: nat, memory: seq<nat>, selector: nat,
                   lengths: seq<nat>, codes: seq<nat>, i: nat, top: nat, loaded: nat, used': nat)
    requires ReadTo(accumulated, used, memory, selector, lengths, codes, i, top) && used >= 32 && selector < |memory|
    requires used' == used - 32 && loaded == Or(accumulated, Shl(memory[selector], 32 - used'))
    ensures ReadTo(loaded, used', memory, selector + 1, lengths, codes, i, top)
  {
    var ahead, rest, valid := memory[selector..], memory[selector + 1..], 64 - used;
    assert ahead[1..] == rest && ahead[0] == memory[selector] && valid + 32 == 64 - used';
    LoadWord(ahead, accumulated, valid, loaded);
  }

  /** The next field is in the lowest bits, and without it the rest is left. */
  lemma FieldTaken(accumulated: nat, used: nat, memory: seq<nat>, selector: nat,
                   lengths: seq<nat>, codes: seq<nat>, i: nat, top: nat, accumulated': nat, used': nat)
    requires ReadTo(accumulated, used, memory, selector, lengths, codes, i, top) && i < |lengths|
    requires codes[i] < Pow2(lengths[i]) && used' == used + lengths[i] <= 64
    requires accumulated' == Shr(accumulated, lengths[i])
    ensures accumulated == codes[i] + Shl(accumulated', lengths[i])
    ensures ReadTo(accumulated', used', memory, selector, lengths, codes, i + 1, top)
  {
    var rest := Pack(lengths[i + 1..], codes[i + 1..], top);
    PackCons(lengths, codes, i, top);
    TakeBits(accumulated, 64 - used, Words(memory[selector..], 0), codes[i], lengths[i], rest);
    SumPrefix(lengths, i);
  }

  /** The next width, and what is left without its code. */
  lemma CodeFound(accumulated: nat, used: nat, memory: seq<nat>, selector: nat, ws: seq<nat>, i: nat, top: nat,
                  unary: nat, left: nat)
    requires AreWidths(ws) && ReadTo(accumulated, used, memory, selector, Lengths(ws), Codes(ws), i, top)
    requires i < |ws| && used <= 32 && unary == Magnitude(ws[i]) && left == Shr(accumulated, 2 * unary + 1)
    ensures accumulated > 0 && FirstSet(accumulated) == unary + 1
    ensures Or(Low(Shr(accumulated, unary), unary + 1) / 2, Shl(1, unary)) == ws[i]
    ensures ReadTo(left, used + 2 * unary + 1, memory, selector, Lengths(ws), Codes(ws), i + 1, top)
  {
    var raw := ws[i];
    SmallMagnitude(raw);
    CodeFits(raw);
    FieldTaken(accumulated, used, memory, selector, Lengths(ws), Codes(ws), i, top, left, used + 2 * unary + 1);
    ReadCode(accumulated, left, raw, unary, Code(raw));
  }

  lemma FirstRead(selectors: seq<nat>, memory: seq<nat>, lengths: seq<nat>, codes: seq<nat>) returns (top: nat)
    requires |lengths| == |codes| && Words(selectors, 0) == Pack(lengths, codes, 0)
             && SumOf(lengths) <= 32 * |selectors|
    requires selectors <= memory && Words32(memory)
    ensures ReadTo(0, 64, memory, 0, lengths, codes, 0, top)
  {
    top := MoreWords(selectors, memory[|selectors|..], lengths, codes);
    assert selectors + memory[|selectors|..] == memory == memory[0..];
    assert lengths[0..] == lengths && codes[0..] == codes && lengths[..0] == [];
  }

  lemma FirstWord(input: seq<nat>, payloads: seq<seq<nat>>, marks: seq<Mark>)
    requires IsWholePayload(input, payloads, marks)
    ensures |payloads| >= 1 && InWord(input, payloads, marks, 0, 0, 0, payloads[0])
  {
    assert IsWord(input, marks[0], marks[1], payloads[0]);
  }

  ghost predicate RowsHold(input: seq<nat>, rows: seq<seq<nat>>) {
    AllRows(rows) && forall i :: 0 <= i < |rows| ==> IsRow(input, i, rows[i])
  }

  lemma RowsSnoc(input: seq<nat>, rows: seq<seq<nat>>, row: seq<nat>)
    requires RowsHold(input, rows) && IsRow(input, |rows|, row)
    ensures RowsHold(input, rows + [row])
  {
  }

  lemma RowsAreInput(input: seq<nat>, rows: seq<seq<nat>>)
    requires RowsHold(input, rows) && |input| <= 16 * |rows|
    ensures Flat(rows)[..|input|] == input
  {
    forall i: nat | i < |input| ensures Flat(rows)[i] == input[i] {
      assert IsRow(input, i / 16, rows[i / 16]);
      FlatAt(rows, i / 16, i % 16);
    }
  }

  // ----- the codec

  class Codec {
    var accumulatedSelector: nat
    var selectorBitsUsed: nat

    constructor () {
    }

    ghost predicate Written(words: seq<nat>, ws: seq<nat>)
      reads this
    {
      WrittenTo(accumulatedSelector, selectorBitsUsed, words, ws)
    }

    method PushSelector(words: seq<nat>, raw: nat, ghost ws: seq<nat>) returns (more: seq<nat>)
      requires Written(words, ws) && 1 <= raw <= 32
      modifies this
      ensures Written(more, ws + [raw])
    {
      ghost var used := selectorBitsUsed;
      var width := Magnitude(raw);
      var pushed := Or(accumulatedSelector, Shl(ZigZag(raw), selectorBitsUsed + width));
      var bits := selectorBitsUsed + width + width + 1;
      var kept := pushed;
      more := words;
      if bits > 32 {
        more := words + [Low(pushed, WORD)];
        kept, bits := Shr(pushed, WORD), bits - 32;
      }
      CodePushed(accumulatedSelector, used, words, ws, raw, pushed, kept, bits, more);
      accumulatedSelector, selectorBitsUsed := kept, bits;
    }

    method PushRow(input: seq<nat>, words: seq<nat>, row: nat, width: nat) returns (more: seq<nat>)
      requires Words32(input) && Written(words, RowWidths(input, row)) && width == RowWidth(input, row)
      modifies this
      ensures Written(more, RowWidths(input, row + 1))
    {
      CellFits(input, row, 0);
      assert RowWidths(input, row + 1) == RowWidths(input, row) + [width];
      more := PushSelector(words, width, RowWidths(input, row));
    }

    /** Some slices are in the word, and their widths have been pushed. */
    ghost predicate Slicing(input: seq<nat>, r0: nat, carry: nat, slice: nat, carryover: nat, actualMaxWidth: nat,
                            payload: seq<nat>, encodings: seq<nat>, remaining: nat, words: seq<nat>, pushed: nat)
      reads this
    {
      && Filling(input, r0, carry, slice, payload, encodings) && remaining == 32 - SumOf(encodings)
      && carryover == (if slice == 0 then carry else 0) <= actualMaxWidth
      && (carryover > 0 ==> actualMaxWidth == RowWidth(input, r0))
      && pushed == Pushed(r0 + slice, carryover) && Written(words, RowWidths(input, pushed))
    }

    lemma NothingSliced(input: seq<nat>, r0: nat, carry: nat, actualMaxWidth: nat, payload: seq<nat>, words: seq<nat>)
      requires Words32(input) && r0 < Rows(|input|) && carry < RowWidth(input, r0) && payload == seq(16, i => 0)
      requires actualMaxWidth == (if carry > 0 then RowWidth(input, r0) else 0)
      requires Written(words, RowWidths(input, Pushed(r0, carry)))
      ensures Slicing(input, r0, carry, 0, carry, actualMaxWidth, payload, [], 32, words, Pushed(r0, carry))
    {
      EmptyWord(input, r0, carry, payload);
    }

    /** One turn of the slice loop; the width is pushed unless the row began in the word before. */
    method SliceAndPush(input: seq<nat>, r0: nat, carry: nat, slice: nat, carryover: nat, actualMaxWidth: nat,
                        payload: seq<nat>, encodings: seq<nat>, remaining: nat, words: seq<nat>, ghost pushed: nat)
      returns (payload': seq<nat>, encodings': seq<nat>, integersEncoded: nat, carryover': nat, actualMaxWidth': nat,
               remaining': nat, done: bool, more: seq<nat>, ghost pushed': nat)
      requires Words32(input)
      requires Slicing(input, r0, carry, slice, carryover, actualMaxWidth, payload, encodings, remaining, words, pushed)
      modifies this
      ensures done ==> PackedWord(input, r0, carry, payload', encodings', integersEncoded, carryover', actualMaxWidth')
      ensures done ==> pushed' == Pushed(r0 + |encodings'|, carryover') && Written(more, RowWidths(input, pushed'))
      ensures !done ==> Slicing(input, r0, carry, slice + 1, carryover', actualMaxWidth', payload', encodings',
                                remaining', more, pushed')
      ensures !done ==> remaining' < remaining
    {
      payload', encodings', integersEncoded, carryover', actualMaxWidth', remaining', done :=
        NextSlice(input, r0, carry, slice, carryover, actualMaxWidth, payload, encodings, remaining);
      more, pushed' := PushUnlessCarried(input, r0 + slice, carryover, actualMaxWidth', words, pushed);
    }

    method PushUnlessCarried(input: seq<nat>, row: nat, carryover: nat, width: nat, words: seq<nat>, ghost pushed: nat)
      returns (more: seq<nat>, ghost pushed': nat)
      requires Words32(input) && width == RowWidth(input, row)
      requires pushed == Pushed(row, carryover) && Written(words, RowWidths(input, pushed))
      modifies this
      ensures pushed' == row + 1 && Written(more, RowWidths(input, pushed'))
    {
      more, pushed' := words, row + 1;
      if carryover == 0 {
        more := PushRow(input, more, row, width);
      }
    }

    /** Packs rows into one word from row r0 on, and pushes the widths of the rows that start in it. */
    method PackWord(input: seq<nat>, r0: nat, carry: nat, rowWidth: nat, words: seq<nat>)
      returns (payload: seq<nat>, encodings: seq<nat>, integersEncoded: nat, carryover: nat, actualMaxWidth: nat,
               more: seq<nat>, ghost pushed: nat)
      requires Words32(input) && r0 < Rows(|input|) && carry < RowWidth(input, r0)
      requires carry > 0 ==> rowWidth == RowWidth(input, r0)
      requires Written(words, RowWidths(input, Pushed(r0, carry)))
      modifies this
      ensures PackedWord(input, r0, carry, payload, encodings, integersEncoded, carryover, actualMaxWidth)
      ensures Written(more, RowWidths(input, pushed)) && pushed == Pushed(r0 + |encodings|, carryover)
    {
      payload := seq(16, i => 0);
      encodings, integersEncoded, more, pushed := [], 0, words, Pushed(r0, carry);
      carryover, actualMaxWidth := carry, if carry > 0 then rowWidth else 0;
      var slice, remaining := 0, 32;
      NothingSliced(input, r0, carry, actualMaxWidth, payload, words);
      while true
        invariant Slicing(input, r0, carry, slice, carryover, actualMaxWidth, payload, encodings, remaining, more,
                          pushed)
        decreases remaining
      {
        var done;
        payload, encodings, integersEncoded, carryover, actualMaxWidth, remaining, done, more, pushed :=
          SliceAndPush(input, r0, carry, slice, carryover, actualMaxWidth, payload, encodings, remaining, more, pushed);
        if done {
          return;
        }
        slice := slice + 1;
      }
    }

    /** The payload of the rows before the mark, and the stream of the widths pushed so far. */
    ghost predicate Encoding(input: seq<nat>, payloads: seq<seq<nat>>, selectors: seq<nat>, marks: seq<Mark>, end: Mark)
      reads this
    {
      && IsPayload(input, payloads, marks) && marks[|payloads|] == end && end.carry < RowWidth(input, end.row)
      && Written(selectors, RowWidths(input, Pushed(end.row, end.carry)))
    }

    /** One word more. */
    method WriteWord(input: seq<nat>, payloads: seq<seq<nat>>, selectors: seq<nat>, r: nat, carry: nat, rowWidth: nat,
                     ghost marks: seq<Mark>)
      returns (more: seq<seq<nat>>, selectors': seq<nat>, rows: nat, integersEncoded: nat, carryover: nat,
               actualMaxWidth: nat,
               ghost marks': seq<Mark>)
      requires Words32(input) && r < Rows(|input|) && Encoding(input, payloads, selectors, marks, Mark(r, carry))
      requires Carries(input, r, carry, rowWidth)
      modifies this
      ensures |more| == |payloads| + 1 && Encoding(input, more, selectors', marks', Mark(r + rows, carryover))
      ensures 1 <= rows && r + rows <= Rows(|input|) && Carries(input, r + rows, carryover, actualMaxWidth)
      ensures integersEncoded == if r + rows == Rows(|input|) then |input| - 16 * r else 16 * rows
    {
      var payload, encodings;
      ghost var pushed;
      payload, encodings, integersEncoded, carryover, actualMaxWidth, selectors', pushed :=
        PackWord(input, r, carry, rowWidth, selectors);
      rows := |encodings|;
      ghost var end := Mark(r + rows, carryover);
      WordPacked(input, payloads, marks, Mark(r, carry), end, payload, encodings, integersEncoded, actualMaxWidth);
      more, marks' := payloads + [payload], marks + [end];
    }

    /** The payload words, or as many as the buffer of `capacity` 32-bit words has room for, and the
        selector words in the order in which they are written downwards. */
    method EncodeWithin(input: seq<nat>, capacity: nat)
      returns (ok: bool, payloads: seq<seq<nat>>, selectors: seq<nat>, ghost marks: seq<Mark>)
      requires Words32(input)
      modifies this
      ensures IsPayload(input, payloads, marks)
      ensures ok ==> IsWholePayload(input, payloads, marks) && AreSelectors(input, selectors)
                     && 16 * |payloads| <= capacity
      ensures !ok ==> marks[|payloads|].row < Rows(|input|) && 16 * (|payloads| + 1) > capacity
    {
      selectorBitsUsed, accumulatedSelector := 0, 0;
      ok, payloads, selectors, marks := false, [], [], [Mark(0, 0)];
      var r: nat, start, carryover: nat, actualMaxWidth: nat := 0, 0, 0, 0;
      CellFits(input, 0, 0);
      while true
        invariant r < Rows(|input|) && start == 16 * r
                  && Encoding(input, payloads, selectors, marks, Mark(r, carryover))
        invariant Carries(input, r, carryover, actualMaxWidth)
        decreases Rows(|input|) - r
      {
        if 16 * |payloads| + 16 > capacity {
          return;
        }
        var rows, integersEncoded;
        payloads, selectors, rows, integersEncoded, carryover, actualMaxWidth, marks :=
          WriteWord(input, payloads, selectors, r, carryover, actualMaxWidth, marks);
        r := r + rows;
        start := start + integersEncoded;
        if start == |input| {
          break;
        }
      }
      selectors := Flush(input, payloads, selectors, marks);
      ok := true;
    }

    /** The last selector word. */
    method Flush(input: seq<nat>, ghost payloads: seq<seq<nat>>, selectors: seq<nat>, ghost marks: seq<Mark>)
      returns (all: seq<nat>)
      requires Words32(input) && Encoding(input, payloads, selectors, marks, Mark(Rows(|input|), 0))
      ensures AreSelectors(input, all)
    {
      all := selectors + [Low(accumulatedSelector, WORD)];
      AllWritten(input, selectors, accumulatedSelector, selectorBitsUsed, RowWidths(input, Rows(|input|)), all);
    }

    /** Encodes the whole input; fails if and only if the payload does not fit in the buffer. */
    method Encode(input: seq<nat>, capacity: nat)
      returns (ok: bool, payloads: seq<seq<nat>>, selectors: seq<nat>, ghost marks: seq<Mark>)
      requires Words32(input)
      modifies this
      ensures ok ==> IsWholePayload(input, payloads, marks) && AreSelectors(input, selectors)
      ensures forall q, ms :: IsWholePayload(input, q, ms) ==> (ok <==> 16 * |q| <= capacity)
      ensures 16 * Rows(|input|) <= capacity ==> ok
    {
      ok, payloads, selectors, marks := EncodeWithin(input, capacity);
      forall q, ms | IsWholePayload(input, q, ms) ensures ok <==> 16 * |q| <= capacity {
        if ok {
          PayloadIsUnique(input, q, ms, payloads, marks);
        } else {
          PartIsShorter(input, payloads, marks, q, ms);
        }
      }
      FewWords(input, payloads, marks, |payloads|);
    }

    // ----- decoding

    ghost predicate Reading(memory: seq<nat>, selector: nat, ws: seq<nat>, i: nat, top: nat)
      reads this
    {
      AreWidths(ws) && ReadTo(accumulatedSelector, selectorBitsUsed, memory, selector, Lengths(ws), Codes(ws), i, top)
    }

    /** Reads the i-th width; at most one word past those of the stream is loaded. */
    method DecodeSelector(memory: seq<nat>, selector: nat, ghost ws: seq<nat>, ghost i: nat, ghost top: nat)
      returns (decoded: nat, next: nat)
      requires Reading(memory, selector, ws, i, top) && i < |ws| && StreamLength(ws) + 32 <= 32 * |memory|
      modifies this
      ensures decoded == ws[i] && Reading(memory, next, ws, i + 1, top)
    {
      next := selector;
      if selectorBitsUsed >= 32 {
        ghost var was, bits := accumulatedSelector, selectorBitsUsed;
        WordAhead(was, bits, memory, selector, Lengths(ws), Codes(ws), i, top);
        selectorBitsUsed := selectorBitsUsed - 32;
        accumulatedSelector := Or(accumulatedSelector, Shl(memory[selector], 32 - selectorBitsUsed));
        WordLoaded(was, bits, memory, selector, Lengths(ws), Codes(ws), i, top, accumulatedSelector, selectorBitsUsed);
        next := next + 1;
      }
      decoded := TakeSelector(memory, next, ws, i, top);
    }

    /** The width whose code is lowest in the accumulator. */
    method TakeSelector(ghost memory: seq<nat>, ghost next: nat, ghost ws: seq<nat>, ghost i: nat, ghost top: nat)
      returns (decoded: nat)
      requires Reading(memory, next, ws, i, top) && i < |ws| && selectorBitsUsed <= 32
      modifies this
      ensures decoded == ws[i] && Reading(memory, next, ws, i + 1, top)
    {
      var accumulated, used := accumulatedSelector, selectorBitsUsed;
      ghost var magnitude := Magnitude(ws[i]);
      CodeFound(accumulated, used, memory, next, ws, i, top, magnitude, Shr(accumulated, 2 * magnitude + 1));
      var unary := FirstSet(accumulated) - 1;
      decoded := Or(Low(Shr(accumulated, unary), unary + 1) / 2, Shl(1, unary));
      var left, bits := Shr(accumulated, 2 * unary + 1), used + 2 * unary + 1;
      accumulatedSelector, selectorBitsUsed := left, bits;
    }

    /** One row: it lies within the current word, or its high bits end this word and its low bits start
        the next. */
    method DecodeRow(source: seq<seq<nat>>, word: nat, used: nat, payload: seq<nat>, width: nat,
                     ghost input: seq<nat>, ghost payloads: seq<seq<nat>>, ghost marks: seq<Mark>, ghost i: nat)
      returns (row: seq<nat>, word': nat, used': nat, payload': seq<nat>)
      requires Words32(input) && IsWholePayload(input, payloads, marks) && payloads <= source
      requires InWord(input, payloads, marks, word, i, used, payload)
      requires i < Rows(|input|) && width == RowWidth(input, i)
      ensures IsRow(input, i, row) && InWord(input, payloads, marks, word', i + 1, used', payload')
    {
      if used + width <= 32 {
        row, word', used', payload' := Mask(payload, width), word, used + width, ShiftRight(payload, width);
        WholeRow(input, payloads, marks, word, i, used, payload, width, row, used', payload');
      } else {
        MoreWordsAhead(input, payloads, marks, word, i, used, payload);
        var highBits := ShiftLeft(payload, width - (32 - used));
        word', used' := word + 1, used + width - 32;
        assert source[word'] == payloads[word'];
        row := OrLanes(Mask(source[word'], used'), highBits);
        payload' := ShiftRight(source[word'], used');
        CrossingRow(input, payloads, marks, word, i, used, payload, width, row, word', used', payload');
      }
    }

    /** Decodes n integers from the words upwards from the start of the encoding, the first of which are
        the payload, and from the memory downwards from its end, which holds the selector words and then
        at least one word that the encoder left unused. */
    method Decode(n: nat, source: seq<seq<nat>>, memory: seq<nat>,
                  ghost input: seq<nat>, ghost payloads: seq<seq<nat>>, ghost marks: seq<Mark>,
                  ghost selectors: seq<nat>)
      returns (rows: seq<seq<nat>>)
      requires n == |input| && IsWholePayload(input, payloads, marks) && AreSelectors(input, selectors)
      requires payloads <= source && selectors < memory && Words32(memory)
      modifies this
      ensures AllRows(rows) && n <= |Flat(rows)| && Flat(rows)[..n] == input
    {
      ghost var ws := RowWidths(input, Rows(n));
      rows := [];
      accumulatedSelector, selectorBitsUsed := 0, 64;
      ghost var top := FirstRead(selectors, memory, Lengths(ws), Codes(ws));
      FirstWord(input, payloads, marks);
      assert source[0] == payloads[0];
      var used, payload, word, selector := 0, source[0], 0, 0;
      while 16 * |rows| < n
        invariant |rows| <= Rows(n) && RowsHold(input, rows)
        invariant InWord(input, payloads, marks, word, |rows|, used, payload)
        invariant Reading(memory, selector, ws, |rows|, top)
      {
        var width, row;
        width, selector := DecodeSelector(memory, selector, ws, |rows|, top);
        row, word, used, payload := DecodeRow(source, word, used, payload, width, input, payloads, marks, |rows|);
        RowsSnoc(input, rows, row);
        rows := rows + [row];
      }
      RowsAreInput(input, rows);
    }
  }
}
