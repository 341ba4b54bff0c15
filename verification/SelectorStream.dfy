/** The row widths of Group Elias Delta as one stream of bits: each width in Elias delta style (its
    length in unary, then a mark, then its bits below the top one), the first width lowest. */
module SelectorStream {
  import opened Bits

  /** The bits of a word. */
  const WORD: nat := 32

  /** `floor_log2` */
  function Magnitude(raw: nat): nat
    requires raw >= 1
  {
    BitLength(raw) - 1
  }

  /** The bits below the top one, above a mark. */
  function ZigZag(raw: nat): nat
    requires raw >= 1
  {
    2 * Low(raw, Magnitude(raw)) + 1
  }

  function CodeLength(raw: nat): nat
    requires raw >= 1
  {
    2 * Magnitude(raw) + 1
  }

  /** As many zeroes as there are bits below the top one, then the mark and those bits. */
  function Code(raw: nat): nat
    requires raw >= 1
  {
    Shl(ZigZag(raw), Magnitude(raw))
  }

  ghost predicate AreWidths(ws: seq<nat>) {
    forall i :: 0 <= i < |ws| ==> 1 <= ws[i] <= 32
  }

  function Lengths(ws: seq<nat>): (r: seq<nat>)
    requires AreWidths(ws)
    ensures |r| == |ws|
  {
    seq(|ws|, i requires 0 <= i < |ws| => CodeLength(ws[i]))
  }

  function Codes(ws: seq<nat>): (r: seq<nat>)
    requires AreWidths(ws)
    ensures |r| == |ws|
  {
    seq(|ws|, i requires 0 <= i < |ws| => Code(ws[i]))
  }

  /** The codes of the widths, with `top` above them. */
  function Stream(ws: seq<nat>, top: nat): nat
    requires AreWidths(ws)
  {
    Pack(Lengths(ws), Codes(ws), top)
  }

  function StreamLength(ws: seq<nat>): nat
    requires AreWidths(ws)
  {
    SumOf(Lengths(ws))
  }

  function Full(n: nat): (r: seq<nat>)
    ensures |r| == n
  {
    seq(n, i => WORD)
  }

  /** 32-bit words, with `top` above them. */
  function Words(words: seq<nat>, top: nat): nat {
    Pack(Full(|words|), words, top)
  }

  // ----- one code

  /** v is its top bit, 2^m, and the bits below it. */
  ghost predicate HasTop(v: nat, m: nat) {
    Low(v, m) + Pow2(m) == v && Pow2(m) <= v < Pow2(m + 1)
  }

  lemma TopOfHalf(v: nat, m: nat)
    requires HasTop(v / 2, m)
    ensures HasTop(v, m + 1)
  {
    var half, bit := v / 2, v % 2;
    assert v == 2 * half + bit && Low(v, m + 1) == bit + 2 * Low(half, m);
  }

  lemma {:induction false} TopBit(raw: nat, m: nat)
    requires raw >= 1 && BitLength(raw) == m + 1
    ensures HasTop(raw, m)
    decreases m
  {
    var half := raw / 2;
    assert BitLength(raw) == 1 + BitLength(half);
    if half == 0 {
      assert raw == 1 && m == 0;
    } else {
      assert m > 0;
      TopBit(half, m - 1);
      TopOfHalf(raw, m - 1);
    }
  }

  lemma SmallMagnitude(raw: nat)
    requires 1 <= raw <= 32
    ensures Magnitude(raw) <= 5 && CodeLength(raw) <= 11
  {
    assert Pow2(6) == 64;
    BitLengthAtMost(raw, 6);
  }

  lemma CodeFits(raw: nat)
    requires raw >= 1
    ensures ZigZag(raw) < Pow2(Magnitude(raw) + 1) && Code(raw) < Pow2(CodeLength(raw))
  {
    ShlFits(ZigZag(raw), Magnitude(raw) + 1, Magnitude(raw));
  }

  /** The code of a width between 2^m and 2^(m + 1): m zeroes, a mark, and what it is above 2^m. */
  lemma CodeIs(raw: nat, m: nat)
    requires Pow2(m) <= raw < Pow2(m + 1)
    ensures Magnitude(raw) == m && CodeLength(raw) == 2 * m + 1
    ensures Code(raw) == (2 * (raw - Pow2(m)) + 1) * Pow2(m)
  {
    BitLengthIs(raw, m + 1);
    BitLengthIs(raw, m);
    TopBit(raw, m);
    ShlIsTimes(ZigZag(raw), m);
  }

  lemma {:induction false} ShlIsTimes(v: nat, s: nat)
    ensures Shl(v, s) == v * Pow2(s)
  {
    if s > 0 {
      ShlIsTimes(v, s - 1);
    }
  }

  // ----- writing

  lemma CodesSnoc(ws: seq<nat>, raw: nat, more: seq<nat>)
    requires AreWidths(ws) && 1 <= raw <= 32 && more == ws + [raw]
    ensures AreWidths(more) && Lengths(more) == Lengths(ws) + [CodeLength(raw)]
            && Codes(more) == Codes(ws) + [Code(raw)]
  {
  }

  lemma {:induction false} FullSum(n: nat)
    ensures SumOf(Full(n)) == 32 * n
  {
    if n > 0 {
      FullSum(n - 1);
      assert Full(n)[1..] == Full(n - 1);
    }
  }

  lemma WordsTop(words: seq<nat>, top: nat)
    ensures Words(words, top) == Words(words, 0) + Shl(top, 32 * |words|)
  {
    PackTop(Full(|words|), words, top);
    FullSum(|words|);
  }

  /** One more field on top. */
  lemma PackGrows(lengths: seq<nat>, codes: seq<nat>, length: nat, code: nat)
    requires |lengths| == |codes|
    ensures Pack(lengths + [length], codes + [code], 0) == Pack(lengths, codes, 0) + Shl(code, SumOf(lengths))
  {
    PackOneMore(lengths, codes, length, code);
    PackTop(lengths, codes, code);
  }

  lemma WordsAdd(words: seq<nat>, accumulated: nat, x: nat, used: nat)
    ensures Words(words, accumulated + Shl(x, used)) == Words(words, accumulated) + Shl(x, used + 32 * |words|)
  {
    var room := 32 * |words|;
    WordsTop(words, accumulated);
    WordsTop(words, accumulated + Shl(x, used));
    ShlAdd(accumulated, Shl(x, used), room);
    ShlShl(x, used, room);
  }

  lemma OrCode(accumulated: nat, used: nat, raw: nat)
    requires raw >= 1 && accumulated < Pow2(used)
    ensures var pushed := Or(accumulated, Shl(ZigZag(raw), used + Magnitude(raw)));
            pushed == accumulated + Shl(Code(raw), used) && pushed < Pow2(used + CodeLength(raw))
  {
    CodeFits(raw);
    ShlShl(ZigZag(raw), Magnitude(raw), used);
    OrJoin(accumulated, Code(raw), used);
    JoinFits(accumulated, used, Code(raw), CodeLength(raw));
  }

  /** The words and `bits` bits above them are the fields. */
  ghost predicate Holds(words: seq<nat>, accumulated: nat, bits: nat, lengths: seq<nat>, codes: seq<nat>) {
    && |lengths| == |codes| && accumulated < Pow2(bits)
    && Words(words, accumulated) == Pack(lengths, codes, 0) && 32 * |words| + bits == SumOf(lengths)
  }

  /** Another field above the bits in use. */
  lemma PushOn(words: seq<nat>, accumulated: nat, used: nat, lengths: seq<nat>, codes: seq<nat>, length: nat, code: nat,
               pushed: nat, lengths': seq<nat>, codes': seq<nat>)
    requires Holds(words, accumulated, used, lengths, codes) && code < Pow2(length)
    requires pushed == accumulated + Shl(code, used) && lengths' == lengths + [length] && codes' == codes + [code]
    ensures Holds(words, pushed, used + length, lengths', codes')
  {
    JoinFits(accumulated, used, code, length);
    PackGrows(lengths, codes, length, code);
    SumSnoc(lengths, length);
    WordsAdd(words, accumulated, code, used);
  }

  /** Moving the 32 low bits out as a word changes nothing. */
  lemma MoveOut(words: seq<nat>, accumulated: nat, bits: nat, lengths: seq<nat>, codes: seq<nat>,
                words': seq<nat>, accumulated': nat)
    requires Holds(words, accumulated, bits, lengths, codes) && bits >= 32
    requires words' == words + [Low(accumulated, WORD)] && accumulated' == Shr(accumulated, WORD)
    ensures Holds(words', accumulated', bits - 32, lengths, codes)
  {
    MovedOut(words, accumulated);
    ShrFits(accumulated, bits - 32, WORD);
  }

  lemma MovedOut(words: seq<nat>, accumulated: nat)
    ensures Words(words + [Low(accumulated, WORD)], Shr(accumulated, WORD)) == Words(words, accumulated)
  {
    Split(accumulated, WORD);
    assert Full(|words| + 1) == Full(|words|) + [WORD];
    PackSnoc(Full(|words|), words, WORD, Low(accumulated, WORD), Shr(accumulated, WORD));
  }

  // ----- reading

  /** Words that hold a stream, and more words after them: the stream, with something above it. */
  lemma MoreWords(words: seq<nat>, more: seq<nat>, lengths: seq<nat>, codes: seq<nat>) returns (top: nat)
    requires |lengths| == |codes| && Words(words, 0) == Pack(lengths, codes, 0) && SumOf(lengths) <= 32 * |words|
    ensures Words(words + more, 0) == Pack(lengths, codes, top)
  {
    var room := 32 * |words| - SumOf(lengths);
    WordsJoin(words, more);
    WordsTop(words, Words(more, 0));
    top := Shl(Words(more, 0), room);
    PackTop(lengths, codes, top);
    ShlShl(Words(more, 0), room, SumOf(lengths));
  }

  lemma {:induction false} WordsJoin(words: seq<nat>, more: seq<nat>)
    ensures Words(words + more, 0) == Words(words, Words(more, 0))
  {
    if words == [] {
      assert words + more == more;
    } else {
      WordsJoin(words[1..], more);
      assert (words + more)[1..] == words[1..] + more;
      assert Full(|words + more|)[1..] == Full(|words[1..] + more|);
      assert Full(|words|)[1..] == Full(|words[1..]|);
    }
  }

  lemma PackCons(lengths: seq<nat>, codes: seq<nat>, i: nat, top: nat)
    requires |lengths| == |codes| && i < |lengths|
    ensures Pack(lengths[i..], codes[i..], top) ==
            codes[i] + Shl(Pack(lengths[i + 1..], codes[i + 1..], top), lengths[i])
  {
    assert lengths[i..][1..] == lengths[i + 1..] && codes[i..][1..] == codes[i + 1..];
  }

  lemma SumPrefix(lengths: seq<nat>, i: nat)
    requires i < |lengths|
    ensures SumOf(lengths[..i + 1]) == SumOf(lengths[..i]) + lengths[i] <= SumOf(lengths)
  {
    assert lengths[..i + 1] == lengths[..i] + [lengths[i]];
    SumSnoc(lengths[..i], lengths[i]);
    assert lengths == lengths[..i + 1] + lengths[i + 1..];
    SumJoin(lengths[..i + 1], lengths[i + 1..]);
  }

  /** A code that lies within the valid low bits of the accumulator is in its lowest bits, and taking
      it off leaves the rest of the stream. */
  lemma CodeInAccumulator(accumulated: nat, valid: nat, ahead: nat, code: nat, length: nat, rest: nat)
    requires accumulated + Shl(ahead, valid) == code + Shl(rest, length) && code < Pow2(length) && length <= valid
    ensures accumulated == code + Shl(Shr(accumulated, length), length)
    ensures Shr(accumulated, length) + Shl(ahead, valid - length) == rest
  {
    Split(accumulated, length);
    var high, above := Shr(accumulated, length), Shl(ahead, valid - length);
    ShlShl(ahead, valid - length, length);
    ShlAdd(high, above, length);
    Join(Low(accumulated, length), high + above, length);
    Join(code, rest, length);
  }

  lemma FindZigZag(accumulated: nat, high: nat, width: nat, zigZag: nat)
    requires zigZag % 2 == 1 && zigZag < Pow2(width + 1)
    requires accumulated == Shl(zigZag, width) + Shl(high, 2 * width + 1)
    ensures accumulated > 0 && FirstSet(accumulated) == width + 1
    ensures Low(Shr(accumulated, width), width + 1) == zigZag
  {
    var above := Shl(high, width + 1);
    ShlShl(high, width + 1, width);
    ShlAdd(zigZag, above, width);
    FirstSetOfShl(zigZag + above, width);
    Pow2Grows(0, width);
    Join(0, zigZag + above, width);
    Join(zigZag, high, width + 1);
  }

  lemma FromZigZag(raw: nat)
    requires raw >= 1
    ensures Or(ZigZag(raw) / 2, Shl(1, Magnitude(raw))) == raw
  {
    var m := Magnitude(raw);
    TopBit(raw, m);
    var below := Low(raw, m);
    assert ZigZag(raw) / 2 == below;
    OrJoin(below, 1, m);
    ShlOne(m);
  }

  /** The width read from an accumulator with a code in its lowest bits. */
  lemma ReadCode(accumulated: nat, high: nat, raw: nat, unary: nat, code: nat)
    requires raw >= 1 && unary == Magnitude(raw) && code == Code(raw)
    requires accumulated == code + Shl(high, 2 * unary + 1)
    ensures accumulated > 0 && FirstSet(accumulated) == unary + 1
    ensures Or(Low(Shr(accumulated, unary), unary + 1) / 2, Shl(1, unary)) == raw
  {
    CodeFits(raw);
    FindZigZag(accumulated, high, unary, ZigZag(raw));
    FromZigZag(raw);
  }
}
