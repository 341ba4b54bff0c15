/** Group Elias Gamma and Group Elias Delta in the postings file: their 32-bit words as bytes. */
module EliasBytes {
  import opened Bits
  import opened GroupElias
  import opened Memory
  import opened Payload
  import opened Simd
  import Delta
  import Gamma

  // ----- gamma: each selector is followed by its payload

  function WordsOf(words: seq<Gamma.CodeWord>): seq<nat> {
    if words == [] then [] else [words[0].selector] + words[0].payload + WordsOf(words[1..])
  }

  function Parsed(values: seq<nat>): seq<Gamma.CodeWord>
    decreases |values|
  {
    if |values| < 17 then [] else [Gamma.CodeWord(values[0], values[1..17])] + Parsed(values[17..])
  }

  lemma {:induction false} ParsedWords(words: seq<Gamma.CodeWord>)
    requires Gamma.Lanes(words)
    ensures |WordsOf(words)| == 17 * |words| && Parsed(WordsOf(words)) == words
  {
    if words != [] {
      var values, rest := WordsOf(words), WordsOf(words[1..]);
      ParsedWords(words[1..]);
      assert values[0] == words[0].selector && values[1..17] == words[0].payload && values[17..] == rest;
    }
  }

  ghost predicate AllFit(words: seq<Gamma.CodeWord>) {
    forall k :: 0 <= k < |words| ==> words[k].selector < Pow2(32) && Words32(words[k].payload)
  }

  lemma {:induction false} ValuesFit(words: seq<Gamma.CodeWord>)
    requires AllFit(words)
    ensures Words32(WordsOf(words))
  {
    if words != [] {
      ValuesFit(words[1..]);
    }
  }

  lemma WordsFit(input: seq<nat>, words: seq<Gamma.CodeWord>, marks: seq<Mark>)
    requires Words32(input) && IsPayload(input, Gamma.Payloads(words), marks) && Gamma.Selectors32(words)
    ensures AllFit(words)
  {
    forall k: nat | k < |words| ensures Words32(words[k].payload) {
      assert IsWord(input, marks[k], marks[k + 1], Gamma.Payloads(words)[k]);
      LanesFit(input, marks[k], marks[k + 1], words[k].payload);
    }
  }

  ghost predicate HoldsGamma(bytes: seq<nat>, input: seq<nat>, words: seq<Gamma.CodeWord>) {
    && words != [] && AllFit(words) && Gamma.EncodedTo(input, words, Rows(|input|), 0)
    && bytes == Store(WordsOf(words), 4)
  }

  ghost predicate IsGamma(bytes: seq<nat>, input: seq<nat>) {
    exists words :: HoldsGamma(bytes, input, words)
  }

  /** The words and one more fit in a buffer of so many bytes. */
  ghost predicate GammaFits(input: seq<nat>, capacity: nat) {
    exists q, ms :: IsWholePayload(input, q, ms) && 17 * |q| + 1 <= capacity / 4
  }

  method EncodeGamma(input: seq<nat>, capacity: nat) returns (bytes: seq<nat>)
    requires Words32(input)
    ensures if GammaFits(input, capacity) then IsGamma(bytes, input) else bytes == []
  {
    ghost var marks;
    var words;
    words, marks := Gamma.Encode(input, capacity / 4);
    bytes := Store(WordsOf(words), 4);
    if words != [] {
      assert IsWholePayload(input, Gamma.Payloads(words), marks);
      WordsFit(input, words, marks);
      assert HoldsGamma(bytes, input, words);
    }
  }

  lemma GammaHasBytes(bytes: seq<nat>, input: seq<nat>)
    requires IsGamma(bytes, input)
    ensures bytes != []
  {
    var words :| HoldsGamma(bytes, input, words);
    ParsedWords(words);
    StoreLength(WordsOf(words), 4);
  }

  method DecodeGamma(bytes: seq<nat>, n: nat, ghost input: seq<nat>) returns (decoded: seq<nat>)
    requires IsGamma(bytes, input) && n == |input|
    ensures n <= |decoded| && decoded[..n] == input
  {
    ghost var words :| HoldsGamma(bytes, input, words);
    ValuesFit(words);
    LoadAll(WordsOf(words), 4, bytes);
    ParsedWords(words);
    var values := Load(bytes, 4, |bytes| / 4);
    var rows := Gamma.Decode(Parsed(values));
    Gamma.RoundTrip(input, words, rows);
    decoded := Flat(rows);
  }

  // ----- delta: the payload, sixteen unused words, and the selectors downwards

  function EncodingOf(payloads: seq<seq<nat>>, stale: seq<nat>, selectors: seq<nat>): seq<nat> {
    Flatten(payloads) + stale + Reversed(selectors)
  }

  function InSixteens(values: seq<nat>): seq<seq<nat>>
    decreases |values|
  {
    if |values| < 16 then [] else [values[..16]] + InSixteens(values[16..])
  }

  lemma {:induction false} SixteensOf(payloads: seq<seq<nat>>, more: seq<nat>)
    requires AllRows(payloads)
    ensures payloads <= InSixteens(Flatten(payloads) + more)
  {
    if payloads != [] {
      var rest := payloads[1..];
      SixteensOf(rest, more);
      Assoc(payloads[0], Flatten(rest), more);
      var values := payloads[0] + (Flatten(rest) + more);
      assert values[..16] == payloads[0] && values[16..] == Flatten(rest) + more;
    }
  }

  lemma {:induction false} FlattenFits(payloads: seq<seq<nat>>)
    requires forall k :: 0 <= k < |payloads| ==> Words32(payloads[k])
    ensures Words32(Flatten(payloads))
  {
    if payloads != [] {
      FlattenFits(payloads[1..]);
    }
  }

  lemma PayloadFits(input: seq<nat>, payloads: seq<seq<nat>>, marks: seq<Mark>)
    requires Words32(input) && IsPayload(input, payloads, marks)
    ensures AllRows(payloads) && Words32(Flatten(payloads))
  {
    forall k: nat | k < |payloads| ensures |payloads[k]| == 16 && Words32(payloads[k]) {
      assert IsWord(input, marks[k], marks[k + 1], payloads[k]);
      LanesFit(input, marks[k], marks[k + 1], payloads[k]);
    }
    FlattenFits(payloads);
  }

  ghost predicate HoldsDelta(bytes: seq<nat>, input: seq<nat>, payloads: seq<seq<nat>>, marks: seq<Mark>,
                             stale: seq<nat>, selectors: seq<nat>) {
    && IsWholePayload(input, payloads, marks) && Delta.AreSelectors(input, selectors)
    && |stale| == 16 && Words32(stale) && bytes == Store(EncodingOf(payloads, stale, selectors), 4)
  }

  ghost predicate IsDelta(bytes: seq<nat>, input: seq<nat>) {
    exists payloads, marks, stale, selectors :: HoldsDelta(bytes, input, payloads, marks, stale, selectors)
  }

  /** The payload fits in a buffer of so many bytes. */
  ghost predicate DeltaFits(input: seq<nat>, capacity: nat) {
    exists q, ms :: IsWholePayload(input, q, ms) && 16 * |q| <= capacity / 4
  }

  /** `stale` is what the buffer holds where nothing is written. */
  method EncodeDelta(input: seq<nat>, capacity: nat, stale: seq<nat>) returns (bytes: seq<nat>)
    requires Words32(input) && |stale| == 16 && Words32(stale)
    ensures if DeltaFits(input, capacity) then IsDelta(bytes, input) else bytes == []
  {
    var codec := new Delta.Codec();
    var ok, payloads, selectors;
    ghost var marks;
    ok, payloads, selectors, marks := codec.Encode(input, capacity / 4);
    if ok {
      bytes := Store(EncodingOf(payloads, stale, selectors), 4);
      assert HoldsDelta(bytes, input, payloads, marks, stale, selectors);
      assert IsWholePayload(input, payloads, marks);
    } else {
      bytes := [];
    }
  }

  /** The selectors as the decoder finds them, downwards from the end. */
  lemma FromTheEnd(before: seq<nat>, selectors: seq<nat>)
    requires before != []
    ensures selectors < Reversed(before + Reversed(selectors))
  {
  }

  lemma EncodingFits(payloads: seq<seq<nat>>, stale: seq<nat>, selectors: seq<nat>)
    requires Words32(Flatten(payloads)) && Words32(stale) && Words32(selectors)
    ensures Words32(EncodingOf(payloads, stale, selectors)) && Words32(Reversed(EncodingOf(payloads, stale, selectors)))
  {
  }

  lemma DeltaHasBytes(bytes: seq<nat>, input: seq<nat>)
    requires IsDelta(bytes, input)
    ensures bytes != []
  {
    var payloads, marks, stale, selectors :| HoldsDelta(bytes, input, payloads, marks, stale, selectors);
    StoreLength(EncodingOf(payloads, stale, selectors), 4);
  }

  method DecodeDelta(bytes: seq<nat>, n: nat, ghost input: seq<nat>) returns (decoded: seq<nat>)
    requires IsDelta(bytes, input) && n == |input|
    ensures n <= |decoded| && decoded[..n] == input
  {
    ghost var payloads, marks, stale, selectors :| HoldsDelta(bytes, input, payloads, marks, stale, selectors);
    ghost var encoding := EncodingOf(payloads, stale, selectors);
    PayloadFits(input, payloads, marks);
    EncodingFits(payloads, stale, selectors);
    LoadAll(encoding, 4, bytes);
    var values := Load(bytes, 4, |bytes| / 4);
    Assoc(Flatten(payloads), stale, Reversed(selectors));
    SixteensOf(payloads, stale + Reversed(selectors));
    FromTheEnd(Flatten(payloads) + stale, selectors);
    var codec := new Delta.Codec();
    var rows := codec.Decode(n, InSixteens(values), Reversed(values), input, payloads, marks, selectors);
    decoded := Flat(rows);
  }
}
