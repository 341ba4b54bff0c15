/** Variable-byte codes: seven bits to a byte, the highest first, and the last byte marked. */
module VByte {
  import opened Bits
  import Gaps

  function Needed(v: nat): (r: nat)
    ensures r >= 1
    decreases v
  {
    if v < 128 then 1 else
      ShrSmaller(v);
      1 + Needed(Shr(v, 7))
  }

  lemma ShrSmaller(v: nat)
    requires v >= 1
    ensures Shr(v, 7) < v
  {
    assert Shr(v, 7) == Shr(v / 2, 6);
    ShrAtMost(v / 2, 6);
  }

  /** Byte j of the k bytes of v. */
  function ByteOf(v: nat, k: nat, j: nat): nat
    requires j < k
  {
    Low(Shr(v, 7 * (k - 1 - j)), 7) + if j == k - 1 then 128 else 0
  }

  function Code(v: nat): (r: seq<nat>)
    ensures |r| == Needed(v)
  {
    seq(Needed(v), j requires 0 <= j < Needed(v) => ByteOf(v, Needed(v), j))
  }

  /** The codes of the values, one after the other. */
  function Codes(vs: seq<nat>): seq<nat> {
    if vs == [] then [] else Code(vs[0]) + Codes(vs[1..])
  }

  // ----- encoding

  lemma {:induction false} ShrAtLeast(v: nat, w: nat, s: nat)
    requires v >= Pow2(w + s)
    ensures Shr(v, s) >= Pow2(w)
    decreases s
  {
    if s > 0 {
      ShrAtLeast(v / 2, w, s - 1);
    }
  }

  /** As many bytes as there are groups of seven bits up to the highest set bit. */
  lemma {:induction false} NeededIs(v: nat, k: nat)
    requires k >= 1 && v < Pow2(7 * k) && (k == 1 || v >= Pow2(7 * (k - 1)))
    ensures Needed(v) == k
    decreases k
  {
    assert Pow2(7) == 128;
    if k > 1 {
      Pow2Grows(7, 7 * (k - 1));
      ShrFits(v, 7 * (k - 1), 7);
      if k > 2 {
        ShrAtLeast(v, 7 * (k - 2), 7);
      }
      NeededIs(Shr(v, 7), k - 1);
    }
  }

  lemma {:induction false} NeededGrows(v: nat, w: nat)
    requires v <= w
    ensures Needed(v) <= Needed(w)
    decreases w
  {
    if v >= 128 {
      ShrSmaller(v);
      ShrSmaller(w);
      ShrGrows(v, w, 7);
      NeededGrows(Shr(v, 7), Shr(w, 7));
    }
  }

  lemma {:induction false} ShrGrows(v: nat, w: nat, s: nat)
    requires v <= w
    ensures Shr(v, s) <= Shr(w, s)
    decreases s
  {
    if s > 0 {
      ShrGrows(v / 2, w / 2, s - 1);
    }
  }

  lemma {:induction false} FitsNeeded(v: nat)
    ensures v < Pow2(7 * Needed(v))
    decreases v
  {
    assert Pow2(7) == 128;
    if v >= 128 {
      ShrSmaller(v);
      FitsNeeded(Shr(v, 7));
      Split(v, 7);
      JoinFits(Low(v, 7), 7, Shr(v, 7), 7 * Needed(Shr(v, 7)));
    }
  }

  /** The case split of `compress_bytes_needed`. */
  function BytesNeeded(v: nat): (r: nat)
    requires v < Pow2(63)
    ensures r == Needed(v)
  {
    if v < Pow2(7) then NeededIs(v, 1); 1
    else if v < Pow2(14) then NeededIs(v, 2); 2
    else if v < Pow2(21) then NeededIs(v, 3); 3
    else if v < Pow2(28) then NeededIs(v, 4); 4
    else if v < Pow2(35) then NeededIs(v, 5); 5
    else if v < Pow2(42) then NeededIs(v, 6); 6
    else if v < Pow2(49) then NeededIs(v, 7); 7
    else if v < Pow2(56) then NeededIs(v, 8); 8
    else NeededIs(v, 9); 9
  }

  /** The bytes from the one at shift 7 * (n - 1) down to the last: `compress_into` falls through from
      the label of its highest byte. */
  function FallThrough(v: nat, n: nat): (r: seq<nat>)
    requires n >= 1
    ensures |r| == n
    decreases n
  {
    if n == 1 then [Or(Low(v, 7), 128)]
    else [Low(Shr(v, 7 * (n - 1)), 7)] + FallThrough(v, n - 1)
  }

  function CompressInto(v: nat): (r: seq<nat>)
    requires v < Pow2(63)
    ensures r == Code(v)
  {
    FallThroughAt(v, BytesNeeded(v));
    FallThrough(v, BytesNeeded(v))
  }

  lemma {:induction false} FallThroughAt(v: nat, n: nat)
    requires n >= 1
    ensures forall j :: 0 <= j < n ==> FallThrough(v, n)[j] == ByteOf(v, n, j)
    decreases n
  {
    if n == 1 {
      Marked(Low(v, 7));
    } else {
      FallThroughAt(v, n - 1);
      forall j | 0 <= j < n ensures FallThrough(v, n)[j] == ByteOf(v, n, j) {
        if j > 0 {
          assert FallThrough(v, n)[j] == FallThrough(v, n - 1)[j - 1];
        }
      }
    }
  }

  lemma Marked(x: nat)
    requires x < Pow2(7)
    ensures Or(x, 128) == x + 128 && Low(x + 128, 7) == x && x < 128
  {
    assert Pow2(7) == 128;
    ShlOne(7);
    OrJoin(x, 1, 7);
    Join(x, 1, 7);
  }

  lemma {:induction false} CodesJoin(a: seq<nat>, b: seq<nat>)
    ensures Codes(a + b) == Codes(a) + Codes(b)
  {
    if a == [] {
      assert a + b == b;
    } else {
      CodesJoin(a[1..], b);
      assert (a + b)[1..] == a[1..] + b;
    }
  }

  method WriteCode(v: nat) returns (needed: nat, code: seq<nat>)
    requires v < Pow2(32)
    ensures code == Code(v) && needed == |code|
  {
    Pow2Grows(32, 63);
    needed, code := BytesNeeded(v), CompressInto(v);
  }

  /** The codes, or nothing if they do not fit in the buffer. */
  method Compress(source: seq<nat>, capacity: nat) returns (destination: seq<nat>)
    requires Words32(source)
    ensures destination == if |Codes(source)| <= capacity then Codes(source) else []
  {
    destination := [];
    var current := 0;
    while current < |source|
      invariant current <= |source| && destination == Codes(source[..current]) && |destination| <= capacity
    {
      ghost var rest := source[current + 1..];
      assert source[..current + 1] == source[..current] + [source[current]];
      assert source == source[..current + 1] + rest;
      CodesJoin(source[..current], [source[current]]);
      CodesJoin(source[..current + 1], rest);
      assert Codes([source[current]]) == Code(source[current]);
      var needed, code := WriteCode(source[current]);
      if |destination| + needed > capacity {
        return [];
      }
      destination := destination + code;
      current := current + 1;
    }
    assert source[..current] == source;
  }

  // ----- decoding

  /** What the first j of the k bytes are worth. */
  function Prefix(v: nat, k: nat, j: nat): nat
    requires j <= k
  {
    Shr(v, 7 * (k - j))
  }

  /** The decoders' step: seven more bits below those read. */
  function Extend(doc: nat, bits: nat): nat {
    Or(Low(Shl(doc, 7), 32), bits)
  }

  lemma FirstByte(v: nat, k: nat)
    requires k == Needed(v)
    ensures Low(Code(v)[0], 7) == Prefix(v, k, 1)
    ensures Code(v)[0] >= 128 <==> k == 1
    ensures k > 1 ==> Code(v)[0] == Prefix(v, k, 1)
  {
    FitsNeeded(v);
    ShrFits(v, 7, 7 * (k - 1));
    LowSmall(Prefix(v, k, 1), 7);
    Marked(Prefix(v, k, 1));
  }

  lemma WholePrefix(v: nat, k: nat)
    ensures Prefix(v, k, k) == v
  {
  }

  lemma NextByte(v: nat, k: nat, j: nat)
    requires v < Pow2(32) && k == Needed(v) && 1 <= j < k
    ensures Extend(Prefix(v, k, j), Low(Code(v)[j], 7)) == Prefix(v, k, j + 1)
    ensures Code(v)[j] >= 128 <==> j == k - 1
    ensures j < k - 1 ==> Code(v)[j] == Low(Code(v)[j], 7)
  {
    var whole := Prefix(v, k, j + 1);
    ByteBits(whole, j == k - 1, Code(v)[j]);
    ShrSum(v, 7 * (k - j - 1), 7, 7 * (k - j));
    ExtendJoins(whole);
    ShrAtMost(v, 7 * (k - j - 1));
  }

  lemma ByteBits(whole: nat, last: bool, byte: nat)
    requires byte == Low(whole, 7) + if last then 128 else 0
    ensures Low(byte, 7) == Low(whole, 7) && (byte >= 128 <==> last) && (!last ==> byte == Low(byte, 7))
  {
    Marked(Low(whole, 7));
    LowLow(whole, 7, 7);
  }

  lemma ExtendJoins(whole: nat)
    ensures whole < Pow2(32) ==> Extend(Shr(whole, 7), Low(whole, 7)) == whole
  {
    if whole < Pow2(32) {
      Split(whole, 7);
      LowSmall(Shl(Shr(whole, 7), 7), 32);
      OrJoin(Low(whole, 7), Shr(whole, 7), 7);
      OrCommutes(Low(whole, 7), Shl(Shr(whole, 7), 7));
    }
  }

  ghost predicate CodeAt(source: seq<nat>, at: nat, v: nat) {
    at + Needed(v) <= |source| && source[at..at + Needed(v)] == Code(v)
  }

  lemma ByteAt(source: seq<nat>, at: nat, v: nat, k: nat, j: nat)
    requires v < Pow2(32) && k == Needed(v) && CodeAt(source, at, v) && 1 <= j < k
    ensures Extend(Prefix(v, k, j), Low(source[at + j], 7)) == Prefix(v, k, j + 1)
    ensures source[at + j] >= 128 <==> j == k - 1
    ensures j < k - 1 ==> source[at + j] == Low(source[at + j], 7)
  {
    assert source[at + j] == source[at..at + k][j];
    NextByte(v, k, j);
  }

  /** The loop decoder, shared by `decompress` and by the routines that process postings. */
  method DecodeLoop(source: seq<nat>, at: nat, ghost v: nat) returns (doc: nat, next: nat)
    requires v < Pow2(32) && CodeAt(source, at, v)
    ensures doc == v && next == at + Needed(v)
  {
    ghost var k, j := Needed(v), 1;
    FirstByte(v, k);
    WholePrefix(v, k);
    assert source[at] == source[at..at + k][0];
    if source[at] >= 128 {
      doc, next := Low(source[at], 7), at + 1;
    } else {
      doc, next := source[at], at + 1;
      while source[next] < 128
        invariant 1 <= j < k && next == at + j && doc == Prefix(v, k, j)
        decreases k - j
      {
        ByteAt(source, at, v, k, j);
        doc := Extend(doc, source[next]);
        next, j := next + 1, j + 1;
      }
      ByteAt(source, at, v, k, j);
      doc := Extend(doc, Low(source[next], 7));
      assert doc == Prefix(v, k, k);
      next := next + 1;
    }
  }

  /** The unrolled decoder: at most five bytes. */
  method DecompressInto(source: seq<nat>, at: nat, ghost v: nat) returns (decoded: nat, next: nat)
    requires v < Pow2(32) && CodeAt(source, at, v)
    ensures decoded == v && next == at + Needed(v)
  {
    ghost var k := Needed(v);
    AtMostFive(v);
    FirstByte(v, k);
    assert source[at] == source[at..at + k][0];
    if source[at] >= 128 {
      return Low(source[at], 7), at + 1;
    }
    decoded, next := source[at], at + 1;
    ByteAt(source, at, v, k, 1);
    if source[next] >= 128 {
      return Extend(decoded, Low(source[next], 7)), next + 1;
    }
    decoded, next := Extend(decoded, source[next]), next + 1;
    ByteAt(source, at, v, k, 2);
    if source[next] >= 128 {
      return Extend(decoded, Low(source[next], 7)), next + 1;
    }
    decoded, next := Extend(decoded, source[next]), next + 1;
    ByteAt(source, at, v, k, 3);
    if source[next] >= 128 {
      return Extend(decoded, Low(source[next], 7)), next + 1;
    }
    decoded, next := Extend(decoded, source[next]), next + 1;
    ByteAt(source, at, v, k, 4);
    if source[next] >= 128 {
      return Extend(decoded, Low(source[next], 7)), next + 1;
    }
  }

  lemma AtMostFive(v: nat)
    requires v < Pow2(32)
    ensures Needed(v) <= 5
  {
    Pow2Grows(32, 35);
    if v < Pow2(7) {
      NeededIs(v, 1);
    } else if v < Pow2(14) {
      NeededIs(v, 2);
    } else if v < Pow2(21) {
      NeededIs(v, 3);
    } else if v < Pow2(28) {
      NeededIs(v, 4);
    } else {
      NeededIs(v, 5);
    }
  }

  // ----- whole sequences

  /** The values from i on are still to be read, from `at` on. */
  ghost predicate Ahead(source: seq<nat>, at: nat, vs: seq<nat>, i: nat) {
    at <= |source| && i <= |vs| && Codes(vs[i..]) <= source[at..]
  }

  lemma NextCode(source: seq<nat>, at: nat, vs: seq<nat>, i: nat)
    requires Ahead(source, at, vs, i) && i < |vs|
    ensures CodeAt(source, at, vs[i]) && Ahead(source, at + Needed(vs[i]), vs, i + 1)
  {
    var v, rest := vs[i], source[at..];
    assert vs[i..][1..] == vs[i + 1..];
    assert Codes(vs[i..]) == Code(v) + Codes(vs[i + 1..]);
    assert rest[..Needed(v)] == Codes(vs[i..])[..Needed(v)] == Code(v);
    assert rest[Needed(v)..] == source[at + Needed(v)..];
    assert Codes(vs[i..])[Needed(v)..] == Codes(vs[i + 1..]);
  }

  /** `decompress`: as many integers as are asked for. */
  method Decompress(source: seq<nat>, integers: nat, ghost vs: seq<nat>) returns (decoded: seq<nat>)
    requires Words32(vs) && integers == |vs| && Codes(vs) <= source
    ensures decoded == vs
  {
    decoded := [];
    var at := 0;
    assert source[0..] == source && vs[0..] == vs;
    while |decoded| < integers
      invariant |decoded| <= integers && decoded == vs[..|decoded|] && Ahead(source, at, vs, |decoded|)
    {
      NextCode(source, at, vs, |decoded|);
      var doc;
      doc, at := DecodeLoop(source, at, vs[|decoded|]);
      decoded := decoded + [doc];
    }
  }

  /** `static_decode`: until the source is used up. */
  method StaticDecode(source: seq<nat>, ghost vs: seq<nat>) returns (decoded: seq<nat>)
    requires Words32(vs) && source == Codes(vs)
    ensures decoded == vs
  {
    decoded := [];
    var at := 0;
    assert source[0..] == source && vs[0..] == vs;
    while at < |source|
      invariant |decoded| <= |vs| && decoded == vs[..|decoded|]
      invariant Ahead(source, at, vs, |decoded|) && source[at..] == Codes(vs[|decoded|..])
    {
      UntilEnd(source, at, vs, |decoded|);
      var doc;
      doc, at := DecompressInto(source, at, vs[|decoded|]);
      decoded := decoded + [doc];
    }
    AtEnd(vs, |decoded|);
  }

  lemma UntilEnd(source: seq<nat>, at: nat, vs: seq<nat>, i: nat)
    requires at < |source| && i <= |vs| && source[at..] == Codes(vs[i..])
    ensures i < |vs| && CodeAt(source, at, vs[i])
    ensures Ahead(source, at + Needed(vs[i]), vs, i + 1)
    ensures source[at + Needed(vs[i])..] == Codes(vs[i + 1..])
  {
    assert vs[i..] != [];
    NextCode(source, at, vs, i);
    assert vs[i..][1..] == vs[i + 1..];
    assert source[at..][Needed(vs[i])..] == source[at + Needed(vs[i])..];
  }

  lemma AtEnd(vs: seq<nat>, i: nat)
    requires i <= |vs| && Codes(vs[i..]) == []
    ensures i == |vs|
  {
    if i < |vs| {
      assert false;
    }
  }

  /** Decoding and scoring interleaved: the calls of `add_rsv`. */
  method ProcessFused(source: seq<nat>, ghost vs: seq<nat>) returns (docids: seq<nat>)
    requires Words32(vs) && source == Codes(vs)
    ensures docids == Gaps.RunningSums(0, vs)
  {
    docids := [];
    var sum, at := 0, 0;
    ghost var i, seen := 0, [];
    assert source[0..] == source && vs[0..] == vs;
    while at < |source|
      invariant i <= |vs| && seen == vs[..i] && Gaps.Summed(seen, docids, sum)
      invariant Ahead(source, at, vs, i) && source[at..] == Codes(vs[i..])
    {
      UntilEnd(source, at, vs, i);
      var doc;
      doc, at := DecodeLoop(source, at, vs[i]);
      docids, sum := Gaps.AddGap(docids, sum, doc, seen);
      seen, i := seen + [vs[i]], i + 1;
    }
    AtEnd(vs, i);
    assert vs[..|vs|] == vs;
  }

  /** Everything is decoded first and scored afterwards: the same calls. */
  method ProcessStaged(source: seq<nat>, ghost vs: seq<nat>) returns (docids: seq<nat>)
    requires Words32(vs) && source == Codes(vs)
    ensures docids == Gaps.RunningSums(0, vs)
  {
    var decoded := [];
    var at := 0;
    assert source[0..] == source && vs[0..] == vs;
    while at < |source|
      invariant |decoded| <= |vs| && decoded == vs[..|decoded|]
      invariant Ahead(source, at, vs, |decoded|) && source[at..] == Codes(vs[|decoded|..])
    {
      UntilEnd(source, at, vs, |decoded|);
      var doc;
      doc, at := DecodeLoop(source, at, vs[|decoded|]);
      decoded := decoded + [doc];
    }
    AtEnd(vs, |decoded|);
    assert decoded == vs && decoded[..|decoded|] == decoded;
    docids := Gaps.SumAndAdd(decoded, |decoded|);
  }
}
