/** QMX over D4 deltas: each integer less the one four before it. The last block may reach past the end,
    and a backward variable-byte number at the very end says where the keys start. */
module QmxD4 {
  import opened Bits
  import opened Simd
  import opened QmxBlocks
  import opened QmxWidths
  import opened QmxChoice
  import opened QmxKeys
  import opened Qmx
  import VByte

  // ----- deltas

  function Before(raw: seq<nat>, i: nat): nat
    requires i < |raw|
  {
    if i < 4 then 0 else raw[i - 4]
  }

  function DeltaAt(raw: seq<nat>, i: nat): nat
    requires i < |raw| && Words32(raw)
  {
    TwoTo32();
    (raw[i] + TWO_32 - Before(raw, i)) % TWO_32
  }

  /** Lane by lane; what is in the buffer behind the integers stays as it is. */
  method TakeDeltas(raw: seq<nat>, deltas: array<nat>)
    requires Words32(raw) && |raw| <= deltas.Length
    modifies deltas
    ensures forall i :: 0 <= i < |raw| ==> deltas[i] == DeltaAt(raw, i)
    ensures forall i :: |raw| <= i < deltas.Length ==> deltas[i] == old(deltas[i])
  {
    var lane := 0;
    while lane < 4
      invariant lane <= 4
      invariant forall i :: 0 <= i < |raw| && i % 4 < lane ==> deltas[i] == DeltaAt(raw, i)
      invariant forall i :: |raw| <= i < deltas.Length ==> deltas[i] == old(deltas[i])
    {
      TakeLane(raw, deltas, lane);
      lane := lane + 1;
    }
  }

  method TakeLane(raw: seq<nat>, deltas: array<nat>, lane: nat)
    requires Words32(raw) && |raw| <= deltas.Length && lane < 4
    modifies deltas
    ensures forall i :: 0 <= i < |raw| && i % 4 == lane ==> deltas[i] == DeltaAt(raw, i)
    ensures forall i :: 0 <= i < deltas.Length && (i >= |raw| || i % 4 != lane) ==> deltas[i] == old(deltas[i])
  {
    TwoTo32();
    var was, current := 0, lane;
    while current < |raw|
      invariant current % 4 == lane && (current < 4 || current - 4 < |raw|)
      invariant was == if current < 4 then 0 else raw[current - 4]
      invariant forall i :: 0 <= i < |raw| && i % 4 == lane && i < current ==> deltas[i] == DeltaAt(raw, i)
      invariant forall i :: 0 <= i < deltas.Length && (i >= |raw| || i % 4 != lane) ==> deltas[i] == old(deltas[i])
    {
      deltas[current] := (raw[current] + TWO_32 - was) % TWO_32;
      assert deltas[current] == DeltaAt(raw, current);
      was := raw[current];
      current := current + 4;
    }
  }

  /** Adding up the integers of a lane, as the decoder does. */
  function SumAt(deltas: seq<nat>, i: nat): nat
    requires i < |deltas|
  {
    if i < 4 then deltas[i] % TWO_32 else (SumAt(deltas, i - 4) + deltas[i]) % TWO_32
  }

  /** The sums give back the integers, whatever comes after the deltas. */
  lemma {:induction false} SumOfDeltas(raw: seq<nat>, deltas: seq<nat>, i: nat)
    requires Words32(raw) && i < |raw| && i < |deltas| && forall k :: 0 <= k <= i ==> deltas[k] == DeltaAt(raw, k)
    ensures SumAt(deltas, i) == raw[i]
  {
    TwoTo32();
    if i >= 4 {
      SumOfDeltas(raw, deltas, i - 4);
      assert (raw[i - 4] + (raw[i] + TWO_32 - raw[i - 4]) % TWO_32) % TWO_32 == raw[i];
    }
  }

  // ----- the trailer

  /** `vbyte_bytes_needed_for` */
  method BytesNeeded(docno: nat) returns (r: nat)
    requires docno < Pow2(32)
    ensures r == VByte.Needed(docno) <= 5
  {
    Pow2Grows(32, 63);
    VByte.AtMostFive(docno);
    r := VByte.BytesNeeded(docno);
  }

  /** The offset from the end to the keys: their number and the bytes of the offset itself. */
  method TrailerFor(keyCount: nat) returns (val: nat)
    requires keyCount + 16 <= Pow2(32)
    ensures val == keyCount + VByte.Needed(val) && val < Pow2(32)
    ensures forall other: nat :: other == keyCount + VByte.Needed(other) ==> val <= other
  {
    OneByteMore(keyCount);
    forall other: nat | other == keyCount + VByte.Needed(other)
      ensures VByte.Needed(keyCount + VByte.Needed(keyCount)) <= VByte.Needed(other)
    {
      VByte.NeededGrows(keyCount, other);
      VByte.NeededGrows(keyCount + VByte.Needed(keyCount), other);
    }
    var needed := BytesNeeded(keyCount);
    val := keyCount + needed;
    var forVal := BytesNeeded(val);
    if forVal > needed {
      val := keyCount + forVal;
    }
  }

  /** Adding the size of a number to it makes it at most one byte longer, and adding one more does not. */
  lemma OneByteMore(k: nat)
    requires k + 8 <= Pow2(32)
    ensures var n := VByte.Needed(k);
            var m := VByte.Needed(k + n);
            (m == n || (m == n + 1 && VByte.Needed(k + m) == m)) && n <= 5
  {
    VByte.AtMostFive(k);
    Thresholds();
    if k < Pow2(7) {
      VByte.NeededIs(k, 1);
      if k + 1 < Pow2(7) {
        VByte.NeededIs(k + 1, 1);
      } else {
        VByte.NeededIs(k + 1, 2);
        VByte.NeededIs(k + 2, 2);
      }
    } else if k < Pow2(14) {
      VByte.NeededIs(k, 2);
      if k + 2 < Pow2(14) {
        VByte.NeededIs(k + 2, 2);
      } else {
        VByte.NeededIs(k + 2, 3);
        VByte.NeededIs(k + 3, 3);
      }
    } else if k < Pow2(21) {
      VByte.NeededIs(k, 3);
      if k + 3 < Pow2(21) {
        VByte.NeededIs(k + 3, 3);
      } else {
        VByte.NeededIs(k + 3, 4);
        VByte.NeededIs(k + 4, 4);
      }
    } else if k < Pow2(28) {
      VByte.NeededIs(k, 4);
      if k + 4 < Pow2(28) {
        VByte.NeededIs(k + 4, 4);
      } else {
        VByte.NeededIs(k + 4, 5);
        VByte.NeededIs(k + 5, 5);
      }
    } else {
      VByte.NeededIs(k, 5);
      VByte.NeededIs(k + 5, 5);
    }
  }

  lemma Thresholds()
    ensures Pow2(7) == 0x80 && Pow2(14) == 0x4000 && Pow2(21) == 0x20_0000 && Pow2(28) == 0x1000_0000
    ensures Pow2(32) == 0x1_0000_0000 && Pow2(35) == 0x8_0000_0000
  {
    TwoTo32();
    assert Pow2(35) == 8 * Pow2(32);
    assert Pow2(28) == 128 * Pow2(21);
  }

  /** The number that ends at `length`, read backwards. */
  method DecompressBackwards(memory: seq<nat>, length: nat, ghost v: nat) returns (result: nat)
    requires v < Pow2(32) && VByte.Needed(v) <= length <= |memory|
    requires forall j :: 0 <= j < VByte.Needed(v) ==> memory[length - 1 - j] == VByte.Code(v)[j]
    ensures result == v
  {
    ghost var k, j := VByte.Needed(v), 1;
    VByte.FirstByte(v, k);
    VByte.WholePrefix(v, k);
    var at := length - 1;
    assert memory[length - 1 - 0] == VByte.Code(v)[0];
    if memory[at] >= 128 {
      return Low(memory[at], 7);
    }
    result, at := memory[at], at - 1;
    while memory[at] < 128
      invariant 1 <= j < k && at == length - 1 - j && result == VByte.Prefix(v, k, j)
      decreases k - j
    {
      BackAt(memory, length, v, k, j);
      result := VByte.Extend(result, memory[at]);
      at, j := at - 1, j + 1;
    }
    BackAt(memory, length, v, k, j);
    result := VByte.Extend(result, Low(memory[at], 7));
    assert result == VByte.Prefix(v, k, k);
  }

  lemma BackAt(memory: seq<nat>, length: nat, v: nat, k: nat, j: nat)
    requires v < Pow2(32) && k == VByte.Needed(v) <= length <= |memory| && 1 <= j < k
    requires forall i :: 0 <= i < k ==> memory[length - 1 - i] == VByte.Code(v)[i]
    ensures var byte := memory[length - 1 - j];
            && VByte.Extend(VByte.Prefix(v, k, j), Low(byte, 7)) == VByte.Prefix(v, k, j + 1)
            && (byte >= 128 <==> j == k - 1) && (j < k - 1 ==> byte == Low(byte, 7))
  {
    VByte.NextByte(v, k, j);
  }

  // ----- adding up

  function Sums(deltas: seq<nat>): (r: seq<nat>)
    ensures |r| == |deltas|
  {
    seq(|deltas|, i requires 0 <= i < |deltas| => SumAt(deltas, i))
  }

  lemma {:induction false} SumOfPrefix(deltas: seq<nat>, more: seq<nat>, i: nat)
    requires i < |deltas|
    ensures SumAt(deltas + more, i) == SumAt(deltas, i)
  {
    if i >= 4 {
      SumOfPrefix(deltas, more, i - 4);
    }
  }

  /** The register holds the last sum of every lane. */
  ghost predicate IsRegister(register: seq<nat>, deltas: seq<nat>) {
    && |register| == 4 && |deltas| % 4 == 0
    && forall l :: 0 <= l < 4 ==> register[l] == if deltas == [] then 0 else SumAt(deltas, |deltas| - 4 + l)
  }

  function AddRegister(register: seq<nat>, row: seq<nat>): (r: seq<nat>)
    requires |register| == |row| == 4
    ensures |r| == 4
  {
    seq(4, l requires 0 <= l < 4 => (register[l] + row[l]) % TWO_32)
  }

  lemma RowAdded(register: seq<nat>, deltas: seq<nat>, row: seq<nat>)
    requires IsRegister(register, deltas) && |row| == 4
    ensures IsRegister(AddRegister(register, row), deltas + row)
    ensures Sums(deltas + row) == Sums(deltas) + AddRegister(register, row)
  {
    var more, next := deltas + row, AddRegister(register, row);
    forall i: nat | i < |more| ensures SumAt(more, i) == if i < |deltas| then Sums(deltas)[i] else next[i - |deltas|] {
      if i < |deltas| {
        SumOfPrefix(deltas, row, i);
      } else if deltas != [] {
        SumOfPrefix(deltas, row, i - 4);
      }
    }
  }

  /** A block's deltas are added to the register row by row. */
  method AddBlock(register: seq<nat>, values: seq<nat>, to: seq<nat>, ghost deltas: seq<nat>)
    returns (register': seq<nat>, to': seq<nat>)
    requires IsRegister(register, deltas) && |values| % 4 == 0 && to == Sums(deltas)
    ensures IsRegister(register', deltas + values) && to' == Sums(deltas + values)
  {
    register', to' := register, to;
    ghost var sofar := deltas;
    var i := 0;
    while i < |values|
      invariant i <= |values| && i % 4 == 0 && sofar == deltas + values[..i]
      invariant IsRegister(register', sofar) && to' == Sums(sofar)
    {
      RowAdded(register', sofar, values[i..i + 4]);
      register' := AddRegister(register', values[i..i + 4]);
      to' := to' + register';
      sofar := sofar + values[i..i + 4];
      assert values[..i + 4] == values[..i] + values[i..i + 4];
      i := i + 4;
    }
    assert values[..i] == values;
  }

  // ----- the codec

  /** The deltas of `raw`, and whatever is behind them in the buffer, in blocks of which the last starts
      before the end of the integers. */
  ghost predicate IsEncoding(f: Format, raw: seq<nat>, source: seq<nat>, blocks: seq<nat>, parts: seq<seq<nat>>,
                             keys: seq<nat>) {
    && Words32(raw) && Words32(source) && 1 <= |raw| <= |source|
    && (forall i :: 0 <= i < |raw| ==> source[i] == DeltaAt(raw, i))
    && AreParts(f, parts, source, blocks, |raw|) && FitsBlocks(f, source, blocks, |raw|) && NoSingles(blocks)
    && blocks != []
    && Start(f, blocks, |blocks| - 1) < |raw| <= Start(f, blocks, |blocks|) && ExpandKeys(keys) == blocks
  }

  /** Data, keys and the offset of the keys from the end. */
  ghost predicate IsLayout(into: seq<nat>, parts: seq<seq<nat>>, keys: seq<nat>, val: nat) {
    && val == |keys| + VByte.Needed(val) && val < Pow2(32)
    && into == Flatten(parts) + keys + Reversed(VByte.Code(val))
  }

  lemma DeltasAreWords(raw: seq<nat>, source: seq<nat>)
    requires Words32(raw) && |raw| <= |source| && forall i :: 0 <= i < |raw| ==> source[i] == DeltaAt(raw, i)
    requires forall i :: |raw| <= i < |source| ==> source[i] < Pow2(32)
    ensures Words32(source)
  {
    TwoTo32();
  }

  /** The last block ends within the buffer. */
  lemma EndsWithin(s: seq<nat>, need: seq<nat>, end: nat, blocks: seq<nat>)
    requires Promoted(s, need, end, false, FORMAT.capacities, blocks) && blocks != []
    ensures end < |need| + 256
  {
    assert blocks[|blocks| - 1] < SINGLE;
  }

  /** Encodes through a buffer for the deltas that has room behind them. */
  method Encode(raw: seq<nat>, buffer: array<nat>)
    returns (into: seq<nat>, ghost source: seq<nat>, ghost blocks: seq<nat>, ghost parts: seq<seq<nat>>,
             ghost keys: seq<nat>, ghost val: nat)
    requires Words32(raw) && raw != [] && |raw| + 16 <= Pow2(32) && buffer.Length >= |raw| + WASTAGE
             && Words32(buffer[..])
    modifies buffer
    ensures IsEncoding(FORMAT, raw, source, blocks, parts, keys) && IsLayout(into, parts, keys, val)
    ensures Chosen(Needs(source[..|raw|]), false, FORMAT.capacities, blocks) && PackedKeys(keys)
  {
    FormatIsFormat();
    var n := |raw|;
    TakeDeltas(raw, buffer);
    var deltas := buffer[..];
    source := deltas;
    DeltasAreWords(raw, source);
    var lengths := QuadLengths(deltas[..n]);
    ghost var end;
    end, blocks := Promote(lengths, n, false, FORMAT.capacities, Needs(source[..n]));
    PromotedLengths(FORMAT, lengths[..], Needs(source[..n]), end, false, blocks);
    EndsWithin(lengths[..], Needs(source[..n]), end, blocks);
    LongEnoughFits(source, n, lengths[..], blocks);
    parts := PartsExist(FORMAT, source, blocks, n);
    var keyCount, data := EmitRuns(FORMAT, lengths, deltas, n, blocks, parts);
    keys := lengths[..keyCount];
    var trailer := TrailerFor(keyCount);
    val := trailer;
    Pow2Grows(32, 63);
    into := data + lengths[..keyCount] + Reversed(VByte.CompressInto(trailer));
  }

  /** b blocks have been read: their first integers are the deltas. */
  ghost predicate DeltasTo(f: Format, source: seq<nat>, blocks: seq<nat>, parts: seq<seq<nat>>, n: nat, b: nat,
                           at: nat, deltas: seq<nat>) {
    && IsFormat(f) && AreBlocks(blocks) && b <= |blocks| == |parts| && n <= |source| && |deltas| == Start(f, blocks, b)
    && (b < |blocks| ==> at == |Flatten(parts[..b])|)
    && forall i :: 0 <= i < |deltas| && i < n ==> deltas[i] == source[i]
  }

  /** A block that is not the last is whole. */
  lemma WholeBlock(f: Format, raw: seq<nat>, source: seq<nat>, blocks: seq<nat>, parts: seq<seq<nat>>,
                   keys: seq<nat>, b: nat, layout: Layout)
    requires IsEncoding(f, raw, source, blocks, parts, keys) && b + 1 < |blocks| && layout == f.layouts[blocks[b]]
    ensures |parts[b]| == Size(layout) && Start(f, blocks, b) + Count(layout) <= |raw|
  {
    BlockWithin(f, source, blocks, b);
    StartGrows(f, blocks, b + 1, |blocks| - 1);
    assert IsPart(f, parts[b], source, blocks, b, |raw|);
    WholeBlockSize(layout, source[Start(f, blocks, b)..]);
  }

  lemma BlockAheadD4(f: Format, raw: seq<nat>, source: seq<nat>, blocks: seq<nat>, parts: seq<seq<nat>>,
                     keys: seq<nat>, memory: seq<nat>,
                     b: nat, at: nat, layout: Layout)
    requires Readable(f) && IsEncoding(f, raw, source, blocks, parts, keys) && Flatten(parts) <= memory
             && |memory| >= |Flatten(parts)| + 32
    requires b < |blocks| && layout == f.layouts[blocks[b]] && at == |Flatten(parts[..b])|
    ensures at + Size(layout) <= |memory| && parts[b] <= memory[at..]
    ensures layout.Plain? ==> layout.bytes >= 1
    ensures b + 1 < |blocks| ==> |parts[b]| == Size(layout) && Start(f, blocks, b) + Count(layout) <= |raw|
  {
    assert IsReadable(f, blocks[b]);
    InMemory(parts, b, memory, at, layout);
    if b + 1 < |blocks| {
      WholeBlock(f, raw, source, blocks, parts, keys, b, layout);
    }
  }

  lemma InMemory(parts: seq<seq<nat>>, b: nat, memory: seq<nat>, at: nat, layout: Layout)
    requires Flatten(parts) <= memory && |memory| >= |Flatten(parts)| + 32 && b < |parts| && ValidLayout(layout)
    requires at == |Flatten(parts[..b])|
    ensures at + Size(layout) <= |memory| && parts[b] <= memory[at..]
  {
    var rest := memory[|Flatten(parts)|..];
    assert memory == Flatten(parts) + rest;
    PartAhead(parts, b, rest, memory);
    FlattenSplit(parts, b);
    SizeAtMost(layout);
  }

  lemma SizeAtMost(layout: Layout)
    requires ValidLayout(layout)
    ensures Size(layout) <= 32
  {
  }

  lemma OneMoreBlockRead(f: Format, raw: seq<nat>, source: seq<nat>, blocks: seq<nat>, parts: seq<seq<nat>>,
                         keys: seq<nat>, memory: seq<nat>,
                         b: nat, at: nat, deltas: seq<nat>, layout: Layout, values: seq<nat>, at': nat)
    requires Readable(f) && IsEncoding(f, raw, source, blocks, parts, keys) && Flatten(parts) <= memory
             && |memory| >= |Flatten(parts)| + 32
    requires DeltasTo(f, source, blocks, parts, |raw|, b, at, deltas) && b < |blocks| && layout == f.layouts[blocks[b]]
    requires at' == at + Size(layout) <= |memory| && (layout.Plain? ==> layout.bytes >= 1)
             && values == ReadBlock(layout, memory[at..])
    ensures DeltasTo(f, source, blocks, parts, |raw|, b + 1, at', deltas + values)
            && |values| == f.capacities[blocks[b]]
  {
    var n, start := |raw|, Start(f, blocks, b);
    var count := Written(f.capacities[blocks[b]], start, n);
    BlockAheadD4(f, raw, source, blocks, parts, keys, memory, b, at, layout);
    BlockIsRead(f, source, blocks, parts, n, b, memory[at..], start, count, layout);
    OneMorePart(parts, b);
    BlockJoined(deltas, values, source, n, count);
  }

  /** The integers of a block come behind those that have been read. */
  lemma BlockJoined(deltas: seq<nat>, values: seq<nat>, source: seq<nat>, n: nat, count: nat)
    requires n <= |source| && |deltas| + count <= |source| && count <= |values|
    requires values[..count] == source[|deltas|..|deltas| + count]
    requires count == |values| || n <= |deltas| + count
    requires forall i :: 0 <= i < |deltas| && i < n ==> deltas[i] == source[i]
    ensures forall i :: 0 <= i < |deltas + values| && i < n ==> (deltas + values)[i] == source[i]
  {
    forall i | |deltas| <= i < |deltas + values| && i < n ensures (deltas + values)[i] == source[i] {
      assert values[i - |deltas|] == values[..count][i - |deltas|];
    }
  }

  /** The blocks of one key. */
  method DecodeBatch(f: Format, memory: seq<nat>, at: nat, register: seq<nat>, to: seq<nat>, t: nat, run: nat,
                     ghost raw: seq<nat>, ghost source: seq<nat>, ghost blocks: seq<nat>, ghost parts: seq<seq<nat>>,
                     ghost keys: seq<nat>,
                     ghost b: nat, ghost deltas: seq<nat>)
    returns (at': nat, register': seq<nat>, to': seq<nat>, ghost deltas': seq<nat>)
    requires IsTable(f.capacities) && Readable(f) && IsEncoding(f, raw, source, blocks, parts, keys)
    requires Flatten(parts) <= memory && |memory| >= |Flatten(parts)| + 32
    requires DeltasTo(f, source, blocks, parts, |raw|, b, at, deltas) && IsRegister(register, deltas)
             && to == Sums(deltas)
    requires t < 16 && b + run <= |blocks| && forall i :: b <= i < b + run ==> blocks[i] == t
    ensures DeltasTo(f, source, blocks, parts, |raw|, b + run, at', deltas') && IsRegister(register', deltas')
            && to' == Sums(deltas')
  {
    at', register', to', deltas' := at, register, to, deltas;
    var layout, done := f.layouts[t], 0;
    ghost var i := b;
    while done < run
      invariant done <= run && i == b + done && DeltasTo(f, source, blocks, parts, |raw|, i, at', deltas')
      invariant IsRegister(register', deltas') && to' == Sums(deltas')
    {
      BlockAheadD4(f, raw, source, blocks, parts, keys, memory, i, at', layout);
      var values := ReadBlock(layout, memory[at'..]);
      OneMoreBlockRead(f, raw, source, blocks, parts, keys, memory, i, at', deltas', layout, values,
                       at' + Size(layout));
      register', to' := AddBlock(register', values, to', deltas');
      deltas' := deltas' + values;
      at' := at' + Size(layout);
      done, i := done + 1, i + 1;
    }
  }

  /** Where the parts of the encoding are. */
  lemma LayoutInMemory(memory: seq<nat>, length: nat, parts: seq<seq<nat>>, keys: seq<nat>, val: nat)
    requires length <= |memory| && IsLayout(memory[..length], parts, keys, val)
    ensures |Flatten(parts)| + val == length && Flatten(parts) <= memory && VByte.Needed(val) <= length
    ensures length - val + |keys| <= |memory| && memory[length - val..length - val + |keys|] == keys
    ensures forall j :: 0 <= j < VByte.Needed(val) ==> memory[length - 1 - j] == VByte.Code(val)[j]
  {
    var data, code := Flatten(parts), VByte.Code(val);
    var into := memory[..length];
    assert into[..|data|] == data && memory[..|data|] == data;
    assert into[|data|..|data| + |keys|] == keys;
    forall j | 0 <= j < |code| ensures memory[length - 1 - j] == code[j] {
      assert into[length - 1 - j] == Reversed(code)[|code| - 1 - j];
    }
  }

  lemma SumsAreRaw(raw: seq<nat>, source: seq<nat>, deltas: seq<nat>)
    requires Words32(raw) && |raw| <= |source| && |raw| <= |deltas|
    requires forall i :: 0 <= i < |raw| ==> source[i] == DeltaAt(raw, i) && deltas[i] == source[i]
    ensures Sums(deltas)[..|raw|] == raw
  {
    forall i: nat | i < |raw| ensures Sums(deltas)[i] == raw[i] {
      SumOfDeltas(raw, deltas, i);
    }
  }

  /** Keys and blocks are read forwards until there are enough integers. */
  method DecodeFrom(f: Format, memory: seq<nat>, keyStart: nat, n: nat, ghost raw: seq<nat>, ghost source: seq<nat>,
                    ghost blocks: seq<nat>,
                    ghost parts: seq<seq<nat>>, ghost keys: seq<nat>)
    returns (to: seq<nat>, ghost deltas: seq<nat>)
    requires IsTable(f.capacities) && Readable(f) && IsEncoding(f, raw, source, blocks, parts, keys) && n == |raw|
    requires Flatten(parts) <= memory && |memory| >= |Flatten(parts)| + 32
    requires keyStart + |keys| <= |memory| && memory[keyStart..keyStart + |keys|] == keys
    ensures n <= |deltas| && to == Sums(deltas) && forall i :: 0 <= i < n ==> deltas[i] == source[i]
  {
    to, deltas := [], [];
    var keyAt, at, register := keyStart, 0, [0, 0, 0, 0];
    ghost var k, b := 0, 0;
    assert keys[..0] == [] && parts[..0] == [];
    while |to| < n
      invariant k <= |keys| && keyAt == keyStart + k && b == |ExpandKeys(keys[..k])| <= |blocks|
      invariant DeltasTo(f, source, blocks, parts, n, b, at, deltas) && IsRegister(register, deltas)
                && to == Sums(deltas)
      decreases |keys| - k
    {
      MoreKeys(f, blocks, keys, k, b, n);
      BlocksOfKey(keys, k, blocks, b);
      var key := memory[keyAt];
      assert key == keys[k] by { assert memory[keyStart..keyStart + |keys|][k] == keys[k]; }
      assert blocks[b] == key / 16;
      keyAt := keyAt + 1;
      at, register, to, deltas :=
        DecodeBatch(f, memory, at, register, to, key / 16, 16 - key % 16, raw, source, blocks, parts, keys, b, deltas);
      k, b := k + 1, b + (16 - key % 16);
    }
  }

  /** While integers are missing there are keys left. */
  lemma MoreKeys(f: Format, blocks: seq<nat>, keys: seq<nat>, k: nat, b: nat, n: nat)
    requires IsFormat(f) && AreBlocks(blocks) && ExpandKeys(keys) == blocks && k <= |keys|
             && b == |ExpandKeys(keys[..k])| <= |blocks|
    requires Start(f, blocks, b) < n <= Start(f, blocks, |blocks|)
    ensures k < |keys|
  {
    assert keys[..|keys|] == keys;
  }

  /** Finds the keys from the end, and decodes. Behind the encoding there is more memory, so that the last
      block can be read as if it were whole. */
  method Decode(memory: seq<nat>, length: nat, n: nat, ghost raw: seq<nat>, ghost source: seq<nat>,
                ghost blocks: seq<nat>,
                ghost parts: seq<seq<nat>>, ghost keys: seq<nat>, ghost val: nat)
    returns (to: seq<nat>)
    requires IsEncoding(FORMAT, raw, source, blocks, parts, keys) && length + 32 <= |memory| && n == |raw|
    requires IsLayout(memory[..length], parts, keys, val)
    ensures n <= |to| && to[..n] == raw
  {
    FormatIsFormat();
    FormatIsReadable();
    LayoutInMemory(memory, length, parts, keys, val);
    var keyStart := DecompressBackwards(memory, length, val);
    ghost var deltas;
    to, deltas := DecodeFrom(FORMAT, memory, length - keyStart, n, raw, source, blocks, parts, keys);
    SumsAreRaw(raw, source, deltas);
  }
}
