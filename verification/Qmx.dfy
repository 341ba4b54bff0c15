/** QMX: blocks of bit-packed integers of one width, and the keys of the blocks stored backwards at the end. */
module Qmx {
  import opened Bits
  import opened Simd
  import opened QmxBlocks
  import opened QmxWidths
  import opened QmxChoice
  import opened QmxKeys

  const FORMAT: Format := Format(CAPACITIES, LAYOUTS)

  lemma FormatIsFormat()
    ensures IsFormat(FORMAT) && IsShortTable(FORMAT.capacities)
  {
    IsFormatOf(FORMAT);
    CapacitiesAreTable(CAPACITIES);
  }

  lemma IsFormatOf(f: Format)
    requires f == FORMAT
    ensures IsFormat(f)
  {
    forall t: nat | t < 16 ensures 1 <= f.capacities[t] == Count(f.layouts[t]) {
      CapacityIsCount(t);
    }
  }

  lemma CapacitiesAreTable(caps: seq<nat>)
    requires caps == CAPACITIES
    ensures IsShortTable(caps)
  {
  }

  lemma FormatIsReadable()
    ensures Readable(FORMAT)
  {
    forall t: nat | t < 16 ensures IsReadable(FORMAT, t) {
      LayoutsAreValid(t);
    }
  }

  ghost predicate IsReadable(f: Format, t: nat) {
    t < |f.layouts| && ValidLayout(f.layouts[t])
  }

  ghost predicate Readable(f: Format) {
    |f.layouts| == 16 && forall t {:trigger IsReadable(f, t)} :: 0 <= t < 16 ==> IsReadable(f, t)
  }

  // ----- lengths

  /** `bits_needed_for`, as the index of the width: the value 1 needs no bits at all. */
  function TypeFor(value: nat): (r: nat)
    ensures r <= 14
  {
    if value == 0x01 then 0
    else if value <= 0x01 then 1
    else if value <= 0x03 then 2
    else if value <= 0x07 then 3
    else if value <= 0x0F then 4
    else if value <= 0x1F then 5
    else if value <= 0x3F then 6
    else if value <= 0x7F then 7
    else if value <= 0xFF then 8
    else if value <= 0x1FF then 9
    else if value <= 0x3FF then 10
    else if value <= 0xFFF then 11
    else if value <= 0xFFFF then 12
    else if value <= 0x1FFFFF then 13
    else 14
  }

  lemma SmallPowers()
    ensures Pow2(1) == 2 && Pow2(2) == 4 && Pow2(3) == 8 && Pow2(4) == 16 && Pow2(5) == 32 && Pow2(6) == 64
    ensures Pow2(7) == 128 && Pow2(8) == 256 && Pow2(9) == 512 && Pow2(10) == 1024 && Pow2(12) == 4096
    ensures Pow2(16) == 0x1_0000 && Pow2(21) == 0x20_0000
  {
  }

  /** The types that an integer fits are exactly those from the one it needs on. */
  lemma FitsFrom(value: nat, t: nat)
    requires value < Pow2(32) && t < 16
    ensures Fits(value, LAYOUTS[t]) <==> TypeFor(value) <= t
  {
    SmallPowers();
    TwoTo32();
  }

  function Needs(source: seq<nat>): (r: seq<nat>)
    ensures |r| == |source|
  {
    seq(|source|, i requires 0 <= i < |source| => TypeFor(source[i]))
  }

  /** The four lengths have become the greatest of what they were. */
  ghost predicate LevelledQuad(first: seq<nat>, s: seq<nat>, i: nat) {
    i + 4 <= |first| && IsQuad(s, i) && s[i] == MaxOf(first[i..i + 4])
  }

  /** The quads before the cursor have been made level. */
  ghost predicate Levelled(first: seq<nat>, s: seq<nat>, c: nat) {
    && |s| == |first| && c % 4 == 0 && c <= |s|
    && (forall i :: 0 <= i < |s| ==> first[i] <= s[i] <= 14)
    && (forall i :: c <= i < |s| ==> s[i] == first[i])
    && (forall i {:trigger LevelledQuad(first, s, i)} :: 0 <= i && i + 4 <= c && i % 4 == 0 ==>
          LevelledQuad(first, s, i))
  }

  lemma StaysLevel(first: seq<nat>, s: seq<nat>, r: seq<nat>, c: nat, i: nat)
    requires LevelledQuad(first, s, i) && |r| == |s| && i + 4 <= c <= |s| && forall k :: 0 <= k < c ==> r[k] == s[k]
    ensures LevelledQuad(first, r, i)
  {
  }

  lemma QuadBefore(i: nat, c: nat)
    requires i % 4 == 0 && c % 4 == 0 && i < c
    ensures i + 4 <= c
  {
  }

  lemma FillLevels(first: seq<nat>, s: seq<nat>, c: nat, t: nat, r: seq<nat>)
    requires Levelled(first, s, c) && c + 4 <= |s| && t == MaxOf(first[c..c + 4]) <= 14 && r == Filled(s, c, 4, t)
    requires forall i :: c <= i < c + 4 ==> s[i] <= t
    ensures Levelled(first, r, c + 4)
  {
    forall i: nat | i + 4 <= c + 4 && i % 4 == 0 ensures LevelledQuad(first, r, i) {
      if i < c {
        QuadBefore(i, c);
        assert LevelledQuad(first, s, i);
        StaysLevel(first, s, r, c, i);
      } else {
        assert i == c;
      }
    }
  }

  lemma LevelQuad(first: seq<nat>, s: seq<nat>, c: nat, next: nat)
    requires Levelled(first, s, c) && next == c + 4 <= |s|
    ensures Levelled(first, Filled(s, c, 4, MaxOf(s[c..next])), next)
  {
    InRange(s, c, 4);
    assert forall x :: x in s[c..next] ==> x <= 14;
    assert s[c..next] == first[c..next];
    FillLevels(first, s, c, MaxOf(s[c..next]), Filled(s, c, 4, MaxOf(s[c..next])));
  }

  /** The lengths of the integers, and zeroes after them. */
  method FirstLengths(source: seq<nat>) returns (lengths: array<nat>)
    ensures fresh(lengths) && lengths[..] == Needs(source) + Same(WASTAGE, 0)
  {
    lengths := new nat[|source| + WASTAGE];
    var current := 0;
    while current < |source| + WASTAGE
      invariant current <= |source| + WASTAGE
      invariant forall i :: 0 <= i < current ==> lengths[i] == if i < |source| then TypeFor(source[i]) else 0
    {
      lengths[current] := if current < |source| then TypeFor(source[current]) else 0;
      current := current + 1;
    }
  }

  /** All four lengths of a quad become the greatest of them. */
  method LevelQuads(lengths: array<nat>, n: nat)
    requires n + WASTAGE == lengths.Length && forall i :: 0 <= i < lengths.Length ==> lengths[i] <= 14
    modifies lengths
    ensures exists c :: n <= c <= n + 8 && Levelled(old(lengths[..]), lengths[..], c)
  {
    ghost var first := lengths[..];
    var current := 0;
    while current < n + 4
      invariant current < n + 8 && Levelled(first, lengths[..], current)
    {
      ghost var s := lengths[..];
      LevelQuad(first, s, current, current + 4);
      var largest := Largest(lengths, current, 4);
      assert lengths[current..current + 4] == s[current..current + 4];
      Fill(lengths, current, 4, largest);
      current := current + 4;
    }
  }

  /** The lengths with which the promotion starts. */
  method QuadLengths(source: seq<nat>) returns (lengths: array<nat>)
    ensures fresh(lengths) && LongEnough(lengths[..], Needs(source)) && Quads(lengths[..], 0)
    ensures IsLevel(lengths[..], Needs(source))
    ensures forall i :: 0 <= i < lengths.Length ==> lengths[i] < SINGLE
  {
    lengths := FirstLengths(source);
    ghost var first := lengths[..];
    LevelQuads(lengths, |source|);
    ghost var c :| |source| <= c <= |source| + 8 && Levelled(first, lengths[..], c);
    AllLevel(source, first, lengths[..], c);
  }

  lemma AllLevel(source: seq<nat>, first: seq<nat>, s: seq<nat>, c: nat)
    requires first == Needs(source) + Same(WASTAGE, 0) && |source| <= c && Levelled(first, s, c)
    ensures LongEnough(s, Needs(source)) && Quads(s, 0) && IsLevel(s, Needs(source))
  {
    forall i: nat | i + 4 <= |s| && i % 4 == 0 ensures IsQuad(s, i) && LevelAt(s, Needs(source), i) {
      if i + 4 <= c {
        assert LevelledQuad(first, s, i);
        GreatestOfQuad(first, s, Needs(source), i);
      } else {
        assert c <= i;
      }
    }
    forall i: nat | i < |source| ensures Needs(source)[i] <= s[i] {
      assert first[i] == Needs(source)[i];
    }
  }

  lemma GreatestOfQuad(first: seq<nat>, s: seq<nat>, need: seq<nat>, i: nat)
    requires |need| <= |first| == |s| && LevelledQuad(first, s, i)
    requires forall k :: 0 <= k < |first| ==> first[k] == if k < |need| then need[k] else 0
    ensures LevelAt(s, need, i)
  {
    var quad := first[i..i + 4];
    InRange(first, i, 4);
    var k :| 0 <= k < 4 && quad[k] == MaxOf(quad);
    assert first[i + k] == quad[k];
  }

  // ----- integers and their blocks

  /** The integer fits the type of the block that it is in. */
  ghost predicate FitsBlock(f: Format, source: seq<nat>, blocks: seq<nat>, j: nat, i: nat)
    requires IsFormat(f) && AreBlocks(blocks) && j < |blocks| && i < |source|
  {
    InBlock(f, blocks, j, i) ==> Fits(source[i], f.layouts[blocks[j]])
  }

  ghost predicate FitsBlocks(f: Format, source: seq<nat>, blocks: seq<nat>, n: nat) {
    && IsFormat(f) && AreBlocks(blocks) && n <= |source|
    && forall j: nat, i: nat :: j < |blocks| && i < n ==> FitsBlock(f, source, blocks, j, i)
  }

  /** Lengths that are long enough put every integer in a block that it fits. */
  lemma LongEnoughFits(source: seq<nat>, n: nat, lengths: seq<nat>, blocks: seq<nat>)
    requires Words32(source) && n <= |source| && LongEnough(lengths, Needs(source[..n]))
             && Lengths(FORMAT, lengths, blocks, n)
    ensures FitsBlocks(FORMAT, source, blocks, n)
  {
    forall j: nat, i: nat | j < |blocks| && i < n ensures FitsBlock(FORMAT, source, blocks, j, i) {
      if InBlock(FORMAT, blocks, j, i) {
        assert lengths[i] == blocks[j] && Needs(source[..n])[i] == TypeFor(source[i]);
        FitsFrom(source[i], blocks[j]);
      }
    }
  }

  /** The integers before n that a block of this many from c on takes in fit the layout. */
  ghost predicate AllFitFrom(source: seq<nat>, n: nat, c: nat, count: nat, layout: Layout)
    requires n <= |source|
  {
    forall i :: c <= i < c + count && i < n ==> Fits(source[i], layout)
  }

  lemma NeedsWithin(source: seq<nat>, n: nat, c: nat, count: nat, t: nat)
    requires Words32(source) && n <= |source| && t < 16
    ensures AllFitFrom(source, n, c, count, LAYOUTS[t]) <==>
            forall i :: c <= i < c + count && i < n ==> Needs(source[..n])[i] <= t
  {
    forall i: nat | i < n ensures Fits(source[i], LAYOUTS[t]) <==> Needs(source[..n])[i] <= t {
      FitsFrom(source[i], t);
    }
  }

  /** A block of type t from c on would do. */
  ghost predicate WouldDo(f: Format, source: seq<nat>, n: nat, c: nat, exact: bool, t: nat)
    requires IsFormat(f) && n <= |source|
  {
    && t < SINGLE && (exact ==> c + f.capacities[t] <= n)
    && AllFitFrom(source, n, c, f.capacities[t], f.layouts[t])
  }

  ghost predicate IsLeastType(f: Format, source: seq<nat>, n: nat, c: nat, exact: bool, t: nat)
    requires IsFormat(f) && n <= |source|
  {
    && (t < SINGLE ==> WouldDo(f, source, n, c, exact, t))
    && forall u :: 0 <= u < t ==> !WouldDo(f, source, n, c, exact, u)
  }

  lemma LeastIsLeast(source: seq<nat>, n: nat, c: nat, exact: bool, least: nat)
    requires Words32(source) && n <= |source| && IsFormat(FORMAT)
    requires IsLeast(Needs(source[..n]), c, exact, FORMAT.capacities, least)
    ensures IsLeastType(FORMAT, source, n, c, exact, least)
  {
    forall t: nat | t < SINGLE
      ensures WouldDo(FORMAT, source, n, c, exact, t) <==>
              Suits(Needs(source[..n]), c, exact, FORMAT.capacities, t)
    {
      NeedsWithin(source, n, c, FORMAT.capacities[t], t);
    }
  }

  /** Every block has the least type that would do, and integers for which none would are single. Only in
      the encoding that need not fill its last block, fewer than four integers, or fewer than sixteen of
      8 bits, are one block of 8, 16 or 32 bits. */
  lemma BlockWidth(source: seq<nat>, n: nat, exact: bool, blocks: seq<nat>, j: nat, c: nat)
    requires Words32(source) && n <= |source| && Chosen(Needs(source[..n]), exact, FORMAT.capacities, blocks)
    requires j < |blocks| && IsFormat(FORMAT) && c == Start(FORMAT, blocks, j) <= n
    ensures if exact || n - c >= 16 then IsLeastType(FORMAT, source, n, c, exact, blocks[j])
            else if AllFitFrom(source, n, c, 16, LAYOUTS[8]) then blocks[j] == 8
            else if n - c < 4 then blocks[j] == if AllFitFrom(source, n, c, 16, LAYOUTS[12]) then 12 else 14
            else IsLeastType(FORMAT, source, n, c, exact, blocks[j])
  {
    ChoiceAt(FORMAT, Needs(source[..n]), exact, blocks, j, c);
    if exact || n - c >= 16 {
      LeastIsLeast(source, n, c, exact, blocks[j]);
    } else {
      RestFits(source, n, c, 8);
      RestFits(source, n, c, 12);
      if !IsShort(Needs(source[..n]), c) {
        LeastIsLeast(source, n, c, exact, blocks[j]);
      }
    }
  }

  lemma ChoiceAt(f: Format, need: seq<nat>, exact: bool, blocks: seq<nat>, j: nat, c: nat)
    requires IsFormat(f) && Chosen(need, exact, f.capacities, blocks) && j < |blocks| && c == Start(f, blocks, j)
    ensures IsChoice(need, c, exact, f.capacities, blocks[j])
  {
    ExpandStart(f, blocks, j);
  }

  lemma RestFits(source: seq<nat>, n: nat, c: nat, t: nat)
    requires Words32(source) && n <= |source| && t < 16 && c <= n <= c + 16
    ensures AllFitFrom(source, n, c, 16, LAYOUTS[t]) <==> RestWithin(Needs(source[..n]), c, t)
  {
    NeedsWithin(source, n, c, 16, t);
  }

  /** What the decoder makes of the bytes of block b. */
  lemma BlockIsRead(f: Format, source: seq<nat>, blocks: seq<nat>, parts: seq<seq<nat>>, n: nat, b: nat,
                    memory: seq<nat>,
                    start: nat, count: nat, layout: Layout)
    requires AreParts(f, parts, source, blocks, n) && Readable(f) && FitsBlocks(f, source, blocks, n) && Words32(source)
    requires b < |blocks| && start == Start(f, blocks, b) && layout == f.layouts[blocks[b]]
             && count == Written(f.capacities[blocks[b]], start, n)
    requires parts[b] <= memory && Size(layout) <= |memory|
    ensures start + count <= start + Count(layout) <= |source|
    ensures layout.Plain? ==> layout.bytes >= 1
    ensures |ReadBlock(layout, memory)| == Count(layout)
            && ReadBlock(layout, memory)[..count] == source[start..start + count]
  {
    BlockWithin(f, source, blocks, b);
    assert IsPart(f, parts[b], source, blocks, b, n);
    var vs := source[start..];
    assert IsReadable(f, blocks[b]);
    BlockFits(f, source, blocks, n, b, start, count, vs, layout);
    BlockReads(layout, vs, count, memory);
    assert vs[..count] == source[start..start + count];
  }

  lemma BlockFits(f: Format, source: seq<nat>, blocks: seq<nat>, n: nat, b: nat, start: nat, count: nat, vs: seq<nat>,
                  layout: Layout)
    requires FitsBlocks(f, source, blocks, n) && b < |blocks| && start == Start(f, blocks, b)
             && layout == f.layouts[blocks[b]]
    requires count == Written(f.capacities[blocks[b]], start, n) && start <= |source| && vs == source[start..]
    ensures count <= |vs| && AllFit(vs, count, layout)
  {
    forall i: nat | i < count ensures Fits(vs[i], layout) {
      assert FitsBlock(f, source, blocks, b, start + i);
    }
  }

  /** The bytes of block b come after those of the blocks before it. */
  lemma PartAhead(parts: seq<seq<nat>>, b: nat, rest: seq<nat>, memory: seq<nat>)
    requires b < |parts| && memory == Flatten(parts) + rest
    ensures |Flatten(parts[..b])| + |parts[b]| <= |memory| && parts[b] <= memory[|Flatten(parts[..b])|..]
  {
    FlattenSplit(parts, b);
    var front, back := Flatten(parts[..b]), Flatten(parts[b..]);
    assert memory[|front|..] == back + rest;
    assert back == parts[b] + Flatten(parts[b..][1..]);
  }

  // ----- the codec

  /** What is written: the bytes of the blocks and, in `keys`, which blocks they are. */
  ghost predicate IsEncoding(f: Format, source: seq<nat>, blocks: seq<nat>, parts: seq<seq<nat>>, data: seq<nat>,
                             keys: seq<nat>) {
    && Words32(source) && AreParts(f, parts, source, blocks, |source|) && FitsBlocks(f, source, blocks, |source|)
    && Start(f, blocks, |blocks|) == |source| && data == Flatten(parts) && ExpandKeys(keys) == blocks
  }

  method Encode(source: seq<nat>)
    returns (into: seq<nat>, ghost blocks: seq<nat>, ghost parts: seq<seq<nat>>, ghost keys: seq<nat>)
    requires Words32(source) && source != []
    ensures IsEncoding(FORMAT, source, blocks, parts, Flatten(parts), keys) && into == Flatten(parts) + Reversed(keys)
    ensures exists m :: 0 <= m <= 3 && m <= |blocks| && SinglesLast(blocks, m)
    ensures Chosen(Needs(source), true, FORMAT.capacities, blocks) && PackedKeys(keys)
  {
    FormatIsFormat();
    var lengths := QuadLengths(source);
    ghost var end;
    end, blocks := Promote(lengths, |source|, true, FORMAT.capacities, Needs(source));
    PromotedLengths(FORMAT, lengths[..], Needs(source), end, true, blocks);
    assert source[..|source|] == source;
    LongEnoughFits(source, |source|, lengths[..], blocks);
    parts := PartsExist(FORMAT, source, blocks, |source|);
    var keyCount;
    keyCount, into := EmitRuns(FORMAT, lengths, source, |source|, blocks, parts);
    keys := lengths[..keyCount];
    into := CopyBackwards(lengths, keyCount, into);
  }

  /** The keys, from the last to the first, after the data. */
  method CopyBackwards(lengths: array<nat>, keyCount: nat, data: seq<nat>) returns (into: seq<nat>)
    requires keyCount <= lengths.Length
    ensures into == data + Reversed(lengths[..keyCount])
  {
    into := data;
    ghost var keys := Reversed(lengths[..keyCount]);
    var pos := 0;
    while pos < keyCount
      invariant pos <= keyCount && into == data + keys[..pos]
    {
      assert keys[..pos + 1] == keys[..pos] + [lengths[keyCount - 1 - pos]];
      into := into + [lengths[keyCount - 1 - pos]];
      pos := pos + 1;
    }
    assert keys[..pos] == keys;
  }

  /** The first b blocks have been read. */
  ghost predicate ReadTo(f: Format, source: seq<nat>, blocks: seq<nat>, parts: seq<seq<nat>>, b: nat, at: nat,
                         to: seq<nat>) {
    && IsFormat(f) && AreBlocks(blocks) && b <= |blocks| == |parts| && Start(f, blocks, b) <= |source|
    && at == |Flatten(parts[..b])| && to == source[..Start(f, blocks, b)]
  }

  /** There is a whole block ahead. */
  lemma BlockAhead(f: Format, source: seq<nat>, blocks: seq<nat>, parts: seq<seq<nat>>, data: seq<nat>, keys: seq<nat>,
                   memory: seq<nat>,
                   b: nat, at: nat, layout: Layout)
    requires Readable(f) && IsEncoding(f, source, blocks, parts, data, keys) && data <= memory
    requires b < |blocks| && layout == f.layouts[blocks[b]] && at == |Flatten(parts[..b])|
    ensures |parts[b]| == Size(layout) && at + Size(layout) <= |memory| && parts[b] <= memory[at..]
    ensures layout.Plain? ==> layout.bytes >= 1
    ensures Start(f, blocks, b) + Count(layout) <= |source|
  {
    PartAhead(parts, b, memory[|data|..], memory);
    assert IsReadable(f, blocks[b]);
    assert IsPart(f, parts[b], source, blocks, b, |source|);
    BlockWithin(f, source, blocks, b);
    WholeBlockSize(layout, source[Start(f, blocks, b)..]);
  }

  lemma OneMoreRead(f: Format, source: seq<nat>, blocks: seq<nat>, parts: seq<seq<nat>>, data: seq<nat>,
                    keys: seq<nat>, memory: seq<nat>,
                    b: nat, at: nat, to: seq<nat>, layout: Layout, values: seq<nat>, at': nat)
    requires Readable(f) && IsEncoding(f, source, blocks, parts, data, keys) && data <= memory
             && ReadTo(f, source, blocks, parts, b, at, to)
    requires b < |blocks| && layout == f.layouts[blocks[b]] && at' == at + Size(layout) <= |memory|
    requires layout.Plain? ==> layout.bytes >= 1
    requires values == ReadBlock(layout, memory[at..])
    ensures ReadTo(f, source, blocks, parts, b + 1, at', to + values)
  {
    var start := Start(f, blocks, b);
    BlockAhead(f, source, blocks, parts, data, keys, memory, b, at, layout);
    BlockIsRead(f, source, blocks, parts, |source|, b, memory[at..], start, Count(layout), layout);
    assert values[..Count(layout)] == values;
    OneMorePart(parts, b);
    assert source[..start + Count(layout)] == source[..start] + source[start..start + Count(layout)];
  }

  /** The blocks of one key. */
  method DecodeBatch(f: Format, memory: seq<nat>, at: nat, to: seq<nat>, t: nat, run: nat,
                     ghost source: seq<nat>, ghost blocks: seq<nat>, ghost parts: seq<seq<nat>>, ghost data: seq<nat>,
                     ghost keys: seq<nat>, ghost b: nat)
    returns (at': nat, to': seq<nat>)
    requires Readable(f) && IsEncoding(f, source, blocks, parts, data, keys) && data <= memory
             && ReadTo(f, source, blocks, parts, b, at, to)
    requires t < 16 && b + run <= |blocks| && forall i :: b <= i < b + run ==> blocks[i] == t
    ensures ReadTo(f, source, blocks, parts, b + run, at', to')
  {
    at', to' := at, to;
    var layout, done := f.layouts[t], 0;
    ghost var i := b;
    while done < run
      invariant done <= run && i == b + done && ReadTo(f, source, blocks, parts, i, at', to')
    {
      BlockAhead(f, source, blocks, parts, data, keys, memory, i, at', layout);
      var values := ReadBlock(layout, memory[at'..]);
      OneMoreRead(f, source, blocks, parts, data, keys, memory, i, at', to', layout, values, at' + Size(layout));
      to' := to' + values;
      at' := at' + Size(layout);
      done, i := done + 1, i + 1;
    }
  }

  lemma KeyFromTheEnd(data: seq<nat>, keys: seq<nat>, memory: seq<nat>, k: nat)
    requires memory == data + Reversed(keys) && k < |keys|
    ensures |memory| == |data| + |keys| && memory[|memory| - 1 - k] == keys[k]
  {
    assert Reversed(keys)[|keys| - 1 - k] == keys[k];
  }

  /** Reads keys from the end and blocks from the start until they meet. */
  method DecodeFrom(f: Format, memory: seq<nat>,
                    ghost source: seq<nat>, ghost blocks: seq<nat>, ghost parts: seq<seq<nat>>, ghost data: seq<nat>,
                    ghost keys: seq<nat>)
    returns (to: seq<nat>)
    requires Readable(f) && IsEncoding(f, source, blocks, parts, data, keys) && memory == data + Reversed(keys)
    ensures to == source
  {
    to := [];
    var at: nat, keyAt: int := 0, |memory| - 1;
    ghost var k, b := 0, 0;
    assert keys[..0] == [] && parts[..0] == [];
    while at <= keyAt
      invariant k <= |keys| && keyAt == |memory| - 1 - k && b == |ExpandKeys(keys[..k])| <= |blocks|
      invariant ReadTo(f, source, blocks, parts, b, at, to)
      decreases keyAt + 1
    {
      StillKeys(blocks, parts, keys, k, b, at, |memory|);
      BlocksOfKey(keys, k, blocks, b);
      KeyFromTheEnd(data, keys, memory, k);
      var key := memory[keyAt];
      assert blocks[b] == key / 16;
      keyAt := keyAt - 1;
      at, to := DecodeBatch(f, memory, at, to, key / 16, 16 - key % 16, source, blocks, parts, data, keys, b);
      k, b := k + 1, b + (16 - key % 16);
    }
    AllKeys(source, blocks, parts, keys, k, b, at, |memory|);
    assert source[..|source|] == source;
  }

  method Decode(memory: seq<nat>, ghost source: seq<nat>, ghost blocks: seq<nat>, ghost parts: seq<seq<nat>>,
                ghost data: seq<nat>, ghost keys: seq<nat>)
    returns (to: seq<nat>)
    requires IsEncoding(FORMAT, source, blocks, parts, data, keys) && memory == data + Reversed(keys)
    ensures to == source
  {
    FormatIsReadable();
    to := DecodeFrom(FORMAT, memory, source, blocks, parts, data, keys);
  }

  lemma StillKeys(blocks: seq<nat>, parts: seq<seq<nat>>, keys: seq<nat>, k: nat, b: nat, at: nat, length: nat)
    requires |blocks| == |parts| && ExpandKeys(keys) == blocks && length == |Flatten(parts)| + |keys|
    requires k <= |keys| && b == |ExpandKeys(keys[..k])| <= |blocks| && at == |Flatten(parts[..b])|
             && at <= length - 1 - k
    ensures k < |keys|
  {
    assert keys[..|keys|] == keys && parts[..|parts|] == parts;
  }

  lemma AllKeys(source: seq<nat>, blocks: seq<nat>, parts: seq<seq<nat>>, keys: seq<nat>, k: nat, b: nat, at: nat,
                length: nat)
    requires |blocks| == |parts| && ExpandKeys(keys) == blocks && length == |Flatten(parts)| + |keys|
    requires k <= |keys| && b == |ExpandKeys(keys[..k])| <= |blocks| && at == |Flatten(parts[..b])|
             && at > length - 1 - k
    ensures b == |blocks|
  {
    FlattenSplit(parts, b);
    assert keys[..|keys|] == keys;
  }
}
