/** QMX writes its blocks run by run: a key for every sixteen blocks of one type, stored over the lengths
    that have been read already. */
module QmxKeys {
  import opened Bits
  import opened QmxBlocks
  import opened QmxWidths
  import opened Simd

  /** What the types of blocks are: their capacities, and how they are laid out. */
  datatype Format = Format(capacities: seq<nat>, layouts: seq<Layout>)

  ghost predicate IsFormat(f: Format) {
    && |f.capacities| == |f.layouts| == 16
    && forall t :: 0 <= t < 16 ==> 1 <= f.capacities[t] == Count(f.layouts[t])
  }

  // ----- where blocks start

  /** The integers before block j. */
  function Start(f: Format, blocks: seq<nat>, j: nat): nat
    requires IsFormat(f) && AreBlocks(blocks) && j <= |blocks|
  {
    if j == 0 then 0 else Start(f, blocks, j - 1) + f.capacities[blocks[j - 1]]
  }

  lemma {:induction false} ExpandStart(f: Format, blocks: seq<nat>, j: nat)
    requires IsFormat(f) && IsTable(f.capacities) && AreBlocks(blocks) && j <= |blocks|
    ensures |Expand(blocks[..j], f.capacities)| == Start(f, blocks, j)
  {
    if j > 0 {
      ExpandStart(f, blocks, j - 1);
      assert blocks[..j][..j - 1] == blocks[..j - 1];
    }
  }

  lemma {:induction false} ExpandAt(f: Format, blocks: seq<nat>, j: nat, i: nat)
    requires IsFormat(f) && IsTable(f.capacities) && AreBlocks(blocks) && j < |blocks|
    requires Start(f, blocks, j) <= i < Start(f, blocks, j) + f.capacities[blocks[j]]
    ensures i < |Expand(blocks, f.capacities)| && Expand(blocks, f.capacities)[i] == blocks[j]
    decreases |blocks|
  {
    var n := |blocks| - 1;
    var front := blocks[..n];
    ExpandStart(f, blocks, n);
    if j < n {
      StartOfPrefix(f, blocks, n, j);
      ExpandAt(f, front, j, i);
    } else {
      assert front == blocks[..j];
    }
  }

  lemma {:induction false} StartOfPrefix(f: Format, blocks: seq<nat>, n: nat, j: nat)
    requires IsFormat(f) && AreBlocks(blocks) && j <= n <= |blocks|
    ensures Start(f, blocks[..n], j) == Start(f, blocks, j)
  {
    if j > 0 {
      StartOfPrefix(f, blocks, n, j - 1);
    }
  }

  lemma {:induction false} StartGrows(f: Format, blocks: seq<nat>, i: nat, j: nat)
    requires IsFormat(f) && AreBlocks(blocks) && i <= j <= |blocks|
    ensures Start(f, blocks, i) + (j - i) <= Start(f, blocks, j)
    decreases j
  {
    if i < j {
      StartGrows(f, blocks, i, j - 1);
    }
  }

  // ----- the runs

  /** The lengths that the blocks give to n integers or more. */
  ghost predicate Lengths(f: Format, lengths: seq<nat>, blocks: seq<nat>, n: nat) {
    && IsFormat(f) && AreBlocks(blocks) && n <= Start(f, blocks, |blocks|)
    && (blocks != [] ==> Start(f, blocks, |blocks| - 1) < n)
    && n <= |lengths| && forall j: nat, i: nat :: j < |blocks| && InBlock(f, blocks, j, i) && i < n ==>
         lengths[i] == blocks[j]
  }

  ghost predicate InBlock(f: Format, blocks: seq<nat>, j: nat, i: nat)
    requires IsFormat(f) && AreBlocks(blocks) && j < |blocks|
  {
    Start(f, blocks, j) <= i < Start(f, blocks, j) + f.capacities[blocks[j]]
  }

  lemma LengthInBlock(f: Format, lengths: seq<nat>, blocks: seq<nat>, n: nat, j: nat, i: nat)
    requires Lengths(f, lengths, blocks, n) && j < |blocks| && i < n
             && Start(f, blocks, j) <= i < Start(f, blocks, j + 1)
    ensures lengths[i] == blocks[j]
  {
    assert InBlock(f, blocks, j, i);
  }

  /** From s to e the lengths are all t, and no longer after e. */
  ghost predicate IsRun(lengths: seq<nat>, n: nat, s: nat, e: nat, t: nat) {
    s < e <= n <= |lengths| && (forall i :: s <= i < e ==> lengths[i] == t) && (e == n || lengths[e] != t)
  }

  /** The run's first block, and whether it is the last. */
  lemma RunHead(f: Format, lengths: seq<nat>, blocks: seq<nat>, n: nat, j: nat, s: nat, next: nat, e: nat, t: nat)
    requires Lengths(f, lengths, blocks, n) && j < |blocks| && s == Start(f, blocks, j)
             && next == Start(f, blocks, j + 1)
    requires IsRun(lengths, n, s, e, t)
    ensures blocks[j] == t && s < next
    ensures e < next ==> e == n
    ensures e == n <= next ==> j + 1 == |blocks|
    ensures next < e ==> j + 1 < |blocks| && IsRun(lengths, n, next, e, t)
  {
    LengthInBlock(f, lengths, blocks, n, j, s);
    if e < next && e < n {
      LengthInBlock(f, lengths, blocks, n, j, e);
    }
    if n <= next && j + 1 < |blocks| {
      StartGrows(f, blocks, j + 1, |blocks| - 1);
    }
  }

  /** A run from the start of block j is made of whole blocks of its type, up to the end of the input. */
  lemma {:induction false} RunIsBlocks(f: Format, lengths: seq<nat>, blocks: seq<nat>, n: nat, j: nat, e: nat, t: nat)
    returns (j': nat)
    requires Lengths(f, lengths, blocks, n) && j < |blocks| && IsRun(lengths, n, Start(f, blocks, j), e, t)
    ensures j < j' <= |blocks| && forall i :: j <= i < j' ==> blocks[i] == t
    ensures Start(f, blocks, j' - 1) < e <= Start(f, blocks, j') && (e < n ==> e == Start(f, blocks, j'))
            && (e == n ==> j' == |blocks|)
    decreases |blocks| - j
  {
    var next := Start(f, blocks, j + 1);
    RunHead(f, lengths, blocks, n, j, Start(f, blocks, j), next, e, t);
    if e <= next {
      j' := j + 1;
    } else {
      j' := RunIsBlocks(f, lengths, blocks, n, j + 1, e, t);
    }
  }

  /** What the promotion loop leaves behind. */
  lemma PromotedLengths(f: Format, s: seq<nat>, need: seq<nat>, end: nat, exact: bool, blocks: seq<nat>)
    requires IsFormat(f) && Promoted(s, need, end, exact, f.capacities, blocks) && |need| >= 1
    ensures Lengths(f, s, blocks, |need|) && blocks != [] && end == Start(f, blocks, |blocks|)
  {
    ExpandStart(f, blocks, |blocks|);
    assert blocks[..|blocks|] == blocks;
    var n := |need|;
    forall j: nat, i: nat | j < |blocks| && InBlock(f, blocks, j, i) && i < n ensures s[i] == blocks[j] {
      ExpandAt(f, blocks, j, i);
      assert s[i] == s[..end][i];
    }
  }

  // ----- keys

  /** A key: the type, and how far the batch is from sixteen blocks. */
  function KeyOf(t: nat, batch: nat): nat
    requires 1 <= batch <= 16
  {
    16 * t + (16 - batch)
  }

  /** The blocks that the keys stand for. */
  function ExpandKeys(keys: seq<nat>): (r: seq<nat>) {
    if keys == [] then []
    else ExpandKeys(keys[..|keys| - 1]) + Same(16 - keys[|keys| - 1] % 16, keys[|keys| - 1] / 16)
  }

  lemma OneMoreKey(keys: seq<nat>, t: nat, batch: nat)
    requires 1 <= batch <= 16
    ensures ExpandKeys(keys + [KeyOf(t, batch)]) == ExpandKeys(keys) + Same(batch, t)
  {
    var more := keys + [KeyOf(t, batch)];
    assert more[..|more| - 1] == keys;
  }

  /** The key stands for sixteen blocks. */
  ghost predicate IsFull(key: nat) {
    key % 16 == 0
  }

  /** A key is followed by another of its type only if it is full. */
  ghost predicate PackedKeys(keys: seq<nat>) {
    forall k, l :: 0 <= k && l == k + 1 < |keys| && keys[k] / 16 == keys[l] / 16 ==> IsFull(keys[k])
  }

  /** The keys of the first i blocks. */
  ghost predicate KeysFor(keys: seq<nat>, blocks: seq<nat>, i: nat) {
    i <= |blocks| && ExpandKeys(keys) == blocks[..i] && PackedKeys(keys)
  }

  /** Another key of type t may follow. */
  ghost predicate MayFollow(keys: seq<nat>, t: nat) {
    keys != [] && keys[|keys| - 1] / 16 == t ==> IsFull(keys[|keys| - 1])
  }

  lemma PackedSnoc(keys: seq<nat>, t: nat, batch: nat)
    requires PackedKeys(keys) && MayFollow(keys, t) && 1 <= batch <= 16
    ensures PackedKeys(keys + [KeyOf(t, batch)]) && (batch == 16 ==> MayFollow(keys + [KeyOf(t, batch)], t))
  {
    assert KeyOf(t, batch) / 16 == t && KeyOf(t, batch) % 16 == 16 - batch;
  }

  /** The last key is of the type of the last block. */
  lemma LastKey(keys: seq<nat>, blocks: seq<nat>, j: nat, t: nat)
    requires KeysFor(keys, blocks, j) && (j > 0 ==> blocks[j - 1] != t)
    ensures MayFollow(keys, t)
  {
    if keys != [] {
      var last := keys[|keys| - 1];
      var run := Same(16 - last % 16, last / 16);
      assert ExpandKeys(keys) == ExpandKeys(keys[..|keys| - 1]) + run;
      assert blocks[..j][j - 1] == run[|run| - 1];
    }
  }

  /** The keys before the k-th stand for the first blocks. */
  lemma {:induction false} ExpandPrefix(keys: seq<nat>, k: nat)
    requires k <= |keys|
    ensures ExpandKeys(keys[..k]) <= ExpandKeys(keys)
    decreases |keys|
  {
    if k < |keys| {
      var front := keys[..|keys| - 1];
      assert front[..k] == keys[..k];
      ExpandPrefix(front, k);
    } else {
      assert keys[..k] == keys;
    }
  }

  /** The blocks of the k-th key. */
  lemma BlocksOfKey(keys: seq<nat>, k: nat, blocks: seq<nat>, b: nat)
    requires k < |keys| && ExpandKeys(keys) == blocks && b == |ExpandKeys(keys[..k])|
    ensures var run := 16 - keys[k] % 16;
            && 1 <= run && b + run == |ExpandKeys(keys[..k + 1])| <= |blocks|
            && forall i :: b <= i < b + run ==> blocks[i] == keys[k] / 16
  {
    var run := 16 - keys[k] % 16;
    assert keys[..k + 1][..k] == keys[..k];
    var before, after := ExpandKeys(keys[..k]), ExpandKeys(keys[..k + 1]);
    assert after == before + Same(run, keys[k] / 16);
    ExpandPrefix(keys, k + 1);
    forall i | b <= i < b + run ensures blocks[i] == keys[k] / 16 {
      assert blocks[i] == after[i];
    }
  }

  /** Whatever other keys stand for the same blocks, m of these stand for at least as many. */
  lemma {:induction false} KeysAreAhead(keys: seq<nat>, other: seq<nat>, blocks: seq<nat>, m: nat)
    requires PackedKeys(keys) && ExpandKeys(keys) == blocks && ExpandKeys(other) == blocks
    requires m <= |keys| && m <= |other|
    ensures |ExpandKeys(other[..m])| <= |ExpandKeys(keys[..m])|
  {
    if m > 0 {
      KeysAreAhead(keys, other, blocks, m - 1);
      var a, b := |ExpandKeys(keys[..m - 1])|, |ExpandKeys(other[..m - 1])|;
      BlocksOfKey(keys, m - 1, blocks, a);
      BlocksOfKey(other, m - 1, blocks, b);
      var run, run' := 16 - keys[m - 1] % 16, 16 - other[m - 1] % 16;
      if a + run < b + run' {
        assert blocks[a + run - 1] == blocks[a + run] == other[m - 1] / 16;
        NotTheLast(keys, m, blocks);
        BlocksOfKey(keys, m, blocks, a + run);
      }
    }
  }

  lemma NotTheLast(keys: seq<nat>, m: nat, blocks: seq<nat>)
    requires ExpandKeys(keys) == blocks && m <= |keys| && |ExpandKeys(keys[..m])| < |blocks|
    ensures m < |keys|
  {
    assert keys[..|keys|] == keys;
  }

  /** No fewer keys stand for the same blocks. */
  lemma KeysAreFewest(keys: seq<nat>, other: seq<nat>, blocks: seq<nat>)
    requires PackedKeys(keys) && ExpandKeys(keys) == blocks && ExpandKeys(other) == blocks
    ensures |keys| <= |other|
  {
    var m := |other|;
    if m < |keys| {
      KeysAreAhead(keys, other, blocks, m);
      assert other[..m] == other;
      BlocksOfKey(keys, m, blocks, |ExpandKeys(keys[..m])|);
    }
  }

  // ----- data

  /** How many of the integers from `start` on go into a block of this capacity. */
  function Written(capacity: nat, start: nat, n: nat): nat {
    if start >= n then 0 else if n - start < capacity then n - start else capacity
  }

  /** A block lies within the source. */
  lemma BlockWithin(f: Format, source: seq<nat>, blocks: seq<nat>, j: nat)
    requires IsFormat(f) && AreBlocks(blocks) && j < |blocks| && Start(f, blocks, |blocks|) <= |source|
    ensures Start(f, blocks, j) + Count(f.layouts[blocks[j]]) <= |source|
  {
    var capacity := f.capacities[blocks[j]];
    assert Start(f, blocks, j + 1) == Start(f, blocks, j) + capacity && capacity == Count(f.layouts[blocks[j]]);
    StartGrows(f, blocks, j + 1, |blocks|);
  }

  /** The bytes of block j. */
  function BytesOfBlock(f: Format, source: seq<nat>, blocks: seq<nat>, j: nat, n: nat): seq<nat>
    requires IsFormat(f) && AreBlocks(blocks) && j < |blocks| && Start(f, blocks, |blocks|) <= |source|
  {
    BlockWithin(f, source, blocks, j);
    BlockBytes(f.layouts[blocks[j]], source[Start(f, blocks, j)..],
               Written(Count(f.layouts[blocks[j]]), Start(f, blocks, j), n))
  }

  ghost predicate IsPart(f: Format, part: seq<nat>, source: seq<nat>, blocks: seq<nat>, j: nat, n: nat) {
    && IsFormat(f) && AreBlocks(blocks) && j < |blocks| && Start(f, blocks, |blocks|) <= |source|
    && part == BytesOfBlock(f, source, blocks, j, n)
  }

  /** The bytes of every block. */
  ghost predicate AreParts(f: Format, parts: seq<seq<nat>>, source: seq<nat>, blocks: seq<nat>, n: nat) {
    && IsFormat(f) && AreBlocks(blocks) && |parts| == |blocks| && Start(f, blocks, |blocks|) <= |source|
    && forall j {:trigger IsPart(f, parts[j], source, blocks, j, n)} :: 0 <= j < |blocks| ==>
         IsPart(f, parts[j], source, blocks, j, n)
  }

  /** The blocks have bytes. */
  lemma PartsExist(f: Format, source: seq<nat>, blocks: seq<nat>, n: nat) returns (parts: seq<seq<nat>>)
    requires IsFormat(f) && AreBlocks(blocks) && Start(f, blocks, |blocks|) <= |source|
    ensures AreParts(f, parts, source, blocks, n)
  {
    parts := seq(|blocks|, j requires 0 <= j < |blocks| => BytesOfBlock(f, source, blocks, j, n));
    forall j: nat | j < |blocks| ensures IsPart(f, parts[j], source, blocks, j, n) {
    }
  }

  lemma {:induction false} StartRun(f: Format, blocks: seq<nat>, j: nat, m: nat, t: nat)
    requires IsFormat(f) && AreBlocks(blocks) && t < 16 && j + m <= |blocks|
    requires forall i :: j <= i < j + m ==> blocks[i] == t
    ensures Start(f, blocks, j + m) == Start(f, blocks, j) + m * f.capacities[t]
  {
    if m > 0 {
      StartRun(f, blocks, j, m - 1, t);
      OneMore(m, f.capacities[t]);
    }
  }

  /** Rounding up gives the number of blocks of the run. */
  lemma RunCount(f: Format, blocks: seq<nat>, j: nat, j': nat, t: nat, e: nat)
    requires IsFormat(f) && AreBlocks(blocks) && t < 16 && j < j' <= |blocks|
    requires forall i :: j <= i < j' ==> blocks[i] == t
    requires Start(f, blocks, j' - 1) < e <= Start(f, blocks, j')
    ensures Start(f, blocks, j) < e && (e - Start(f, blocks, j) + f.capacities[t] - 1) / f.capacities[t] == j' - j
    ensures j' - j <= e - Start(f, blocks, j)
  {
    var m, c, s := j' - j, f.capacities[t], Start(f, blocks, j);
    StartRun(f, blocks, j, m, t);
    StartRun(f, blocks, j, m - 1, t);
    StartGrows(f, blocks, j, j' - 1);
    OneMore(m, c);
    DivIs(e - s + c - 1, c, m);
  }

  lemma WrittenAlike(count: nat, start: nat, end: nat, n: nat)
    requires end <= n && (end == n || start + count <= end)
    ensures Written(count, start, end) == Written(count, start, n)
  {
  }

  /** Stopping at the end of the run writes as much of a block as stopping at the end of the input. */
  lemma SameWritten(f: Format, blocks: seq<nat>, b: nat, last: nat, end: nat, n: nat, count: nat, start: nat)
    requires IsFormat(f) && AreBlocks(blocks) && b < last <= |blocks| && count == f.capacities[blocks[b]]
    requires start == Start(f, blocks, b) && end <= n && (end == n || Start(f, blocks, last) <= end)
    ensures Written(count, start, end) == Written(count, start, n)
  {
    if end < n {
      StartGrows(f, blocks, b + 1, last);
      WrittenAlike(count, start, end, n);
    }
  }

  /** One block of a run that stops at `end`. */
  method WriteNext(f: Format, source: seq<nat>, start: nat, end: nat, t: nat,
                   ghost n: nat, ghost blocks: seq<nat>, ghost parts: seq<seq<nat>>, ghost b: nat, ghost last: nat)
    returns (block: seq<nat>)
    requires AreParts(f, parts, source, blocks, n) && t < 16 && b < last <= |blocks| && blocks[b] == t
    requires start == Start(f, blocks, b) && end <= n && (end == n || Start(f, blocks, last) <= end)
    ensures block == parts[b] && start + f.capacities[t] == Start(f, blocks, b + 1)
  {
    BlockWithin(f, source, blocks, b);
    SameWritten(f, blocks, b, last, end, n, f.capacities[t], start);
    assert IsPart(f, parts[b], source, blocks, b, n);
    block := WriteBlock(f.layouts[t], source[start..], Written(Count(f.layouts[t]), start, end));
  }

  /** The blocks of one batch. */
  method WriteBatch(f: Format, source: seq<nat>, data: seq<nat>, start: nat, end: nat, t: nat, batch: nat,
                    ghost n: nat, ghost blocks: seq<nat>, ghost parts: seq<seq<nat>>, ghost i: nat, ghost last: nat)
    returns (data': seq<nat>, start': nat)
    requires AreParts(f, parts, source, blocks, n) && t < 16 && i + batch <= last <= |blocks|
    requires forall b :: i <= b < last ==> blocks[b] == t
    requires start == Start(f, blocks, i) && data == Flatten(parts[..i])
    requires end <= n && (end == n || Start(f, blocks, last) <= end)
    ensures start' == Start(f, blocks, i + batch) && data' == Flatten(parts[..i + batch])
  {
    data', start' := data, start;
    var current := 0;
    ghost var b := i;
    while current < batch
      invariant current <= batch && b == i + current && start' == Start(f, blocks, b) && data' == Flatten(parts[..b])
    {
      var block := WriteNext(f, source, start', end, t, n, blocks, parts, b, last);
      OneMorePart(parts, b);
      data' := data' + block;
      start' := start' + f.capacities[t];
      current, b := current + 1, b + 1;
    }
  }

  lemma OneMorePart(parts: seq<seq<nat>>, b: nat)
    requires b < |parts|
    ensures Flatten(parts[..b + 1]) == Flatten(parts[..b]) + parts[b]
  {
    assert parts[..b + 1] == parts[..b] + [parts[b]];
    FlattenSnoc(parts[..b], parts[b]);
  }

  /** A run of whole blocks of one type, from block j to block j', that ends at `end`. */
  ghost predicate RunOf(f: Format, blocks: seq<nat>, j: nat, j': nat, t: nat, end: nat, n: nat) {
    && IsFormat(f) && AreBlocks(blocks) && t < 16 && j < j' <= |blocks| && (forall b :: j <= b < j' ==> blocks[b] == t)
    && Start(f, blocks, j' - 1) < end <= Start(f, blocks, j') && end <= n && (end == n || Start(f, blocks, j') == end)
  }

  /** One key more, over a length that was read. */
  method StoreKey(lengths: array<nat>, keyCount: nat, t: nat, batch: nat, ghost blocks: seq<nat>, ghost i: nat,
                  ghost end: nat)
    requires 1 <= batch <= 16 && keyCount < end <= lengths.Length && i + batch <= |blocks|
    requires KeysFor(lengths[..keyCount], blocks, i) && MayFollow(lengths[..keyCount], t)
    requires forall b :: i <= b < i + batch ==> blocks[b] == t
    modifies lengths
    ensures KeysFor(lengths[..keyCount + 1], blocks, i + batch)
    ensures batch == 16 ==> MayFollow(lengths[..keyCount + 1], t)
    ensures lengths[end..] == old(lengths[end..])
  {
    ghost var keys := lengths[..keyCount];
    lengths[keyCount] := KeyOf(t, batch);
    assert lengths[..keyCount + 1] == keys + [KeyOf(t, batch)];
    OneMoreKey(keys, t, batch);
    PackedSnoc(keys, t, batch);
    assert blocks[..i + batch] == blocks[..i] + Same(batch, t);
  }

  /** The blocks from `i` on still to be written for a run that ends at `end`. */
  ghost predicate RestOf(f: Format, blocks: seq<nat>, i: nat, j: nat, t: nat, end: nat, n: nat) {
    && IsFormat(f) && AreBlocks(blocks) && t < 16 && i <= j <= |blocks| && (forall b :: i <= b < j ==> blocks[b] == t)
    && end <= n && (end == n || Start(f, blocks, j) <= end)
  }

  /** How many blocks the run fills, the last one perhaps not to its end. */
  method BlockCount(f: Format, ghost start: nat, rawCount: nat, t: nat, ghost n: nat, ghost blocks: seq<nat>,
                    ghost j: nat, ghost j': nat)
    returns (count: nat)
    requires RunOf(f, blocks, j, j', t, start + rawCount, n) && start == Start(f, blocks, j)
    ensures count == j' - j <= rawCount && RestOf(f, blocks, j, j', t, start + rawCount, n)
  {
    RunCount(f, blocks, j, j', t, start + rawCount);
    count := (rawCount + f.capacities[t] - 1) / f.capacities[t];
  }

  /** The first i blocks have been written. */
  ghost predicate Emitted(f: Format, keys: seq<nat>, data: seq<nat>, blocks: seq<nat>, parts: seq<seq<nat>>, i: nat,
                          start: nat) {
    && IsFormat(f) && AreBlocks(blocks) && |parts| == |blocks| && KeysFor(keys, blocks, i)
    && data == Flatten(parts[..i]) && start == Start(f, blocks, i)
  }

  /** A key and the blocks it stands for. */
  method WriteKeyed(f: Format, lengths: array<nat>, keyCount: nat, source: seq<nat>, data: seq<nat>, start: nat,
                    end: nat, t: nat,
                    batch: nat, ghost n: nat, ghost blocks: seq<nat>, ghost parts: seq<seq<nat>>, ghost i: nat,
                    ghost j: nat)
    returns (data': seq<nat>, start': nat)
    requires AreParts(f, parts, source, blocks, n) && RestOf(f, blocks, i, j, t, end, n) && i + batch <= j
    requires 1 <= batch <= 16 && keyCount < end <= lengths.Length
    requires Emitted(f, lengths[..keyCount], data, blocks, parts, i, start) && MayFollow(lengths[..keyCount], t)
    modifies lengths
    ensures Emitted(f, lengths[..keyCount + 1], data', blocks, parts, i + batch, start')
    ensures (batch == 16 ==> MayFollow(lengths[..keyCount + 1], t)) && lengths[end..] == old(lengths[end..])
    ensures RestOf(f, blocks, i + batch, j, t, end, n)
  {
    StoreKey(lengths, keyCount, t, batch, blocks, i, end);
    data', start' := WriteBatch(f, source, data, start, end, t, batch, n, blocks, parts, i, j);
  }

  /** Writes the keys and the blocks of a run of integers of one type. */
  method WriteOut(f: Format, lengths: array<nat>, keyCount: nat, source: seq<nat>, data: seq<nat>, start: nat,
                  rawCount: nat, t: nat,
                  ghost n: nat, ghost blocks: seq<nat>, ghost parts: seq<seq<nat>>, ghost j: nat, ghost j': nat)
    returns (keyCount': nat, data': seq<nat>)
    requires AreParts(f, parts, source, blocks, n) && RunOf(f, blocks, j, j', t, start + rawCount, n)
    requires start == Start(f, blocks, j) && keyCount <= start && n <= lengths.Length
    requires KeysFor(lengths[..keyCount], blocks, j) && data == Flatten(parts[..j])
    requires j > 0 ==> blocks[j - 1] != t
    modifies lengths
    ensures keyCount' <= start + rawCount && KeysFor(lengths[..keyCount'], blocks, j') && data' == Flatten(parts[..j'])
    ensures lengths[start + rawCount..] == old(lengths[start + rawCount..])
  {
    var end := start + rawCount;
    var count := BlockCount(f, start, rawCount, t, n, blocks, j, j');
    keyCount', data' := keyCount, data;
    var current := start;
    ghost var i := j;
    ghost var kept := lengths[end..];
    LastKey(lengths[..keyCount], blocks, j, t);
    while count > 0
      invariant j <= i <= j' && count == j' - i && keyCount' <= start + (i - j)
      invariant Emitted(f, lengths[..keyCount'], data', blocks, parts, i, current)
      invariant lengths[end..] == kept && RestOf(f, blocks, i, j', t, end, n)
      invariant count > 0 ==> MayFollow(lengths[..keyCount'], t)
    {
      var batch := if count > 16 then 16 else count;
      data', current := WriteKeyed(f, lengths, keyCount', source, data', current, end, t, batch, n, blocks, parts, i,
                                   j');
      keyCount' := keyCount' + 1;
      count := count - batch;
      i := i + batch;
    }
  }

  /** The run that has been read so far, and what has been written before it. */
  ghost predicate Reading(f: Format, was: seq<nat>, now: seq<nat>, blocks: seq<nat>, n: nat, s: nat, current: nat,
                          bits: nat,
                          keyCount: nat, j: nat)
  {
    && Lengths(f, was, blocks, n) && s < current <= n && |now| == |was| && j < |blocks| && s == Start(f, blocks, j)
    && (forall i :: s <= i < current ==> was[i] == bits) && now[current..] == was[current..]
    && keyCount <= s && KeysFor(now[..keyCount], blocks, j) && (j > 0 ==> blocks[j - 1] != bits)
  }

  lemma RunEnds(f: Format, was: seq<nat>, now: seq<nat>, blocks: seq<nat>, n: nat, s: nat, current: nat, bits: nat,
                keyCount: nat, j: nat)
    returns (j': nat)
    requires Reading(f, was, now, blocks, n, s, current, bits, keyCount, j) && (current == n || was[current] != bits)
    ensures RunOf(f, blocks, j, j', bits, current, n)
    ensures current < n ==> j' < |blocks| && current == Start(f, blocks, j')
    ensures current == n ==> j' == |blocks|
  {
    assert IsRun(was, n, s, current, bits);
    j' := RunIsBlocks(f, was, blocks, n, j, current, bits);
    assert blocks[j] == bits;
  }

  lemma ReadOn(f: Format, was: seq<nat>, now: seq<nat>, blocks: seq<nat>, n: nat, s: nat, current: nat, bits: nat,
               keyCount: nat, j: nat)
    requires Reading(f, was, now, blocks, n, s, current, bits, keyCount, j) && current < n
    ensures now[current] == was[current]
    ensures was[current] == bits ==> Reading(f, was, now, blocks, n, s, current + 1, bits, keyCount, j)
  {
    assert now[current] == now[current..][0] && was[current] == was[current..][0];
    assert now[current + 1..] == now[current..][1..] && was[current + 1..] == was[current..][1..];
  }

  lemma NextRun(f: Format, was: seq<nat>, now: seq<nat>, blocks: seq<nat>, n: nat, current: nat, keyCount: nat, j: nat)
    requires Lengths(f, was, blocks, n) && current < n && |now| == |was| && j < |blocks|
             && current == Start(f, blocks, j)
    requires now[current..] == was[current..] && keyCount <= current && KeysFor(now[..keyCount], blocks, j)
    requires j > 0 ==> blocks[j - 1] != was[current]
    ensures Reading(f, was, now, blocks, n, current, current + 1, was[current], keyCount, j)
  {
    assert now[current + 1..] == now[current..][1..] && was[current + 1..] == was[current..][1..];
  }

  /** Writes the run that ends at `current`. */
  method EndRun(f: Format, lengths: array<nat>, keyCount: nat, source: seq<nat>, data: seq<nat>, current: nat,
                runLength: nat, bits: nat, ghost n: nat, ghost was: seq<nat>, ghost blocks: seq<nat>,
                ghost parts: seq<seq<nat>>, ghost j: nat)
    returns (keyCount': nat, data': seq<nat>, ghost j': nat)
    requires AreParts(f, parts, source, blocks, n) && 1 <= runLength <= current
    requires Reading(f, was, lengths[..], blocks, n, current - runLength, current, bits, keyCount, j)
    requires data == Flatten(parts[..j])
    requires current == n || was[current] != bits
    modifies lengths
    ensures keyCount' <= current && KeysFor(lengths[..keyCount'], blocks, j') && data' == Flatten(parts[..j'])
    ensures lengths[current..] == old(lengths[current..])
    ensures if current == n then j' == |blocks|
            else j' < |blocks| && current == Start(f, blocks, j') && j' > 0 && blocks[j' - 1] == bits
  {
    j' := RunEnds(f, was, lengths[..], blocks, n, current - runLength, current, bits, keyCount, j);
    keyCount', data' := WriteOut(f, lengths, keyCount, source, data, current - runLength, runLength, bits, n, blocks,
                                 parts, j, j');
  }

  /** Reads the lengths once, and writes every run when it ends. The keys never overtake the reading. */
  method EmitRuns(f: Format, lengths: array<nat>, source: seq<nat>, n: nat, ghost blocks: seq<nat>,
                  ghost parts: seq<seq<nat>>)
    returns (keyCount: nat, data: seq<nat>)
    requires n >= 1 && Lengths(f, lengths[..], blocks, n) && AreParts(f, parts, source, blocks, n)
    modifies lengths
    ensures keyCount <= n <= lengths.Length && ExpandKeys(lengths[..keyCount]) == blocks && data == Flatten(parts)
    ensures PackedKeys(lengths[..keyCount])
  {
    ghost var was := lengths[..];
    keyCount, data := 0, [];
    var runLength, bits, current := 1, lengths[0], 1;
    ghost var j: nat, j': nat := 0, 0;
    assert parts[..0] == [] && blocks[..0] == [] && lengths[..0] == [];
    StartGrows(f, blocks, 0, |blocks|);
    while current < n
      invariant 1 <= current <= n && 1 <= runLength <= current
      invariant Reading(f, was, lengths[..], blocks, n, current - runLength, current, bits, keyCount, j)
      invariant data == Flatten(parts[..j])
    {
      var newNeeded := lengths[current];
      ReadOn(f, was, lengths[..], blocks, n, current - runLength, current, bits, keyCount, j);
      if newNeeded == bits {
        runLength := runLength + 1;
      } else {
        keyCount, data, j' :=
          EndRun(f, lengths, keyCount, source, data, current, runLength, bits, n, was, blocks, parts, j);
        NextRun(f, was, lengths[..], blocks, n, current, keyCount, j');
        bits, runLength, j := newNeeded, 1, j';
      }
      current := current + 1;
    }
    keyCount, data, j' :=
      EndRun(f, lengths, keyCount, source, data, current, runLength, bits, n, was, blocks, parts, j);
    assert blocks[..j'] == blocks && parts[..j'] == parts;
  }
}
