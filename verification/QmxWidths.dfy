/** How QMX chooses the widths of its blocks. A length is the index of a width in the table of widths
    (0 to 10, 12, 16, 21, 32 and 128 bits), which is also the type in the block's key; the table of
    capacities says how many integers a block of each type holds. */
module QmxWidths {
  import opened Bits

  /** Blocks are made of whole quads, except that the last type is for single integers. */
  ghost predicate IsTable(caps: seq<nat>) {
    && |caps| == 16 && caps[15] == 1 && caps[14] == 4
    && forall t :: 0 <= t < 15 ==> 4 <= caps[t] <= 256 && caps[t] % 4 == 0
  }

  const SINGLE: nat := 15

  const WASTAGE: nat := 512

  function Filled(s: seq<nat>, start: nat, count: nat, t: nat): (r: seq<nat>)
    requires start + count <= |s|
    ensures |r| == |s|
    ensures forall i :: 0 <= i < |s| ==> r[i] == if start <= i < start + count then t else s[i]
  {
    s[..start] + Same(count, t) + s[start + count..]
  }

  function MaxOf(s: seq<nat>): (r: nat)
    ensures forall i :: 0 <= i < |s| ==> s[i] <= r
    ensures s != [] ==> r in s
  {
    if s == [] then 0 else
      var m := MaxOf(s[1..]);
      if s[0] >= m then s[0] else m
  }

  // ----- one turn of the promotion loop

  /** Fewer than 16 integers are left: if they are short, they are given 8, 16 or 32 bits. */
  function AfterShortEnd(s: seq<nat>, n: nat, c: nat): (r: seq<nat>)
    requires c < n && n + WASTAGE <= |s|
    ensures |r| == |s|
  {
    if n - c < 4 then
      var largest := MaxOf(s[c..c + 8]);
      if largest <= 8 then Filled(s, c, 8, 8)
      else if largest <= 12 then Filled(s, c, 8, 12)
      else if largest <= 14 then Filled(s, c, 8, 14)
      else s
    else if n - c < 8 then
      if MaxOf(s[c..c + 8]) <= 8 then Filled(s, c, 8, 8) else s
    else if n - c < 16 then
      if MaxOf(s[c..c + 16]) <= 8 then Filled(s, c, 16, 8) else s
    else s
  }

  /** Some quad of the block needs more than type t. */
  predicate AnyAbove(s: seq<nat>, c: nat, cap: nat, t: nat)
    requires c + cap <= |s|
  {
    exists b :: c <= b < c + cap && b % 4 == 0 && s[b] > t
  }

  /** The case of the type at the cursor: promote its quad, or settle a block and move on. When
      `exact`, a block is settled only if there are enough integers left to fill it. */
  function StepLengths(s: seq<nat>, n: nat, c: nat, exact: bool, caps: seq<nat>): (r: seq<nat>)
    requires IsTable(caps) && c < n && n + WASTAGE <= |s| && s[c] <= SINGLE
    ensures |r| == |s|
  {
    var t := s[c];
    if t == SINGLE then s
    else if exact && n - c < caps[t] then
      if t == 14 then Filled(s, c, n - c, SINGLE) else Filled(s, c, 4, t + 1)
    else if AnyAbove(s, c, caps[t], t) then Filled(s, c, 4, t + 1)
    else Filled(s, c, caps[t], t)
  }

  function StepCursor(s: seq<nat>, n: nat, c: nat, exact: bool, caps: seq<nat>): (r: nat)
    requires IsTable(caps) && c < n && n + WASTAGE <= |s| && s[c] <= SINGLE
  {
    var t := s[c];
    if t == SINGLE then n
    else if exact && n - c < caps[t] then c
    else if AnyAbove(s, c, caps[t], t) then c
    else c + caps[t]
  }

  // ----- what the loop keeps

  /** The lengths of a sequence of blocks. */
  function Expand(blocks: seq<nat>, caps: seq<nat>): (r: seq<nat>)
    requires IsTable(caps) && forall j :: 0 <= j < |blocks| ==> blocks[j] < 16
  {
    if blocks == [] then []
    else Expand(blocks[..|blocks| - 1], caps) + Same(caps[blocks[|blocks| - 1]], blocks[|blocks| - 1])
  }

  ghost predicate AreBlocks(blocks: seq<nat>) {
    forall j :: 0 <= j < |blocks| ==> blocks[j] < 16
  }

  ghost predicate NoSingles(blocks: seq<nat>) {
    forall j :: 0 <= j < |blocks| ==> blocks[j] < SINGLE
  }

  ghost predicate IsQuad(s: seq<nat>, i: nat) {
    i + 4 <= |s| && s[i] == s[i + 1] == s[i + 2] == s[i + 3]
  }

  /** From the cursor on, the four lengths of a quad are equal. */
  ghost predicate Quads(s: seq<nat>, c: nat) {
    forall i {:trigger IsQuad(s, i)} :: c <= i && i + 4 <= |s| && i % 4 == 0 ==> IsQuad(s, i)
  }

  /** The lengths are long enough for the integers, and in range. */
  ghost predicate LongEnough(s: seq<nat>, need: seq<nat>) {
    && |need| + WASTAGE <= |s|
    && (forall i :: 0 <= i < |s| ==> s[i] <= SINGLE)
    && forall i :: 0 <= i < |need| ==> need[i] <= s[i]
  }

  /** While there are integers left: settled blocks before the cursor, quads after it. */
  ghost predicate Promoting(s: seq<nat>, need: seq<nat>, c: nat, exact: bool, caps: seq<nat>, blocks: seq<nat>) {
    && IsTable(caps) && LongEnough(s, need) && c < |need| && c % 4 == 0
    && NoSingles(blocks) && s[..c] == Expand(blocks, caps)
    && (if s[c] == SINGLE then exact && |need| - c < 4 && (forall i :: c <= i < |need| ==> s[i] == SINGLE)
        else Quads(s, c) && forall i :: c <= i < |s| ==> s[i] < SINGLE)
  }

  /** At the end: the blocks cover all the integers. If `exact` they are filled exactly, and at most
      three single integers come last; otherwise only the last block may reach past the end. */
  ghost predicate Promoted(s: seq<nat>, need: seq<nat>, c: nat, exact: bool, caps: seq<nat>, blocks: seq<nat>) {
    && IsTable(caps) && LongEnough(s, need) && |need| <= c <= |s|
    && AreBlocks(blocks) && s[..c] == Expand(blocks, caps)
    && (exact ==> c == |need| && exists m :: 0 <= m <= 3 && m <= |blocks| && SinglesLast(blocks, m))
    && (!exact ==> NoSingles(blocks) && (blocks != [] ==> c - caps[blocks[|blocks| - 1]] < |need|))
  }

  ghost predicate SinglesLast(blocks: seq<nat>, m: nat)
    requires m <= |blocks|
  {
    NoSingles(blocks[..|blocks| - m]) && forall j :: |blocks| - m <= j < |blocks| ==> blocks[j] == SINGLE
  }

  lemma FilledQuads(s: seq<nat>, c: nat, count: nat, t: nat)
    requires Quads(s, c) && c % 4 == 0 && count % 4 == 0 && c + count <= |s|
    ensures Quads(Filled(s, c, count, t), c)
  {
    var r := Filled(s, c, count, t);
    forall i: nat | c <= i && i + 4 <= |s| && i % 4 == 0 ensures IsQuad(r, i) {
      assert IsQuad(s, i);
      assert i < c + count ==> i + 4 <= c + count;
    }
  }

  /** Raising the lengths of whole quads from the cursor on. */
  lemma Raised(s: seq<nat>, need: seq<nat>, c: nat, exact: bool, caps: seq<nat>, blocks: seq<nat>, count: nat, t: nat)
    requires Promoting(s, need, c, exact, caps, blocks) && s[c] < SINGLE && t < SINGLE
    requires count % 4 == 0 && 4 <= count && c + count <= |s| && forall i :: c <= i < c + count ==> s[i] <= t
    ensures Promoting(Filled(s, c, count, t), need, c, exact, caps, blocks)
  {
    var r := Filled(s, c, count, t);
    FilledQuads(s, c, count, t);
    assert r[..c] == s[..c];
  }

  lemma InRange(s: seq<nat>, c: nat, count: nat)
    requires c + count <= |s|
    ensures forall i :: c <= i < c + count ==> s[i] <= MaxOf(s[c..c + count])
  {
    forall i | c <= i < c + count ensures s[i] <= MaxOf(s[c..c + count]) {
      assert s[i] == s[c..c + count][i - c];
    }
  }

  /** The special cases near the end raise the first lengths to one width, or leave them all alone. */
  lemma ShortEndFills(s: seq<nat>, n: nat, c: nat) returns (count: nat, t: nat)
    requires c < n && n + WASTAGE <= |s|
    ensures count == 0 ==> AfterShortEnd(s, n, c) == s
    ensures count > 0 ==> count % 4 == 0 && c + count <= |s| && t < SINGLE
                          && AfterShortEnd(s, n, c) == Filled(s, c, count, t)
    ensures count > 0 ==> forall i :: c <= i < c + count ==> s[i] <= t
    ensures count > 0 ==> n - c < 16 && (t == 8 || n - c < 4)
  {
    count, t := 0, 8;
    var largest := MaxOf(s[c..c + 8]);
    InRange(s, c, 8);
    InRange(s, c, 16);
    if n - c < 4 {
      if largest <= 14 {
        count, t := 8, if largest <= 8 then 8 else if largest <= 12 then 12 else 14;
      }
    } else if n - c < 8 {
      count := if largest <= 8 then 8 else 0;
    } else if n - c < 16 {
      count := if MaxOf(s[c..c + 16]) <= 8 then 16 else 0;
    }
  }

  lemma ShortEndKeeps(s: seq<nat>, need: seq<nat>, c: nat, exact: bool, caps: seq<nat>, blocks: seq<nat>)
    requires Promoting(s, need, c, exact, caps, blocks)
    ensures Promoting(AfterShortEnd(s, |need|, c), need, c, exact, caps, blocks)
    ensures AfterShortEnd(s, |need|, c)[c] >= s[c]
  {
    var count, t := ShortEndFills(s, |need|, c);
    if count > 0 {
      Raised(s, need, c, exact, caps, blocks, count, t);
    }
  }

  lemma OneMoreBlock(blocks: seq<nat>, t: nat, caps: seq<nat>)
    requires IsTable(caps) && AreBlocks(blocks) && t < 16
    ensures AreBlocks(blocks + [t]) && Expand(blocks + [t], caps) == Expand(blocks, caps) + Same(caps[t], t)
  {
    var more := blocks + [t];
    assert more[..|more| - 1] == blocks;
  }

  lemma {:induction false} MoreSingles(blocks: seq<nat>, m: nat, caps: seq<nat>)
    requires IsTable(caps) && AreBlocks(blocks)
    ensures AreBlocks(blocks + Same(m, SINGLE))
    ensures Expand(blocks + Same(m, SINGLE), caps) == Expand(blocks, caps) + Same(m, SINGLE)
  {
    if m == 0 {
      assert blocks + Same(0, SINGLE) == blocks;
    } else {
      MoreSingles(blocks, m - 1, caps);
      var more := blocks + Same(m - 1, SINGLE);
      OneMoreBlock(more, SINGLE, caps);
      OneMoreSame(blocks, m - 1);
      OneMoreSame(Expand(blocks, caps), m - 1);
    }
  }

  lemma OneMoreSame(s: seq<nat>, m: nat)
    ensures s + Same(m + 1, SINGLE) == (s + Same(m, SINGLE)) + [SINGLE]
    ensures Same(1, SINGLE) == [SINGLE]
  {
  }

  /** The blocks settled by a turn of the loop. */
  function StepBlocks(s: seq<nat>, n: nat, c: nat, exact: bool, caps: seq<nat>): seq<nat>
    requires IsTable(caps) && c < n && n + WASTAGE <= |s| && s[c] <= SINGLE
  {
    if s[c] == SINGLE then Same(n - c, SINGLE)
    else if StepCursor(s, n, c, exact, caps) == c then []
    else [s[c]]
  }

  lemma WhenStuck(s: seq<nat>, n: nat, c: nat, exact: bool, caps: seq<nat>)
    requires IsTable(caps) && c < n && n + WASTAGE <= |s| && c % 4 == 0 && s[c] <= SINGLE
    requires StepCursor(s, n, c, exact, caps) == c
    ensures s[c] < 14 ==> StepLengths(s, n, c, exact, caps) == Filled(s, c, 4, s[c] + 1)
    ensures s[c] >= 14 ==> exact && n - c < 4 && s[c] == 14
                           && StepLengths(s, n, c, exact, caps) == Filled(s, c, n - c, SINGLE)
  {
    if s[c] == 14 {
      OneQuad(s, c);
    }
  }

  /** A turn that does not move the cursor raises the length there. */
  lemma StepPromotes(s: seq<nat>, need: seq<nat>, c: nat, exact: bool, caps: seq<nat>, blocks: seq<nat>, r: seq<nat>)
    requires Promoting(s, need, c, exact, caps, blocks)
    requires s[c] < 14 && r == Filled(s, c, 4, s[c] + 1)
    ensures Promoting(r, need, c, exact, caps, blocks) && r[c] > s[c]
  {
    assert IsQuad(s, c);
    Raised(s, need, c, exact, caps, blocks, 4, s[c] + 1);
  }

  lemma MadeSingle(s: seq<nat>, need: seq<nat>, c: nat, exact: bool, caps: seq<nat>, blocks: seq<nat>, r: seq<nat>)
    requires Promoting(s, need, c, exact, caps, blocks) && s[c] < SINGLE && exact && |need| - c < 4
    requires r == Filled(s, c, |need| - c, SINGLE)
    ensures Promoting(r, need, c, exact, caps, blocks) && r[c] == SINGLE
  {
    assert r[..c] == s[..c];
  }

  lemma OneQuad(s: seq<nat>, c: nat)
    requires c + 4 <= |s| && c % 4 == 0
    ensures !AnyAbove(s, c, 4, s[c])
  {
    forall b | c <= b < c + 4 && b % 4 == 0 ensures s[b] <= s[c] {
      assert b == c;
    }
  }

  /** The start of a quad. */
  function Head(i: nat): (r: nat)
    ensures r % 4 == 0 && r <= i < r + 4
  {
    i - i % 4
  }

  lemma HeadWithin(c: nat, end: nat, i: nat)
    requires c % 4 == 0 && end % 4 == 0 && c <= i < end
    ensures c <= Head(i) && Head(i) + 4 <= end
  {
  }

  lemma NoneAbove(s: seq<nat>, c: nat, cap: nat, t: nat)
    requires Quads(s, c) && c % 4 == 0 && cap % 4 == 0 && c + cap <= |s| && !AnyAbove(s, c, cap, t)
    ensures forall i :: c <= i < c + cap ==> s[i] <= t
  {
    forall i | c <= i < c + cap ensures s[i] <= t {
      HeadWithin(c, c + cap, i);
      var b := Head(i);
      assert s[b] <= t;
      assert IsQuad(s, b);
    }
  }

  ghost predicate State(s: seq<nat>, need: seq<nat>, c: nat, exact: bool, caps: seq<nat>, blocks: seq<nat>) {
    if c < |need| then Promoting(s, need, c, exact, caps, blocks) else Promoted(s, need, c, exact, caps, blocks)
  }

  /** A turn that settles a block. */
  lemma StepSettles(s: seq<nat>, need: seq<nat>, c: nat, exact: bool, caps: seq<nat>, blocks: seq<nat>, r: seq<nat>,
                    next: nat)
    requires Promoting(s, need, c, exact, caps, blocks) && s[c] < SINGLE
    requires next == c + caps[s[c]] <= |s| && (exact ==> next <= |need|) && !AnyAbove(s, c, caps[s[c]], s[c])
    requires r == Filled(s, c, caps[s[c]], s[c])
    ensures State(r, need, next, exact, caps, blocks + [s[c]])
  {
    var t := s[c];
    NoneAbove(s, c, caps[t], t);
    OneMoreBlock(blocks, t, caps);
    assert r[..next] == s[..c] + Same(caps[t], t);
    if next < |need| {
      QuadsAfter(s, c, caps[t], t);
    } else if exact {
      assert SinglesLast(blocks + [t], 0);
    }
  }

  lemma QuadsAfter(s: seq<nat>, c: nat, cap: nat, t: nat)
    requires Quads(s, c) && c + cap <= |s|
    ensures Quads(Filled(s, c, cap, t), c + cap)
  {
    var r := Filled(s, c, cap, t);
    forall i: nat | c + cap <= i && i + 4 <= |s| && i % 4 == 0 ensures IsQuad(r, i) {
      assert IsQuad(s, i);
    }
  }

  /** The turn that settles single integers. */
  lemma StepSingles(s: seq<nat>, need: seq<nat>, c: nat, exact: bool, caps: seq<nat>, blocks: seq<nat>)
    requires Promoting(s, need, c, exact, caps, blocks) && s[c] == SINGLE
    ensures Promoted(s, need, |need|, exact, caps, blocks + Same(|need| - c, SINGLE))
  {
    var m := |need| - c;
    MoreSingles(blocks, m, caps);
    assert s[..|need|] == s[..c] + Same(m, SINGLE);
    var more := blocks + Same(m, SINGLE);
    assert more[..|more| - m] == blocks;
    assert SinglesLast(more, m);
  }

  /** One turn of the loop: it moves on, or raises the length at the cursor. */
  lemma Turn(s: seq<nat>, need: seq<nat>, c: nat, exact: bool, caps: seq<nat>, blocks: seq<nat>, r: seq<nat>)
    requires Promoting(s, need, c, exact, caps, blocks) && r == AfterShortEnd(s, |need|, c)
    ensures c % 4 == 0 && r[c] <= SINGLE
    ensures var s', c' := StepLengths(r, |need|, c, exact, caps), StepCursor(r, |need|, c, exact, caps);
            && State(s', need, c', exact, caps, blocks + StepBlocks(r, |need|, c, exact, caps))
            && c <= c' && (c' == c ==> s'[c] > s[c])
  {
    ShortEndKeeps(s, need, c, exact, caps, blocks);
    var n := |need|;
    var s', c' := StepLengths(r, n, c, exact, caps), StepCursor(r, n, c, exact, caps);
    if c' == c {
      assert blocks + StepBlocks(r, n, c, exact, caps) == blocks;
      WhenStuck(r, n, c, exact, caps);
      if r[c] < 14 {
        StepPromotes(r, need, c, exact, caps, blocks, s');
      } else {
        MadeSingle(r, need, c, exact, caps, blocks, s');
      }
    } else if r[c] == SINGLE {
      StepSingles(r, need, c, exact, caps, blocks);
    } else {
      StepSettles(r, need, c, exact, caps, blocks, s', c');
    }
  }

  // ----- the loops

  method Fill(lengths: array<nat>, start: nat, count: nat, t: nat)
    requires start + count <= lengths.Length
    modifies lengths
    ensures lengths[..] == Filled(old(lengths[..]), start, count, t)
  {
    ghost var s := lengths[..];
    var block := 0;
    while block < count
      invariant block <= count
      invariant forall i :: 0 <= i < lengths.Length ==> lengths[i] == if start <= i < start + block then t else s[i]
    {
      lengths[start + block] := t;
      block := block + 1;
    }
  }

  method Largest(lengths: array<nat>, start: nat, count: nat) returns (largest: nat)
    requires start + count <= lengths.Length
    ensures largest == MaxOf(lengths[start..start + count])
  {
    ghost var s, at := lengths[start..start + count], 0;
    largest := 0;
    var block := 0;
    while block < count
      invariant block <= count && forall i :: 0 <= i < block ==> s[i] <= largest
      invariant largest == 0 || (at < block && s[at] == largest)
    {
      assert s[block] == lengths[start + block];
      if lengths[start + block] > largest {
        largest, at := lengths[start + block], block;
      }
      block := block + 1;
    }
    IsLargest(s, largest, at);
  }

  lemma IsLargest(s: seq<nat>, m: nat, at: nat)
    requires (forall i :: 0 <= i < |s| ==> s[i] <= m) && (m == 0 || (at < |s| && s[at] == m))
    ensures m == MaxOf(s)
  {
  }

  method ShortEnd(lengths: array<nat>, n: nat, c: nat)
    requires c < n && n + WASTAGE <= lengths.Length
    modifies lengths
    ensures lengths[..] == AfterShortEnd(old(lengths[..]), n, c)
  {
    ghost var s := lengths[..];
    var count := if n - c < 8 then 8 else 16;
    if n - c < 16 {
      var largest := Largest(lengths, c, count);
      assert s[c..c + count] == lengths[c..c + count];
      if largest <= 8 {
        Fill(lengths, c, count, 8);
      } else if n - c < 4 && largest <= 12 {
        Fill(lengths, c, 8, 12);
      } else if n - c < 4 && largest <= 14 {
        Fill(lengths, c, 8, 14);
      }
    }
  }

  /** Looks at the head of every quad of the block, and promotes the first quad if one is longer. */
  method PromoteIfAbove(lengths: array<nat>, c: nat, cap: nat, t: nat)
    requires c % 4 == 0 && cap % 4 == 0 && 4 <= cap && c + cap <= lengths.Length && lengths[c] == t
    modifies lengths
    ensures lengths[..] == if AnyAbove(old(lengths[..]), c, cap, t) then Filled(old(lengths[..]), c, 4, t + 1)
                           else old(lengths[..])
  {
    ghost var s := lengths[..];
    var block := 0;
    while block < cap
      invariant block <= cap && block % 4 == 0
      invariant lengths[..] == if AnyAbove(s, c, block, t) then Filled(s, c, 4, t + 1) else s
    {
      OneMoreQuad(s, c, block, t);
      assert block >= 4 ==> lengths[..][c + block] == s[c + block];
      if block == 0 {
        assert lengths[..] == s;
      }
      if lengths[c + block] > t {
        lengths[c], lengths[c + 1], lengths[c + 2], lengths[c + 3] := t + 1, t + 1, t + 1, t + 1;
        assert lengths[..] == Filled(s, c, 4, t + 1);
      }
      block := block + 4;
    }
  }

  lemma OneMoreQuad(s: seq<nat>, c: nat, block: nat, t: nat)
    requires c % 4 == 0 && block % 4 == 0 && c + block + 4 <= |s|
    ensures AnyAbove(s, c, block + 4, t) <==> AnyAbove(s, c, block, t) || s[c + block] > t
    ensures !AnyAbove(s, c, 0, t)
  {
    forall b | c + block <= b < c + block + 4 && b % 4 == 0 ensures b == c + block {
    }
  }

  /** The switch on the type at the cursor. */
  method Settle(lengths: array<nat>, n: nat, c: nat, exact: bool, caps: seq<nat>) returns (next: nat)
    requires IsTable(caps) && c < n && c % 4 == 0 && n + WASTAGE <= lengths.Length && lengths[c] <= SINGLE
    modifies lengths
    ensures lengths[..] == StepLengths(old(lengths[..]), n, c, exact, caps)
    ensures next == StepCursor(old(lengths[..]), n, c, exact, caps)
  {
    ghost var s := lengths[..];
    next := c;
    var t := lengths[c];
    if t == SINGLE {
      next := n;
    } else if exact && n - c < caps[t] {
      if t == 14 {
        Fill(lengths, c, n - c, SINGLE);
      } else {
        Fill(lengths, c, 4, t + 1);
      }
    } else {
      PromoteIfAbove(lengths, c, caps[t], t);
      assert lengths[..][c] == lengths[c];
      if lengths[c] == t {
        Fill(lengths, c, caps[t], t);
        next := c + caps[t];
      }
    }
  }
}
