/** Which widths the promotion loop of QMX ends with: a block has the least type that suits the integers in
    it, whatever the lengths looked like on the way. */
module QmxChoice {
  import opened Bits
  import opened QmxWidths

  // ----- the choice

  /** A block of type t from c on: its integers fit and, if `exact`, there are enough to fill it. */
  ghost predicate Suits(need: seq<nat>, c: nat, exact: bool, caps: seq<nat>, t: nat)
    requires |caps| == 16
  {
    && t < SINGLE && (exact ==> c + caps[t] <= |need|)
    && forall i :: c <= i < c + caps[t] && i < |need| ==> need[i] <= t
  }

  ghost predicate NoneBelow(need: seq<nat>, c: nat, exact: bool, caps: seq<nat>, t: nat)
    requires |caps| == 16
  {
    forall u: nat :: u < t ==> !Suits(need, c, exact, caps, u)
  }

  /** The least type that suits the integers from c on; integers that no type suits are single. */
  ghost predicate IsLeast(need: seq<nat>, c: nat, exact: bool, caps: seq<nat>, t: nat)
    requires |caps| == 16
  {
    t <= SINGLE && (t < SINGLE ==> Suits(need, c, exact, caps, t)) && NoneBelow(need, c, exact, caps, t)
  }

  ghost predicate RestWithin(need: seq<nat>, c: nat, t: nat) {
    forall i :: c <= i < |need| ==> need[i] <= t
  }

  /** Fewer than four integers are left, or fewer than sixteen that fit in 8 bits. */
  ghost predicate IsShort(need: seq<nat>, c: nat) {
    c <= |need| && (|need| - c < 4 || (|need| - c < 16 && RestWithin(need, c, 8)))
  }

  /** They are given 8, 16 or 32 bits. */
  ghost function ShortType(need: seq<nat>, c: nat): nat {
    if RestWithin(need, c, 8) then 8 else if RestWithin(need, c, 12) then 12 else 14
  }

  /** The type of a block from c on. Blocks that must be filled exactly are not short. */
  ghost predicate IsChoice(need: seq<nat>, c: nat, exact: bool, caps: seq<nat>, t: nat)
    requires |caps| == 16
  {
    if !exact && IsShort(need, c) then t == ShortType(need, c) else IsLeast(need, c, exact, caps, t)
  }

  ghost predicate Chosen(need: seq<nat>, exact: bool, caps: seq<nat>, blocks: seq<nat>) {
    && IsTable(caps) && AreBlocks(blocks)
    && forall j :: 0 <= j < |blocks| ==> IsChoice(need, |Expand(blocks[..j], caps)|, exact, caps, blocks[j])
  }

  /** The narrow types hold at least sixteen integers; those of 8 and 16 bits, sixteen and eight. */
  ghost predicate IsShortTable(caps: seq<nat>) {
    IsTable(caps) && caps[8] == 16 && caps[12] == 8 && forall t :: 0 <= t <= 9 ==> caps[t] >= 16
  }

  // ----- what the lengths are on the way

  ghost predicate QuadWithin(need: seq<nat>, b: nat, t: nat) {
    forall i :: b <= i < b + 4 && i < |need| ==> need[i] <= t
  }

  /** The length of the quad is the greatest that one of its integers needs. */
  ghost predicate LevelAt(level: seq<nat>, need: seq<nat>, b: nat) {
    && b < |level| && QuadWithin(need, b, level[b])
    && (level[b] == 0 || exists i :: b <= i < b + 4 && i < |need| && need[i] == level[b])
  }

  ghost predicate IsLevel(level: seq<nat>, need: seq<nat>) {
    && (forall i :: 0 <= i < |need| ==> need[i] <= 14)
    && forall b {:trigger LevelAt(level, need, b)} :: 0 <= b && b + 4 <= |level| && b % 4 == 0 ==>
         LevelAt(level, need, b)
  }

  /** A later quad is as it was, unless the last few integers were widened in vain. */
  ghost predicate QuadKept(s: seq<nat>, level: seq<nat>, left: int, exact: bool, b: nat) {
    && b < |s| == |level|
    && (s[b] == level[b] || (exact && ((left < 16 && level[b] <= 8 == s[b]) || left < 4)))
  }

  ghost predicate Kept(s: seq<nat>, level: seq<nat>, left: int, c: nat, exact: bool) {
    forall b {:trigger QuadKept(s, level, left, exact, b)} :: c + 4 <= b && b + 4 <= |s| && b % 4 == 0 ==>
      QuadKept(s, level, left, exact, b)
  }

  ghost predicate Tracks(s: seq<nat>, level: seq<nat>, need: seq<nat>, c: nat, exact: bool, caps: seq<nat>) {
    && IsShortTable(caps) && IsLevel(level, need) && |s| == |level| && c < |need| && |need| + WASTAGE <= |s|
    && c % 4 == 0
    && NoneBelow(need, c, exact, caps, s[c]) && Kept(s, level, |need| - c, c, exact)
    && (!exact && IsShort(need, c) ==> s[c] == level[c])
  }

  /** A block that takes in a quad suits only if the quad fits. */
  lemma QuadDecides(level: seq<nat>, need: seq<nat>, c: nat, exact: bool, caps: seq<nat>, t: nat, b: nat)
    requires IsTable(caps) && IsLevel(level, need) && t < SINGLE && c % 4 == 0 && b % 4 == 0
    requires c <= b < c + caps[t] && b + 4 <= |level| && level[b] > t
    ensures !Suits(need, c, exact, caps, t)
  {
    assert LevelAt(level, need, b);
    var i :| b <= i < b + 4 && i < |need| && need[i] == level[b];
    assert b + 4 <= c + caps[t];
  }

  /** Too few integers are left for any narrow type. */
  lemma TooFew(need: seq<nat>, c: nat, caps: seq<nat>, t: nat)
    requires IsShortTable(caps) && c <= |need| && (|need| - c < 4 || (|need| - c < 16 && t <= 10))
    ensures NoneBelow(need, c, true, caps, t)
  {
    forall u: nat | u < t ensures !Suits(need, c, true, caps, u) {
      if u < SINGLE {
        assert |need| - c < caps[u];
      }
    }
  }

  lemma AtQuad(level: seq<nat>, need: seq<nat>, c: nat, exact: bool, caps: seq<nat>)
    requires IsTable(caps) && IsLevel(level, need) && c % 4 == 0 && c + 4 <= |level|
    ensures NoneBelow(need, c, exact, caps, level[c])
  {
    forall u: nat | u < level[c] ensures !Suits(need, c, exact, caps, u) {
      if u < SINGLE {
        QuadDecides(level, need, c, exact, caps, u, c);
      }
    }
  }

  lemma Untouched(level: seq<nat>, need: seq<nat>, exact: bool, caps: seq<nat>)
    requires IsShortTable(caps) && IsLevel(level, need) && need != [] && |need| + WASTAGE <= |level|
    ensures Tracks(level, level, need, 0, exact, caps)
  {
    AtQuad(level, need, 0, exact, caps);
  }

  // ----- the end of the input

  /** Where blocks are filled exactly, the special cases change no choice. */
  lemma ShortEndInVain(s: seq<nat>, level: seq<nat>, need: seq<nat>, c: nat, caps: seq<nat>, r: seq<nat>)
    requires Tracks(s, level, need, c, true, caps) && r == AfterShortEnd(s, |need|, c)
    ensures Tracks(r, level, need, c, true, caps)
  {
    var left := |need| - c;
    var count, t := ShortEndFills(s, |need|, c);
    if count > 0 {
      TooFew(need, c, caps, r[c]);
      forall b: nat | c + 4 <= b && b + 4 <= |r| && b % 4 == 0 ensures QuadKept(r, level, left, true, b) {
        assert QuadKept(s, level, left, true, b);
      }
    }
  }

  lemma SliceWithin(s: seq<nat>, c: nat, count: nat, t: nat)
    requires c + count <= |s| && count > 0
    ensures MaxOf(s[c..c + count]) <= t <==> forall i :: c <= i < c + count ==> s[i] <= t
  {
    InRange(s, c, count);
    var slice := s[c..c + count];
    var k :| 0 <= k < |slice| && slice[k] == MaxOf(slice);
    assert slice[k] == s[c + k];
  }

  /** A quad is longer than t only if one of its integers is. */
  lemma SomeAbove(s: seq<nat>, level: seq<nat>, need: seq<nat>, c: nat, caps: seq<nat>, count: nat, t: nat, i: nat)
    requires Tracks(s, level, need, c, false, caps) && Quads(s, c) && s[c] == level[c]
    requires count % 4 == 0 && c <= i < c + count <= |s| && s[i] > t
    ensures !RestWithin(need, c, t)
  {
    HeadWithin(c, c + count, i);
    var b := Head(i);
    assert IsQuad(s, b);
    assert b >= c + 4 ==> QuadKept(s, level, |need| - c, false, b);
    assert LevelAt(level, need, b);
    var k :| b <= k < b + 4 && k < |need| && need[k] == level[b];
  }

  /** The integers that are left are within t if and only if their quads are. */
  lemma QuadsWithin(s: seq<nat>, level: seq<nat>, need: seq<nat>, c: nat, caps: seq<nat>, count: nat, t: nat)
    requires Tracks(s, level, need, c, false, caps) && LongEnough(s, need) && Quads(s, c) && s[c] == level[c]
    requires count > 0 && count % 4 == 0 && |need| - c <= count && c + count <= |s|
    ensures MaxOf(s[c..c + count]) <= t <==> RestWithin(need, c, t)
  {
    SliceWithin(s, c, count, t);
    if i :| c <= i < c + count && s[i] > t {
      SomeAbove(s, level, need, c, caps, count, t, i);
    }
  }

  lemma BeyondEnd(s: seq<nat>, level: seq<nat>, need: seq<nat>, c: nat, caps: seq<nat>, b: nat)
    requires Tracks(s, level, need, c, false, caps) && |need| <= b && c + 4 <= b && b + 4 <= |s| && b % 4 == 0
    ensures s[b] == 0
  {
    assert QuadKept(s, level, |need| - c, false, b);
    assert LevelAt(level, need, b);
  }

  /** Behind the widened lengths there is nothing that needs more. */
  lemma NothingLonger(s: seq<nat>, level: seq<nat>, need: seq<nat>, c: nat, caps: seq<nat>, count: nat, t: nat,
                      cap: nat)
    requires Tracks(s, level, need, c, false, caps) && count >= 4 && |need| <= c + count && c + count <= |s|
    requires c + cap + 4 <= |s|
    ensures !AnyAbove(Filled(s, c, count, t), c, cap, t)
  {
    var r := Filled(s, c, count, t);
    forall b | c <= b < c + cap && b % 4 == 0 ensures r[b] <= t {
      if b >= c + count {
        BeyondEnd(s, level, need, c, caps, b);
      }
    }
  }

  /** What the special cases do: a short end becomes one block, anything else is left alone. */
  lemma ShortEndIsBlock(s: seq<nat>, level: seq<nat>, need: seq<nat>, c: nat, caps: seq<nat>, r: seq<nat>)
    requires Tracks(s, level, need, c, false, caps) && LongEnough(s, need) && Quads(s, c) && IsShort(need, c)
    requires r == AfterShortEnd(s, |need|, c)
    ensures r[c] == ShortType(need, c) && |need| - c <= caps[r[c]] && !AnyAbove(r, c, caps[r[c]], r[c])
  {
    var n, t := |need|, ShortType(need, c);
    var count := if n - c < 8 then 8 else 16;
    QuadsWithin(s, level, need, c, caps, count, 8);
    QuadsWithin(s, level, need, c, caps, count, 12);
    QuadsWithin(s, level, need, c, caps, count, 14);
    assert r == Filled(s, c, count, t);
    NothingLonger(s, level, need, c, caps, count, t, caps[t]);
  }

  lemma NotShort(s: seq<nat>, need: seq<nat>, c: nat)
    requires LongEnough(s, need) && c < |need| && !IsShort(need, c)
    ensures AfterShortEnd(s, |need|, c) == s
  {
    if |need| - c < 16 {
      SliceWithin(s, c, if |need| - c < 8 then 8 else 16, 8);
    }
  }

  // ----- one turn of the loop

  /** A type that does not suit is passed over. */
  lemma PassedOver(s: seq<nat>, level: seq<nat>, need: seq<nat>, c: nat, exact: bool, caps: seq<nat>, t: nat)
    requires Tracks(s, level, need, c, exact, caps) && t == s[c] < SINGLE
    requires (exact && |need| - c < caps[t]) || AnyAbove(s, c, caps[t], t)
    ensures !Suits(need, c, exact, caps, t)
  {
    if !(exact && |need| - c < caps[t]) {
      var b :| c <= b < c + caps[t] && b % 4 == 0 && s[b] > t;
      assert b >= c + 4;
      assert QuadKept(s, level, |need| - c, exact, b);
      QuadDecides(level, need, c, exact, caps, t, b);
    }
  }

  lemma KeptBehind(s: seq<nat>, r: seq<nat>, level: seq<nat>, left: int, c: nat, exact: bool, left': int, c': nat)
    requires Kept(s, level, left, c, exact) && |r| == |s| && c <= c' && left' <= left
    requires forall i :: c' + 4 <= i < |s| ==> r[i] == s[i]
    ensures Kept(r, level, left', c', exact)
  {
    forall b: nat | c' + 4 <= b && b + 4 <= |r| && b % 4 == 0 ensures QuadKept(r, level, left', exact, b) {
      assert QuadKept(s, level, left, exact, b);
    }
  }

  lemma PromotedTracks(s: seq<nat>, level: seq<nat>, need: seq<nat>, c: nat, exact: bool, caps: seq<nat>, r: seq<nat>)
    requires Tracks(s, level, need, c, exact, caps) && s[c] < SINGLE && (exact || !IsShort(need, c))
    requires (exact && |need| - c < caps[s[c]]) || AnyAbove(s, c, caps[s[c]], s[c])
    requires r == Filled(s, c, 4, s[c] + 1)
    ensures Tracks(r, level, need, c, exact, caps)
  {
    PassedOver(s, level, need, c, exact, caps, s[c]);
    KeptBehind(s, r, level, |need| - c, c, exact, |need| - c, c);
  }

  lemma SingledTracks(s: seq<nat>, level: seq<nat>, need: seq<nat>, c: nat, caps: seq<nat>, r: seq<nat>)
    requires Tracks(s, level, need, c, true, caps) && |need| - c < 4 && r == Filled(s, c, |need| - c, SINGLE)
    ensures Tracks(r, level, need, c, true, caps)
  {
    TooFew(need, c, caps, SINGLE);
    KeptBehind(s, r, level, |need| - c, c, true, |need| - c, c);
  }

  /** The type of a settled block suits. */
  lemma SettledSuits(s: seq<nat>, need: seq<nat>, c: nat, exact: bool, caps: seq<nat>, t: nat)
    requires IsTable(caps) && LongEnough(s, need) && Quads(s, c) && c % 4 == 0 && t < SINGLE && c < |need|
    requires !AnyAbove(s, c, caps[t], t) && (exact ==> c + caps[t] <= |need|)
    ensures Suits(need, c, exact, caps, t)
  {
    NoneAbove(s, c, caps[t], t);
    assert forall i :: 0 <= i < |need| ==> need[i] <= s[i];
  }

  /** The lengths behind a settled block. */
  lemma NextTracks(s: seq<nat>, level: seq<nat>, need: seq<nat>, c: nat, exact: bool, caps: seq<nat>, r: seq<nat>,
                   next: nat)
    requires Tracks(s, level, need, c, exact, caps) && s[c] < SINGLE && next == c + caps[s[c]] < |need|
    requires r == Filled(s, c, caps[s[c]], s[c])
    ensures Tracks(r, level, need, next, exact, caps)
  {
    KeptBehind(s, r, level, |need| - c, c, exact, |need| - next, next);
    assert QuadKept(s, level, |need| - c, exact, next) && r[next] == s[next];
    if s[next] == level[next] {
      AtQuad(level, need, next, exact, caps);
    } else {
      TooFew(need, next, caps, s[next]);
    }
  }

  // ----- the blocks

  lemma OneMoreChosen(need: seq<nat>, exact: bool, caps: seq<nat>, blocks: seq<nat>, t: nat)
    requires Chosen(need, exact, caps, blocks) && t < 16 && IsChoice(need, |Expand(blocks, caps)|, exact, caps, t)
    ensures Chosen(need, exact, caps, blocks + [t])
  {
    var more := blocks + [t];
    forall j | 0 <= j < |more| ensures IsChoice(need, |Expand(more[..j], caps)|, exact, caps, more[j]) {
      assert more[..j] == blocks[..j];
      assert blocks[..|blocks|] == blocks;
    }
  }

  lemma {:induction false} SinglesChosen(need: seq<nat>, caps: seq<nat>, blocks: seq<nat>, c: nat, m: nat)
    requires Chosen(need, true, caps, blocks) && IsShortTable(caps) && c == |Expand(blocks, caps)|
             && c + m <= |need| < c + 4
    ensures Chosen(need, true, caps, blocks + Same(m, SINGLE))
  {
    if m == 0 {
      assert blocks + Same(0, SINGLE) == blocks;
    } else {
      SinglesChosen(need, caps, blocks, c, m - 1);
      MoreSingles(blocks, m - 1, caps);
      OneMoreSame(blocks, m - 1);
      TooFew(need, c + m - 1, caps, SINGLE);
      OneMoreChosen(need, true, caps, blocks + Same(m - 1, SINGLE), SINGLE);
    }
  }

  /** A turn that makes one block of a short end. */
  lemma ShortChosen(s: seq<nat>, level: seq<nat>, need: seq<nat>, c: nat, caps: seq<nat>, blocks: seq<nat>, r: seq<nat>)
    requires Promoting(s, need, c, false, caps, blocks) && Tracks(s, level, need, c, false, caps)
             && Chosen(need, false, caps, blocks) && IsShort(need, c)
    requires r == AfterShortEnd(s, |need|, c) && r[c] <= SINGLE
    ensures StepCursor(r, |need|, c, false, caps) >= |need|
    ensures Chosen(need, false, caps, blocks + StepBlocks(r, |need|, c, false, caps))
  {
    ShortEndIsBlock(s, level, need, c, caps, r);
    assert |s[..c]| == c;
    OneMoreChosen(need, false, caps, blocks, r[c]);
  }

  /** A turn that settles a block. */
  lemma BlockChosen(s: seq<nat>, level: seq<nat>, need: seq<nat>, c: nat, exact: bool, caps: seq<nat>, blocks: seq<nat>,
                    r: seq<nat>, next: nat)
    requires Promoting(s, need, c, exact, caps, blocks) && Tracks(s, level, need, c, exact, caps)
             && Chosen(need, exact, caps, blocks) && (exact || !IsShort(need, c))
    requires s[c] < SINGLE && next == c + caps[s[c]] && !AnyAbove(s, c, caps[s[c]], s[c]) && (exact ==> next <= |need|)
    requires r == Filled(s, c, caps[s[c]], s[c])
    ensures next < |need| ==> Tracks(r, level, need, next, exact, caps)
    ensures Chosen(need, exact, caps, blocks + [s[c]])
  {
    SettledSuits(s, need, c, exact, caps, s[c]);
    assert |s[..c]| == c;
    OneMoreChosen(need, exact, caps, blocks, s[c]);
    if next < |need| {
      NextTracks(s, level, need, c, exact, caps, r, next);
    }
  }

  /** A turn from lengths that the special cases have been through. */
  lemma StepChosen(s: seq<nat>, level: seq<nat>, need: seq<nat>, c: nat, exact: bool, caps: seq<nat>, blocks: seq<nat>,
                   r: seq<nat>, next: nat)
    requires Promoting(s, need, c, exact, caps, blocks) && Tracks(s, level, need, c, exact, caps)
             && Chosen(need, exact, caps, blocks) && (exact || !IsShort(need, c))
    requires r == StepLengths(s, |need|, c, exact, caps) && next == StepCursor(s, |need|, c, exact, caps)
    ensures next < |need| ==> Tracks(r, level, need, next, exact, caps)
    ensures Chosen(need, exact, caps, blocks + StepBlocks(s, |need|, c, exact, caps))
  {
    if s[c] == SINGLE {
      assert |s[..c]| == c;
      SinglesChosen(need, caps, blocks, c, |need| - c);
    } else if next == c {
      assert blocks + [] == blocks;
      WhenStuck(s, |need|, c, exact, caps);
      if s[c] < 14 {
        PromotedTracks(s, level, need, c, exact, caps, r);
      } else {
        SingledTracks(s, level, need, c, caps, r);
      }
    } else {
      BlockChosen(s, level, need, c, exact, caps, blocks, r, next);
    }
  }

  /** One turn of the loop chooses as it should. */
  lemma TurnChooses(s: seq<nat>, level: seq<nat>, need: seq<nat>, c: nat, exact: bool, caps: seq<nat>, blocks: seq<nat>,
                    r: seq<nat>)
    requires Promoting(s, need, c, exact, caps, blocks) && Tracks(s, level, need, c, exact, caps)
             && Chosen(need, exact, caps, blocks)
    requires r == AfterShortEnd(s, |need|, c) && r[c] <= SINGLE
    ensures StepCursor(r, |need|, c, exact, caps) < |need| ==>
              Tracks(StepLengths(r, |need|, c, exact, caps), level, need, StepCursor(r, |need|, c, exact, caps), exact,
                     caps)
    ensures Chosen(need, exact, caps, blocks + StepBlocks(r, |need|, c, exact, caps))
  {
    if !exact && IsShort(need, c) {
      ShortChosen(s, level, need, c, caps, blocks, r);
    } else {
      ShortEndKeeps(s, need, c, exact, caps, blocks);
      if exact {
        ShortEndInVain(s, level, need, c, caps, r);
      } else {
        NotShort(s, need, c);
      }
      StepChosen(r, level, need, c, exact, caps, blocks, StepLengths(r, |need|, c, exact, caps),
                 StepCursor(r, |need|, c, exact, caps));
    }
  }

  // ----- the loop

  /** Promotes lengths until all the integers are in settled blocks. */
  method Promote(lengths: array<nat>, n: nat, exact: bool, caps: seq<nat>, ghost need: seq<nat>)
    returns (ghost end: nat, ghost blocks: seq<nat>)
    requires IsShortTable(caps) && n == |need| && LongEnough(lengths[..], need) && IsLevel(lengths[..], need)
    requires Quads(lengths[..], 0) && forall i :: 0 <= i < lengths.Length ==> lengths[i] < SINGLE
    modifies lengths
    ensures Promoted(lengths[..], need, end, exact, caps, blocks) && Chosen(need, exact, caps, blocks)
  {
    var c := 0;
    blocks := [];
    ghost var level := lengths[..];
    ghost var s := level;
    assert s[..0] == [];
    if n == 0 {
      assert SinglesLast([], 0);
    } else {
      Untouched(level, need, exact, caps);
    }
    while c < n
      invariant s == lengths[..] && State(s, need, c, exact, caps, blocks)
      invariant Chosen(need, exact, caps, blocks) && (c < n ==> Tracks(s, level, need, c, exact, caps))
      decreases n - c, if c < n then SINGLE - s[c] else 0
    {
      ShortEnd(lengths, n, c);
      ghost var r := lengths[..];
      Turn(s, need, c, exact, caps, blocks, r);
      TurnChooses(s, level, need, c, exact, caps, blocks, r);
      blocks := blocks + StepBlocks(r, n, c, exact, caps);
      assert lengths[c] == r[c];
      c := Settle(lengths, n, c, exact, caps);
      s := lengths[..];
    }
    end := c;
  }
}
