/** Rows of four integers packed side by side into the four 32-bit lanes of a 128-bit register. What
    lies beyond the rows that matter may be anything: it only reaches higher bits. */
module Stripes {
  import opened Bits

  // ----- more about bits

  /** What is above bit n does not reach the bits below it. */
  lemma {:induction false} LowBelow(x: nat, y: nat, n: nat, w: nat)
    requires w <= n
    ensures Low(x + Shl(y, n), w) == Low(x, w)
    decreases w
  {
    if w > 0 {
      LowBelow(x / 2, y, n - 1, w - 1);
      assert (x + Shl(y, n)) / 2 == x / 2 + Shl(y, n - 1);
    }
  }

  /** Shifting two lanes as one 64-bit word does not disturb a field that lies within the low lane. */
  lemma {:induction false} ShiftTogether(x: nat, y: nat, n: nat, s: nat, w: nat)
    requires s + w <= n
    ensures Low(Shr(x + Shl(y, n), s), w) == Low(Shr(x, s), w)
    decreases s
  {
    if s == 0 {
      LowBelow(x, y, n, w);
    } else {
      ShiftTogether(x / 2, y, n - 1, s - 1, w);
      assert (x + Shl(y, n)) / 2 == x / 2 + Shl(y, n - 1);
    }
  }

  lemma {:induction false} LowJoin(x: nat, y: nat, s: nat, w: nat)
    requires x < Pow2(s) && s <= w
    ensures Low(x + Shl(y, s), w) == x + Shl(Low(y, w - s), s)
    decreases s
  {
    if s > 0 {
      LowJoin(x / 2, y, s - 1, w - 1);
      assert (x + Shl(y, s)) / 2 == x / 2 + Shl(y, s - 1);
    }
  }

  lemma {:induction false} OrAbove(x: nat, a: nat, b: nat, s: nat)
    requires x < Pow2(s)
    ensures Or(x + Shl(a, s), Shl(b, s)) == x + Shl(Or(a, b), s)
    decreases s
  {
    if s > 0 {
      OrAbove(x / 2, a, b, s - 1);
      assert (x + Shl(a, s)) / 2 == x / 2 + Shl(a, s - 1);
      assert Shl(b, s) / 2 == Shl(b, s - 1) && Shl(b, s) % 2 == 0;
      if x + Shl(a, s) == 0 {
        ZeroParts(a, s);
      }
    }
  }

  lemma {:induction false} ZeroParts(a: nat, s: nat)
    requires Shl(a, s) == 0
    ensures a == 0
  {
    if s > 0 {
      ZeroParts(a, s - 1);
    }
  }

  /** A shift that is cut off at 32 bits keeps the low bits. */
  lemma CutOff(v: nat, s: nat)
    requires s <= 32
    ensures Low(Shl(v, s), 32) == Shl(Low(v, 32 - s), s)
  {
    Pow2Grows(0, s);
    LowJoin(0, v, s, 32);
  }

  /** OR-ing something in above the fields leaves the fields alone. */
  lemma OrOverFields(ws: seq<nat>, vs: seq<nat>, top: nat, y: nat)
    requires FieldsFit(ws, vs)
    ensures Or(Pack(ws, vs, top), Shl(y, SumOf(ws))) == Pack(ws, vs, Or(top, y))
  {
    PackFits(ws, vs, 0, 0);
    PackTop(ws, vs, top);
    PackTop(ws, vs, Or(top, y));
    OrAbove(Pack(ws, vs, 0), top, y, SumOf(ws));
  }

  // ----- rows in a lane

  /** The integer of a row in lane l. */
  function Entry(vs: seq<nat>, row: nat, l: nat): nat
    requires 4 * row + 4 <= |vs| && l < 4
  {
    vs[4 * row + l]
  }

  /** Where row r is put. */
  function Place(r: nat, w: nat, g: nat): nat {
    r * w + g
  }

  /** The rows' integers OR-ed into lane l above `base`, each `w` bits above the one before it. */
  function LaneOr(vs: seq<nat>, base: nat, w: nat, g: nat, start: nat, rows: nat, l: nat): nat
    requires 4 * (start + rows) <= |vs| && l < 4
    decreases rows
  {
    if rows == 0 then base
    else Or(LaneOr(vs, base, w, g, start, rows - 1, l),
            Low(Shl(Entry(vs, start + rows - 1, l), Place(rows - 1, w, g)), 32))
  }

  function LaneRows(vs: seq<nat>, start: nat, m: nat, l: nat): (r: seq<nat>)
    requires 4 * (start + m) <= |vs| && l < 4
    ensures |r| == m
  {
    seq<nat>(m, i requires 0 <= i < m => Entry(vs, start + i, l))
  }

  /** m rows fit, and above them there is room for no more than 32 bits in all. */
  ghost predicate RowsFit(vs: seq<nat>, base: nat, w: nat, g: nat, start: nat, m: nat, l: nat) {
    && l < 4 && 4 * (start + m) <= |vs| && base < Pow2(g) && Place(m, w, g) <= 32
    && forall i :: 0 <= i < m ==> LaneRows(vs, start, m, l)[i] < Pow2(w)
  }

  lemma LaneFits(vs: seq<nat>, base: nat, w: nat, g: nat, start: nat, m: nat, l: nat)
    requires RowsFit(vs, base, w, g, start, m, l)
    ensures FieldsFit([g] + Same(m, w), [base] + LaneRows(vs, start, m, l))
    ensures SumOf([g] + Same(m, w)) == Place(m, w, g)
  {
    assert ([g] + Same(m, w))[1..] == Same(m, w);
    SumSame(m, w);
  }

  lemma FewerRows(vs: seq<nat>, base: nat, w: nat, g: nat, start: nat, m: nat, l: nat)
    requires RowsFit(vs, base, w, g, start, m, l) && m > 0
    ensures RowsFit(vs, base, w, g, start, m - 1, l) && Place(m - 1, w, g) + w <= 32
    ensures Entry(vs, start + m - 1, l) < Pow2(w)
  {
    NextPlace(m - 1, w, g);
    var fewer, all := LaneRows(vs, start, m - 1, l), LaneRows(vs, start, m, l);
    forall i | 0 <= i < m - 1 ensures fewer[i] < Pow2(w) {
      assert fewer[i] == all[i];
    }
    assert all[m - 1] == Entry(vs, start + m - 1, l);
  }

  lemma NextPlace(r: nat, w: nat, g: nat)
    ensures Place(r + 1, w, g) == Place(r, w, g) + w
  {
  }

  lemma WithinLane(v: nat, w: nat, s: nat)
    requires v < Pow2(w) && s + w <= 32
    ensures Low(Shl(v, s), 32) == Shl(v, s)
  {
    ShlFits(v, w, s);
    Pow2Grows(w + s, 32);
    LowSmall(Shl(v, s), 32);
  }

  /** A value on top of the fields, cut off at 32 bits, when it fits. */
  lemma OrRow(ws: seq<nat>, xs: seq<nat>, w: nat, v: nat, row: nat)
    requires FieldsFit(ws, xs) && row == Shl(v, SumOf(ws))
    ensures Or(Pack(ws, xs, 0), row) == Pack(ws + [w], xs + [v], 0)
  {
    OrOnTop(ws, xs, v);
    PackLast(ws, xs, w, v);
  }

  lemma {:induction false} LaneExact(vs: seq<nat>, base: nat, w: nat, g: nat, start: nat, m: nat, l: nat)
    requires RowsFit(vs, base, w, g, start, m, l)
    ensures LaneOr(vs, base, w, g, start, m, l) == Pack([g] + Same(m, w), [base] + LaneRows(vs, start, m, l), 0)
    decreases m
  {
    if m == 0 {
      ShlZero(g);
      assert [g] + Same(0, w) == [g] && [base] + LaneRows(vs, start, 0, l) == [base];
    } else {
      FewerRows(vs, base, w, g, start, m, l);
      LaneExact(vs, base, w, g, start, m - 1, l);
      LaneFits(vs, base, w, g, start, m - 1, l);
      var ws, xs := [g] + Same(m - 1, w), [base] + LaneRows(vs, start, m - 1, l);
      var v := Entry(vs, start + m - 1, l);
      WithinLane(v, w, SumOf(ws));
      OrRow(ws, xs, w, v, Low(Shl(v, SumOf(ws)), 32));
      assert ws + [w] == [g] + Same(m, w);
      assert xs + [v] == [base] + LaneRows(vs, start, m, l);
    }
  }

  lemma PlaceGrows(a: nat, b: nat, w: nat, g: nat)
    requires a <= b
    ensures Place(a, w, g) <= Place(b, w, g)
  {
  }

  /** Whatever is OR-ed in at or above the fields changes only what is above them. */
  lemma OrGarbage(ws: seq<nat>, xs: seq<nat>, top: nat, v: nat, s: nat) returns (top': nat)
    requires FieldsFit(ws, xs) && SumOf(ws) <= s
    ensures Or(Pack(ws, xs, top), Low(Shl(v, s), 32)) == Pack(ws, xs, top')
  {
    if s >= 32 {
      LowOfShl(v, s, 32);
      OrZero(Pack(ws, xs, top));
      top' := top;
    } else {
      CutOff(v, s);
      var y := Shl(Low(v, 32 - s), s - SumOf(ws));
      ShlShl(Low(v, 32 - s), s - SumOf(ws), SumOf(ws));
      OrOverFields(ws, xs, top, y);
      top' := Or(top, y);
    }
  }

  /** With more rows than fit, the first m are still in place. */
  lemma {:induction false} LaneTop(vs: seq<nat>, base: nat, w: nat, g: nat, start: nat, rows: nat, m: nat, l: nat)
    returns (top: nat)
    requires RowsFit(vs, base, w, g, start, m, l) && m <= rows && 4 * (start + rows) <= |vs|
    ensures LaneOr(vs, base, w, g, start, rows, l) == Pack([g] + Same(m, w), [base] + LaneRows(vs, start, m, l), top)
    decreases rows
  {
    if rows == m {
      LaneExact(vs, base, w, g, start, m, l);
      top := 0;
    } else {
      var before := LaneTop(vs, base, w, g, start, rows - 1, m, l);
      LaneFits(vs, base, w, g, start, m, l);
      PlaceGrows(m, rows - 1, w, g);
      top := OrGarbage([g] + Same(m, w), [base] + LaneRows(vs, start, m, l), before,
                       Entry(vs, start + rows - 1, l), Place(rows - 1, w, g));
    }
  }

  /** Masking and shifting reads a row back. */
  lemma RowReads(vs: seq<nat>, base: nat, w: nat, g: nat, start: nat, m: nat, l: nat, top: nat, lane: nat, j: nat)
    requires RowsFit(vs, base, w, g, start, m, l) && j < m
    requires lane == Pack([g] + Same(m, w), [base] + LaneRows(vs, start, m, l), top)
    ensures Low(Shr(lane, Place(j, w, g)), w) == Entry(vs, start + j, l)
  {
    var ws, xs := [g] + Same(m, w), [base] + LaneRows(vs, start, m, l);
    LaneFits(vs, base, w, g, start, m, l);
    UnpackPack(ws, xs, top);
    UnpackAt(ws, lane, j + 1);
    PlaceOfRow(m, w, g, j);
    assert xs[j + 1] == Entry(vs, start + j, l);
  }

  lemma PlaceOfRow(m: nat, w: nat, g: nat, j: nat)
    requires j < m
    ensures SumOf(([g] + Same(m, w))[..j + 1]) == Place(j, w, g)
  {
    assert ([g] + Same(m, w))[..j + 1] == [g] + Same(j, w);
    assert ([g] + Same(j, w))[1..] == Same(j, w);
    SumSame(j, w);
  }

  // ----- a row across two registers

  /** Rows 0 to k - 1 fit, row k leaves its t low bits at the top of the first lane, and the rest of it
      starts the second lane, in which the next row is at bit g. */
  ghost predicate Crosses(vs: seq<nat>, w: nat, k: nat, t: nat, g: nat, l: nat) {
    && RowsFit(vs, 0, w, 0, 0, k, l) && 4 * (k + 1) <= |vs| && Entry(vs, k, l) < Pow2(w)
    && Place(k, w, 0) + t == 32 && t <= w && w - t <= g <= 32
  }

  lemma FirstLaneEnds(vs: seq<nat>, w: nat, k: nat, t: nat, g: nat, l: nat)
    requires Crosses(vs, w, k, t, g, l)
    ensures LaneOr(vs, 0, w, 0, 0, k + 1, l) ==
            Pack([0] + Same(k, w), [0] + LaneRows(vs, 0, k, l), Low(Entry(vs, k, l), t))
    ensures Shr(LaneOr(vs, 0, w, 0, 0, k + 1, l), Place(k, w, 0)) == Low(Entry(vs, k, l), t)
  {
    var v := Entry(vs, k, l);
    LaneExact(vs, 0, w, 0, 0, k, l);
    LaneFits(vs, 0, w, 0, 0, k, l);
    CutOff(v, Place(k, w, 0));
    var ws, xs := [0] + Same(k, w), [0] + LaneRows(vs, 0, k, l);
    OrOnTop(ws, xs, Low(v, t));
    UnpackPack(ws, xs, Low(v, t));
  }

  lemma SecondLaneStarts(vs: seq<nat>, base: nat, w: nat, g: nat, start: nat, rows: nat, l: nat) returns (z: nat)
    requires base < Pow2(g) && g <= 32 && l < 4 && 4 * (start + rows) <= |vs|
    ensures LaneOr(vs, base, w, g, start, rows, l) == base + Shl(z, g)
  {
    z := LaneTop(vs, base, w, g, start, rows, 0, l);
    assert [g] + Same(0, w) == [g] && [base] + LaneRows(vs, start, 0, l) == [base];
  }

  lemma LowOfSum(x: nat, z: nat, g: nat, n: nat, m: nat)
    requires x < Pow2(m) && m <= g && m <= n
    ensures Low(Low(x + Shl(z, g), n), m) == x
  {
    assert Low(x + Shl(z, g), m) == x by {
      LowBelow(x, z, g, m);
      LowSmall(x, m);
    }
    LowLow(x + Shl(z, g), m, n);
  }

  lemma HighFits(v: nat, w: nat, t: nat, g: nat)
    requires v < Pow2(w) && t <= w && w - t <= g
    ensures Shr(v, t) < Pow2(w - t) && Shr(v, t) < Pow2(g)
  {
    ShrFits(v, w - t, t);
    Pow2Grows(w - t, g);
  }

  lemma OnLowPart(x: nat, h: nat, t: nat, w: nat)
    requires x < Pow2(t) && t <= w
    ensures Low(Or(Shl(h, t), x), w) == x + Shl(Low(h, w - t), t)
  {
    OrCommutes(Shl(h, t), x);
    OrJoin(x, h, t);
    LowJoin(x, h, t, w);
  }

  /** The two parts of the row, put together. */
  lemma PartsJoin(v: nat, w: nat, t: nat, g: nat, z: nat)
    requires v < Pow2(w) && t <= w && w - t <= g && w <= 32
    ensures Shr(v, t) < Pow2(g)
    ensures Low(Or(Low(Shl(Shr(v, t) + Shl(z, g), t), 32), Low(v, t)), w) == v
  {
    var second := Shr(v, t) + Shl(z, g);
    HighFits(v, w, t, g);
    LowOfSum(Shr(v, t), z, g, 32 - t, w - t);
    CutOff(second, t);
    OnLowPart(Low(v, t), Low(second, 32 - t), t, w);
    Split(v, t);
  }

  lemma CrossingReads(vs: seq<nat>, w: nat, k: nat, t: nat, g: nat, rows: nat, l: nat)
    requires Crosses(vs, w, k, t, g, l) && 4 * (k + 1 + rows) <= |vs| && w <= 32
    ensures var first, second :=
            LaneOr(vs, 0, w, 0, 0, k + 1, l), LaneOr(vs, Shr(Entry(vs, k, l), t), w, g, k + 1, rows, l);
            Low(Or(Low(Shl(second, t), 32), Shr(first, Place(k, w, 0))), w) == Entry(vs, k, l)
    ensures Shr(Entry(vs, k, l), t) < Pow2(g)
  {
    var v := Entry(vs, k, l);
    FirstLaneEnds(vs, w, k, t, g, l);
    PartsJoin(v, w, t, g, 0);
    var z := SecondLaneStarts(vs, Shr(v, t), w, g, k + 1, rows, l);
    PartsJoin(v, w, t, g, z);
  }

  // ----- the registers

  /** The rows in lane l when q whole rows and the first `lane` lanes of the next are done. */
  function Done(q: nat, lane: nat, l: nat): nat {
    if l < lane then q + 1 else q
  }

  ghost predicate LaneDone(r: seq<nat>, lanes: seq<nat>, vs: seq<nat>, w: nat, g: nat, start: nat, rows: nat, l: nat)
    requires |r| == |lanes| == 4 && l < 4
  {
    4 * (start + rows) <= |vs| && r[l] == LaneOr(vs, lanes[l], w, g, start, rows, l)
  }

  ghost predicate AllDone(r: seq<nat>, lanes: seq<nat>, vs: seq<nat>, w: nat, g: nat, start: nat, q: nat, lane: nat) {
    |r| == |lanes| == 4 && forall l :: 0 <= l < 4 ==> LaneDone(r, lanes, vs, w, g, start, Done(q, lane, l), l)
  }

  lemma NextDone(before: seq<nat>, r: seq<nat>, lanes: seq<nat>, vs: seq<nat>, w: nat, g: nat, start: nat, q: nat,
                 lane: nat, next: nat)
    requires AllDone(before, lanes, vs, w, g, start, q, lane) && lane < 4 && next == lane + 1
             && 4 * (start + q + 1) <= |vs|
    requires r == before[lane := Or(before[lane], Low(Shl(Entry(vs, start + q, lane), Place(q, w, g)), 32))]
    ensures AllDone(r, lanes, vs, w, g, start, q, next)
  {
    forall l: nat | l < 4 ensures LaneDone(r, lanes, vs, w, g, start, Done(q, next, l), l) {
      assert LaneDone(before, lanes, vs, w, g, start, Done(q, lane, l), l);
    }
  }

  lemma RowDone(r: seq<nat>, lanes: seq<nat>, vs: seq<nat>, w: nat, g: nat, start: nat, q: nat, next: nat)
    requires AllDone(r, lanes, vs, w, g, start, q, 4) && next == q + 1
    ensures AllDone(r, lanes, vs, w, g, start, next, 0)
  {
    forall l: nat | l < 4 ensures LaneDone(r, lanes, vs, w, g, start, Done(next, 0, l), l) {
      assert LaneDone(r, lanes, vs, w, g, start, Done(q, 4, l), l);
    }
  }

  /** One integer after the other into the lane it belongs to. */
  method OrRows(lanes: seq<nat>, vs: seq<nat>, w: nat, g: nat, start: nat, rows: nat) returns (r: seq<nat>)
    requires |lanes| == 4 && 4 * (start + rows) <= |vs|
    ensures |r| == 4 && forall l :: 0 <= l < 4 ==> r[l] == LaneOr(vs, lanes[l], w, g, start, rows, l)
  {
    r := lanes;
    var value := 0;
    ghost var q, lane := 0, 0;
    assert AllDone(r, lanes, vs, w, g, start, 0, 0);
    while value < 4 * rows
      invariant value == 4 * q + lane <= 4 * rows && lane < 4 && AllDone(r, lanes, vs, w, g, start, q, lane)
    {
      assert value / 4 == q && value % 4 == lane;
      ghost var before := r;
      r := r[value % 4 := Or(r[value % 4],
                             Low(Shl(Entry(vs, start + value / 4, value % 4), Place(value / 4, w, g)), 32))];
      NextDone(before, r, lanes, vs, w, g, start, q, lane, lane + 1);
      value, lane := value + 1, lane + 1;
      if lane == 4 {
        RowDone(r, lanes, vs, w, g, start, q, q + 1);
        q, lane := q + 1, 0;
      }
    }
    forall l: nat | l < 4 ensures r[l] == LaneOr(vs, lanes[l], w, g, start, rows, l) {
      assert LaneDone(r, lanes, vs, w, g, start, Done(q, lane, l), l);
    }
  }
}
