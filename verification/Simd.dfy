/** SIMD registers as sequences of 32-bit lanes, and the lane-wise operations of the decoders. */
module Simd {
  import opened Bits

  ghost predicate AllRows(rows: seq<seq<nat>>) {
    forall i :: 0 <= i < |rows| ==> |rows[i]| == 16
  }

  /** The integers stored so far from lane l. */
  function LaneOf(rows: seq<seq<nat>>, l: nat): (r: seq<nat>)
    requires AllRows(rows) && l < 16
    ensures |r| == |rows|
  {
    seq<nat>(|rows|, i requires 0 <= i < |rows| => rows[i][l])
  }

  function Mask(payload: seq<nat>, width: nat): (r: seq<nat>)
    ensures |r| == |payload| && forall l :: 0 <= l < |r| ==> r[l] == Low(payload[l], width)
  {
    seq<nat>(|payload|, l requires 0 <= l < |payload| => Low(payload[l], width))
  }

  function ShiftRight(payload: seq<nat>, width: nat): (r: seq<nat>)
    ensures |r| == |payload| && forall l :: 0 <= l < |r| ==> r[l] == Shr(payload[l], width)
  {
    seq<nat>(|payload|, l requires 0 <= l < |payload| => Shr(payload[l], width))
  }

  function ShiftLeft(payload: seq<nat>, width: nat): (r: seq<nat>)
    ensures |r| == |payload| && forall l :: 0 <= l < |r| ==> r[l] == Low(Shl(payload[l], width), 32)
  {
    seq<nat>(|payload|, l requires 0 <= l < |payload| => Low(Shl(payload[l], width), 32))
  }

  function OrLanes(a: seq<nat>, b: seq<nat>): (r: seq<nat>)
    requires |a| == |b|
    ensures |r| == |a| && forall l :: 0 <= l < |r| ==> r[l] == Or(a[l], b[l])
  {
    seq<nat>(|a|, l requires 0 <= l < |a| => Or(a[l], b[l]))
  }

  lemma LaneSnoc(rows: seq<seq<nat>>, row: seq<nat>, l: nat)
    requires AllRows(rows) && |row| == 16 && l < 16
    ensures AllRows(rows + [row]) && LaneOf(rows + [row], l) == LaneOf(rows, l) + [row[l]]
  {
  }

  lemma Assoc<T>(a: seq<T>, b: seq<T>, c: seq<T>)
    ensures (a + b) + c == a + (b + c)
  {
  }

  function Flatten<T>(parts: seq<seq<T>>): seq<T> {
    if parts == [] then [] else parts[0] + Flatten(parts[1..])
  }

  lemma {:induction false} FlattenSplit<T>(parts: seq<seq<T>>, k: nat)
    requires k <= |parts|
    ensures Flatten(parts) == Flatten(parts[..k]) + Flatten(parts[k..])
  {
    if k == 0 {
      assert parts[0..] == parts;
    } else {
      FlattenSplit(parts[1..], k - 1);
      assert parts[..k][1..] == parts[1..][..k - 1] && parts[1..][k - 1..] == parts[k..];
    }
  }

  lemma FlattenSnoc<T>(parts: seq<seq<T>>, part: seq<T>)
    ensures Flatten(parts + [part]) == Flatten(parts) + part
  {
    FlattenSplit(parts + [part], |parts|);
    assert (parts + [part])[..|parts|] == parts && (parts + [part])[|parts|..] == [part];
    assert Flatten([part]) == part + [];
  }

  function Reversed(s: seq<nat>): (r: seq<nat>)
    ensures |r| == |s| && forall i :: 0 <= i < |s| ==> r[i] == s[|s| - 1 - i]
  {
    seq(|s|, i requires 0 <= i < |s| => s[|s| - 1 - i])
  }

  /** The stored registers read as one array of integers. */
  function Flat(rows: seq<seq<nat>>): (r: seq<nat>)
    requires AllRows(rows)
    ensures |r| == 16 * |rows|
  {
    if rows == [] then [] else Flat(rows[..|rows| - 1]) + rows[|rows| - 1]
  }

  lemma {:induction false} FlatAt(rows: seq<seq<nat>>, i: nat, l: nat)
    requires AllRows(rows) && i < |rows| && l < 16
    ensures Flat(rows)[16 * i + l] == rows[i][l]
    decreases |rows|
  {
    if i < |rows| - 1 {
      FlatAt(rows[..|rows| - 1], i, l);
    }
  }
}
