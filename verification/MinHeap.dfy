/** `ANT_heap`, the min-heap half that ranking uses.

    Sifting moves a hole: the array is only a rearrangement of its old self once the key is
    put back. Writing `key` into the hole gives the virtual heap the invariants speak of;
    one move of the hole is one swap in that virtual heap. */
module MinHeap {
  import opened Order

  function Parent(i: nat): nat
    requires i >= 1
  {
    (i - 1) / 2
  }

  /** Every node whose parent is at or after `low` is not below that parent. */
  ghost predicate HeapFrom(score: seq<nat>, s: seq<nat>, low: nat)
    requires InRange(s, |score|)
  {
    forall j :: 1 <= j < |s| && low <= Parent(j) ==> AtMost(score, s[Parent(j)], s[j])
  }

  ghost predicate IsHeap(score: seq<nat>, s: seq<nat>)
    requires InRange(s, |score|)
  {
    HeapFrom(score, s, 0)
  }

  /** A heap but for the node at `pos`, which may be above its children; its parent is not
      above its children. */
  ghost predicate HeapButFor(score: seq<nat>, s: seq<nat>, low: nat, pos: nat)
    requires InRange(s, |score|)
  {
    && (forall j :: 1 <= j < |s| && low <= Parent(j) && Parent(j) != pos ==> AtMost(score, s[Parent(j)], s[j]))
    && (pos >= 1 && low <= Parent(pos) && pos < |s| ==>
          forall j :: 1 <= j < |s| && Parent(j) == pos ==> AtMost(score, s[Parent(pos)], s[j]))
  }

  /** `c` is the child of `pos` that no other child is below. */
  predicate LeastChild(score: seq<nat>, s: seq<nat>, pos: nat, c: nat)
    requires InRange(s, |score|)
  {
    && pos < c < |s| && (c == 2 * pos + 1 || c == 2 * pos + 2)
    && (2 * pos + 1 < |s| ==> AtMost(score, s[c], s[2 * pos + 1]))
    && (2 * pos + 2 < |s| ==> AtMost(score, s[c], s[2 * pos + 2]))
  }

  lemma SiftMove(score: seq<nat>, s: seq<nat>, low: nat, pos: nat, c: nat)
    requires InRange(s, |score|) && low <= pos < |s|
    requires HeapButFor(score, s, low, pos)
    requires LeastChild(score, s, pos, c) && Below(score, s[c], s[pos])
    ensures InRange(Swapped(s, pos, c), |score|)
    ensures HeapButFor(score, Swapped(s, pos, c), low, c)
  {
    var t := Swapped(s, pos, c);
    assert Parent(c) == pos;
    forall j | 1 <= j < |t| && low <= Parent(j) && Parent(j) != c
      ensures AtMost(score, t[Parent(j)], t[j])
    {
      if Parent(j) == pos {
        assert j == 2 * pos + 1 || j == 2 * pos + 2;
      } else if j == pos {
        assert AtMost(score, s[Parent(pos)], s[c]);
      } else {
        assert t[Parent(j)] == s[Parent(j)] && t[j] == s[j];
      }
    }
    forall j | 1 <= j < |t| && Parent(j) == c
      ensures AtMost(score, t[pos], t[j])
    {
      assert t[j] == s[j] && t[pos] == s[c];
    }
  }

  lemma SiftStop(score: seq<nat>, s: seq<nat>, low: nat, pos: nat)
    requires InRange(s, |score|) && low <= pos < |s|
    requires HeapButFor(score, s, low, pos)
    requires 2 * pos + 1 < |s| ==> AtMost(score, s[pos], s[2 * pos + 1])
    requires 2 * pos + 2 < |s| ==> AtMost(score, s[pos], s[2 * pos + 2])
    ensures HeapFrom(score, s, low)
  {
    forall j | 1 <= j < |s| && low <= Parent(j)
      ensures AtMost(score, s[Parent(j)], s[j])
    {
      if Parent(j) == pos {
        assert j == 2 * pos + 1 || j == 2 * pos + 2;
      }
    }
  }

  /** Nothing in a heap is below its root. */
  lemma {:induction false} RootIsLeast(score: seq<nat>, s: seq<nat>, i: nat)
    requires InRange(s, |score|) && IsHeap(score, s) && i < |s|
    ensures AtMost(score, s[0], s[i])
  {
    if i > 0 {
      RootIsLeast(score, s, Parent(i));
      assert AtMost(score, s[Parent(i)], s[i]);
    }
  }

  class Heap {
    const cells: array<nat>     // the pointers
    const keys: array<uint16>   // the memory they point into
    const size: nat

    constructor (cells: array<nat>, keys: array<uint16>, size: nat)
      ensures this.cells == cells && this.keys == keys && this.size == size
    {
      this.cells, this.keys, this.size := cells, keys, size;
    }

    ghost predicate Ready()
      reads this, cells
    {
      && cells as object != keys as object
      && 1 <= size <= cells.Length
      && InRange(cells[..size], keys.Length)
    }

    method Swap(a: nat, b: nat)
      requires Ready() && a < size && b < size
      modifies cells
      ensures cells[..size] == Swapped(old(cells[..size]), a, b)
      ensures forall i :: size <= i < cells.Length ==> cells[i] == old(cells[i])
    {
      ghost var was := cells[..size];
      cells[a], cells[b] := cells[b], cells[a];
      assert cells[..size] == was[a := was[b]][b := was[a]];
    }

    /** Sifts the node at `pos` down by swapping. */
    method MinHeapify(pos: nat, ghost low: nat)
      requires Ready() && low <= pos < size
      requires HeapButFor(keys[..], cells[..size], low, pos)
      modifies cells
      ensures Ready()
      ensures HeapFrom(keys[..], cells[..size], low)
      ensures multiset(cells[..size]) == old(multiset(cells[..size]))
      ensures forall i :: size <= i < cells.Length ==> cells[i] == old(cells[i])
      decreases size - pos
    {
      var left, right := 2 * pos + 1, 2 * pos + 2;
      var smallest := pos;
      ghost var s, score := cells[..size], keys[..];
      if left < size && Compare(keys, cells[left], cells[pos]) < 0 {
        smallest := left;
      }
      if right < size && Compare(keys, cells[right], cells[smallest]) < 0 {
        smallest := right;
      }
      assert smallest != pos ==> LeastChild(score, s, pos, smallest) && Below(score, s[smallest], s[pos]);
      if smallest != pos {
        SiftMove(score, s, low, pos, smallest);
        Swap(pos, smallest);
        MinHeapify(smallest, low);
      } else {
        SiftStop(score, s, low, pos);
      }
    }

    method BuildMinHeap()
      requires Ready()
      modifies cells
      ensures Ready()
      ensures IsHeap(keys[..], cells[..size])
      ensures multiset(cells[..size]) == old(multiset(cells[..size]))
      ensures forall i :: size <= i < cells.Length ==> cells[i] == old(cells[i])
    {
      var i := size / 2 - 1;
      while i >= 0
        invariant -1 <= i < size
        invariant Ready()
        invariant HeapFrom(keys[..], cells[..size], (i + 1) as nat)
        invariant multiset(cells[..size]) == old(multiset(cells[..size]))
        invariant forall j :: size <= j < cells.Length ==> cells[j] == old(cells[j])
      {
        MinHeapify(i, i);
        i := i - 1;
      }
    }

    /** Where the hole at `i` moves to if `key` is to fill it: the lesser child that is below `key`, or nowhere. */
    method NextHole(i: nat, key: nat, ghost v: seq<nat>) returns (next: nat)
      requires Ready() && i < size && key < keys.Length && v == cells[..size][i := key]
      ensures i <= next < size
      ensures next > i ==> LeastChild(keys[..], v, i, next) && Below(keys[..], v[next], v[i])
      ensures next == i ==> 2 * i + 1 < size ==> AtMost(keys[..], v[i], v[2 * i + 1])
      ensures next == i ==> 2 * i + 2 < size ==> AtMost(keys[..], v[i], v[2 * i + 2])
    {
      var lpos, rpos := 2 * i + 1, 2 * i + 2;
      next := i;
      if lpos < size && rpos < size {
        if Compare(keys, key, cells[lpos]) <= 0 && Compare(keys, key, cells[rpos]) <= 0 {
        } else if Compare(keys, cells[lpos], cells[rpos]) < 0 {
          next := lpos;
        } else {
          next := rpos;
        }
      } else if lpos < size {
        if Compare(keys, key, cells[lpos]) > 0 {
          next := lpos;
        }
      }
    }

    /** One move of the hole at `i`, or the decision to stop there; shared by insertion and update. */
    method MoveHole(i: nat, key: nat, ghost v: seq<nat>) returns (next: nat)
      requires Ready() && i < size && key < keys.Length && v == cells[..size][i := key]
      requires HeapButFor(keys[..], v, 0, i)
      modifies cells
      ensures Ready() && i <= next < size
      ensures next == i ==> IsHeap(keys[..], v) && cells[..size][i := key] == v
      ensures next > i ==> cells[..size][next := key] == Swapped(v, i, next)
      ensures next > i ==> InRange(Swapped(v, i, next), keys.Length)
                           && HeapButFor(keys[..], Swapped(v, i, next), 0, next)
      ensures forall j :: size <= j < cells.Length ==> cells[j] == old(cells[j])
    {
      next := NextHole(i, key, v);
      ghost var score := keys[..];
      if next == i {
        SiftStop(score, v, 0, i);
      } else {
        SiftMove(score, v, 0, i, next);
        cells[i] := cells[next];
        assert cells[..size][next := key] == v[i := v[next]][next := v[i]];
      }
    }

    /** Replaces the root by `key` unless `key` is below it. */
    method MinInsert(key: nat) returns (inserted: bool)
      requires Ready() && key < keys.Length
      requires IsHeap(keys[..], cells[..size])
      modifies cells
      ensures Ready()
      ensures IsHeap(keys[..], cells[..size])
      ensures inserted <==> !Below(keys[..], key, old(cells[0]))
      ensures inserted ==> multiset(cells[..size]) == old(multiset(cells[..size][0 := key]))
      ensures !inserted ==> cells[..] == old(cells[..])
      ensures forall j :: size <= j < cells.Length ==> cells[j] == old(cells[j])
    {
      if Compare(keys, key, cells[0]) < 0 {
        return false;
      }
      SiftHole(0, key);
      return true;
    }

    /** Fills the hole at `start` with `key`, which is not above its parent, by sifting it down. */
    method SiftHole(start: nat, key: nat)
      requires Ready() && start < size && key < keys.Length
      requires HeapButFor(keys[..], cells[..size][start := key], 0, start)
      modifies cells
      ensures Ready()
      ensures IsHeap(keys[..], cells[..size])
      ensures multiset(cells[..size]) == old(multiset(cells[..size][start := key]))
      ensures forall j :: size <= j < cells.Length ==> cells[j] == old(cells[j])
    {
      var i := start;
      ghost var v, score := cells[..size][i := key], keys[..];
      ghost var contents := multiset(v);
      while true
        invariant i < size && Ready() && v == cells[..size][i := key]
        invariant HeapButFor(score, v, 0, i) && multiset(v) == contents
        invariant forall j :: size <= j < cells.Length ==> cells[j] == old(cells[j])
        decreases size - i
      {
        var next := MoveHole(i, key, v);
        if next == i {
          break;
        }
        v := Swapped(v, i, next);
        i := next;
      }
      cells[i] := key;
      assert cells[..size] == v;
    }

    method Find(key: nat) returns (i: nat)
      requires Ready() && key in cells[..size]
      ensures i < size && cells[i] == key
    {
      i := 0;
      while i < size && cells[i] != key
        invariant i <= size
        invariant forall j :: 0 <= j < i ==> cells[j] != key
      {
        i := i + 1;
      }
    }

    /** Restores the heap after the key of the member at `at` has grown. */
    method MinUpdate(key: nat, ghost at: nat)
      requires Ready() && at < size && cells[at] == key && Distinct(cells[..size])
      requires HeapButFor(keys[..], cells[..size], 0, at)
      modifies cells
      ensures Ready()
      ensures IsHeap(keys[..], cells[..size])
      ensures multiset(cells[..size]) == old(multiset(cells[..size]))
      ensures forall j :: size <= j < cells.Length ==> cells[j] == old(cells[j])
    {
      ghost var s := cells[..size];
      assert s[at] == key;
      var i := Find(key);
      assert s[i] == key && i == at;
      assert s[i := key] == s;
      SiftHole(i, key);
    }
  }
}
