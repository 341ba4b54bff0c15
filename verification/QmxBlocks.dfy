/** The blocks of QMX: how the integers of each type are laid out in bytes, and how they are read back. */
module QmxBlocks {
  import opened Bits
  import opened Memory
  import opened Stripes

  // ----- registers written and read

  /** The four lanes of a register of rows. */
  function OneRegister(vs: seq<nat>, w: nat, rows: nat): (r: seq<nat>)
    requires 4 * rows <= |vs|
    ensures |r| == 4
  {
    seq<nat>(4, l requires 0 <= l < 4 => LaneOr(vs, 0, w, 0, 0, rows, l))
  }

  /** The second of two registers: the rest of row k, and the rows after it. */
  function SecondRegister(vs: seq<nat>, w: nat, k: nat, t: nat, g: nat, rows: nat): (r: seq<nat>)
    requires 4 * (k + 1 + rows) <= |vs|
    ensures |r| == 4
  {
    seq<nat>(4, l requires 0 <= l < 4 => LaneOr(vs, Shr(Entry(vs, k, l), t), w, g, k + 1, rows, l))
  }

  lemma {:induction false} OrFits(a: nat, b: nat, n: nat)
    requires a < Pow2(n) && b < Pow2(n)
    ensures Or(a, b) < Pow2(n)
    decreases n
  {
    if n > 0 && a > 0 {
      OrFits(a / 2, b / 2, n - 1);
    }
  }

  lemma {:induction false} LaneIsWord(vs: seq<nat>, base: nat, w: nat, g: nat, start: nat, rows: nat, l: nat)
    requires 4 * (start + rows) <= |vs| && l < 4 && base < Pow2(32)
    ensures LaneOr(vs, base, w, g, start, rows, l) < Pow2(32)
    decreases rows
  {
    if rows > 0 {
      LaneIsWord(vs, base, w, g, start, rows - 1, l);
      OrFits(LaneOr(vs, base, w, g, start, rows - 1, l),
             Low(Shl(Entry(vs, start + rows - 1, l), Place(rows - 1, w, g)), 32), 32);
    }
  }

  /** The low lane of a 64-bit half is shifted together with the lane above it. */
  function Half(lanes: seq<nat>, l: nat): nat
    requires |lanes| == 4 && l < 4
  {
    if l % 2 == 0 then lanes[l] + Shl(lanes[l + 1], 32) else lanes[l]
  }

  /** Integer i of a register of rows: the 64-bit halves are shifted and masked. */
  function ReadOne(lanes: seq<nat>, w: nat, i: nat): nat
    requires |lanes| == 4
  {
    Low(Shr(Half(lanes, i % 4), Place(i / 4, w, 0)), w)
  }

  /** Integer i of two registers: the lanes are shifted and masked, and row k is put together. */
  function ReadTwo(first: seq<nat>, second: seq<nat>, w: nat, k: nat, t: nat, g: nat, i: nat): nat
    requires |first| == |second| == 4
  {
    var row, l := i / 4, i % 4;
    if row < k then Low(Shr(first[l], Place(row, w, 0)), w)
    else if row == k then Low(Or(Low(Shl(second[l], t), 32), Shr(first[l], Place(k, w, 0))), w)
    else Low(Shr(second[l], Place(row - k - 1, w, g)), w)
  }

  ghost predicate Short(vs: seq<nat>, count: nat, w: nat) {
    count <= |vs| && forall i :: 0 <= i < count ==> vs[i] < Pow2(w)
  }

  lemma ShortRows(vs: seq<nat>, w: nat, start: nat, m: nat, l: nat, count: nat)
    requires l < 4 && m >= 1 && 4 * (start + m) <= |vs| && 4 * (start + m - 1) + l < count && Short(vs, count, w)
    ensures forall i :: 0 <= i < m ==> LaneRows(vs, start, m, l)[i] < Pow2(w)
  {
    var rows := LaneRows(vs, start, m, l);
    forall i: nat | i < m ensures rows[i] < Pow2(w) {
      assert rows[i] == Entry(vs, start + i, l);
    }
  }

  /** The rows of lane l up to one whose integer is among the first `count`. */
  lemma RowsUpTo(vs: seq<nat>, base: nat, w: nat, g: nat, start: nat, m: nat, l: nat, count: nat)
    requires l < 4 && m >= 1 && 4 * (start + m) <= |vs| && 4 * (start + m - 1) + l < count && Short(vs, count, w)
    requires base < Pow2(g) && Place(m, w, g) <= 32
    ensures RowsFit(vs, base, w, g, start, m, l)
  {
    ShortRows(vs, w, start, m, l, count);
  }

  lemma ReadOneReads(vs: seq<nat>, w: nat, rows: nat, count: nat, i: nat)
    requires 4 * rows <= |vs| && Place(rows, w, 0) <= 32 && count <= 4 * rows && Short(vs, count, w) && i < count
    ensures ReadOne(OneRegister(vs, w, rows), w, i) == vs[i]
  {
    var row, l, lanes := i / 4, i % 4, OneRegister(vs, w, rows);
    NextPlace(row, w, 0);
    PlaceGrows(row + 1, rows, w, 0);
    RowsUpTo(vs, 0, w, 0, 0, row + 1, l, count);
    var top := LaneTop(vs, 0, w, 0, 0, rows, row + 1, l);
    RowReads(vs, 0, w, 0, 0, row + 1, l, top, lanes[l], row);
    if l % 2 == 0 {
      ShiftTogether(lanes[l], lanes[l + 1], 32, Place(row, w, 0), w);
    }
  }

  /** How two registers are shared: k rows, t bits of the next, whose rest takes up to g bits of the second
      register, and more rows after it. */
  ghost predicate Shared(w: nat, k: nat, t: nat, g: nat, rows: nat) {
    Place(k, w, 0) + t == 32 && t <= w <= 32 && w - t <= g && Place(rows, w, g) <= 32
  }

  lemma ReadTwoReads(vs: seq<nat>, w: nat, k: nat, t: nat, g: nat, rows: nat, count: nat, i: nat)
    requires 4 * (k + 1 + rows) <= |vs| && count <= 4 * (k + 1 + rows) && Short(vs, count, w) && i < count
    requires Shared(w, k, t, g, rows)
    ensures ReadTwo(OneRegister(vs, w, k + 1), SecondRegister(vs, w, k, t, g, rows), w, k, t, g, i) == vs[i]
  {
    var row, l := i / 4, i % 4;
    PlaceGrows(0, rows, w, g);
    if row < k {
      FirstRows(vs, w, k, t, count, row, l);
    } else {
      CrossingRow(vs, w, k, t, g, rows, count, l);
      if row > k {
        LaterRows(vs, w, k, t, g, rows, count, row - k - 1, l);
      }
    }
  }

  lemma FirstRows(vs: seq<nat>, w: nat, k: nat, t: nat, count: nat, row: nat, l: nat)
    requires l < 4 && row < k && 4 * (k + 1) <= |vs| && 4 * row + l < count && Short(vs, count, w)
             && Place(k, w, 0) + t == 32
    ensures Low(Shr(OneRegister(vs, w, k + 1)[l], Place(row, w, 0)), w) == vs[4 * row + l]
  {
    PlaceGrows(row + 1, k, w, 0);
    RowsUpTo(vs, 0, w, 0, 0, row + 1, l, count);
    var top := LaneTop(vs, 0, w, 0, 0, k + 1, row + 1, l);
    RowReads(vs, 0, w, 0, 0, row + 1, l, top, OneRegister(vs, w, k + 1)[l], row);
  }

  lemma CrossingRow(vs: seq<nat>, w: nat, k: nat, t: nat, g: nat, rows: nat, count: nat, l: nat)
    requires l < 4 && 4 * (k + 1 + rows) <= |vs| && 4 * k + l < count && Short(vs, count, w)
    requires Shared(w, k, t, g, rows) && g <= 32
    ensures Low(Or(Low(Shl(SecondRegister(vs, w, k, t, g, rows)[l], t), 32),
                   Shr(OneRegister(vs, w, k + 1)[l], Place(k, w, 0))), w)
         == vs[4 * k + l]
    ensures Shr(Entry(vs, k, l), t) < Pow2(g)
  {
    if k == 0 {
      Pow2Grows(0, 0);
    } else {
      RowsUpTo(vs, 0, w, 0, 0, k, l, count);
    }
    CrossingReads(vs, w, k, t, g, rows, l);
  }

  lemma LaterRows(vs: seq<nat>, w: nat, k: nat, t: nat, g: nat, rows: nat, count: nat, j: nat, l: nat)
    requires l < 4 && j < rows && 4 * (k + 1 + rows) <= |vs| && 4 * (k + 1 + j) + l < count && Short(vs, count, w)
    requires Place(rows, w, g) <= 32 && Shr(Entry(vs, k, l), t) < Pow2(g)
    ensures Low(Shr(SecondRegister(vs, w, k, t, g, rows)[l], Place(j, w, g)), w) == vs[4 * (k + 1 + j) + l]
  {
    var base := Shr(Entry(vs, k, l), t);
    PlaceGrows(j + 1, rows, w, g);
    RowsUpTo(vs, base, w, g, k + 1, j + 1, l, count);
    var top := LaneTop(vs, base, w, g, k + 1, rows, j + 1, l);
    RowReads(vs, base, w, g, k + 1, j + 1, l, top, SecondRegister(vs, w, k, t, g, rows)[l], j);
  }

  // ----- the types

  /** How the integers of a block are laid out: only implied, in one register, in two, or as plain values. */
  datatype Layout =
    | Ones
    | One(width: nat, rows: nat)
    | Two(width: nat, whole: nat, low: nat, gap: nat, rows: nat)
    | Plain(bytes: nat, count: nat)

  const LAYOUTS: seq<Layout> := [
    Ones, One(1, 32), One(2, 16), One(3, 10), One(4, 8), One(5, 6), One(6, 5), Two(7, 4, 4, 3, 4),
    Plain(1, 16), Two(9, 3, 5, 4, 3), One(10, 3), Two(12, 2, 8, 8, 2), Plain(2, 8), Two(21, 1, 11, 11, 1), Plain(4, 4),
    Plain(4, 1)
  ]

  ghost predicate ValidLayout(layout: Layout) {
    match layout
    case Ones => true
    case One(w, rows) => Place(rows, w, 0) <= 32
    case Two(w, k, low, gap, rows) => Shared(w, k, low, gap, rows)
    case Plain(bytes, count) => 1 <= bytes <= 4 && bytes * count <= 16
  }

  lemma LayoutsAreValid(t: nat)
    requires t < 16
    ensures ValidLayout(LAYOUTS[t])
  {
  }

  /** How many integers a block holds. */
  function Count(layout: Layout): nat {
    match layout
    case Ones => 256
    case One(w, rows) => 4 * rows
    case Two(w, k, low, gap, rows) => 4 * (k + 1 + rows)
    case Plain(bytes, count) => count
  }

  /** How many bytes the decoder takes for a block. */
  function Size(layout: Layout): nat {
    match layout
    case Ones => 0
    case One(w, rows) => 16
    case Two(w, k, low, gap, rows) => 32
    case Plain(bytes, count) => bytes * count
  }

  const CAPACITIES: seq<nat> := [256, 128, 64, 40, 32, 24, 20, 36, 16, 28, 12, 20, 8, 12, 4, 1]

  lemma CapacityIsCount(t: nat)
    requires t < 16
    ensures 1 <= CAPACITIES[t] == Count(LAYOUTS[t])
  {
  }

  /** How many bits an integer takes. */
  function BitsOf(layout: Layout): nat {
    match layout
    case Ones => 0
    case One(w, rows) => w
    case Two(w, k, low, gap, rows) => w
    case Plain(bytes, count) => 8 * bytes
  }

  /** No block has room for four integers more, save that single integers are alone. */
  lemma BlocksAreFull(t: nat)
    requires 1 <= t < 15
    ensures BitsOf(LAYOUTS[t]) * CAPACITIES[t] <= 8 * Size(LAYOUTS[t]) < BitsOf(LAYOUTS[t]) * (CAPACITIES[t] + 4)
  {
  }

  /** The integer can be stored in a block of this layout. */
  predicate Fits(v: nat, layout: Layout) {
    match layout
    case Ones => v == 1
    case One(w, rows) => v < Pow2(w)
    case Two(w, k, low, gap, rows) => v < Pow2(w)
    case Plain(bytes, count) => v < Pow2(8 * bytes)
  }

  ghost predicate AllFit(vs: seq<nat>, count: nat, layout: Layout) {
    count <= |vs| && forall i :: 0 <= i < count ==> Fits(vs[i], layout)
  }

  // ----- writing and reading a block

  /** The bytes of a block whose integers start vs; of plain values only the first `count` are written. */
  function BlockBytes(layout: Layout, vs: seq<nat>, count: nat): seq<nat>
    requires Count(layout) <= |vs| && count <= Count(layout)
  {
    match layout
    case Ones => []
    case One(w, rows) => Store(OneRegister(vs, w, rows), 4)
    case Two(w, k, low, gap, rows) =>
      Store(OneRegister(vs, w, k + 1), 4) + Store(SecondRegister(vs, w, k, low, gap, rows), 4)
    case Plain(bytes, _) => Store(vs[..count], bytes)
  }

  /** The integers that the decoder makes of the bytes. */
  function ReadBlock(layout: Layout, memory: seq<nat>): (r: seq<nat>)
    requires Size(layout) <= |memory| && (layout.Plain? ==> layout.bytes >= 1)
  {
    match layout
    case Ones => Same(256, 1)
    case One(w, rows) =>
      LoadLength(memory, 4, 4);
      var lanes := Load(memory, 4, 4);
      seq<nat>(4 * rows, i requires 0 <= i => ReadOne(lanes, w, i))
    case Two(w, k, low, gap, rows) =>
      LoadLength(memory, 4, 4);
      LoadLength(memory[16..], 4, 4);
      var first, second := Load(memory, 4, 4), Load(memory[16..], 4, 4);
      seq<nat>(4 * (k + 1 + rows), i requires 0 <= i => ReadTwo(first, second, w, k, low, gap, i))
    case Plain(bytes, count) => Load(memory, bytes, count)
  }

  lemma ReadLength(layout: Layout, memory: seq<nat>)
    requires Size(layout) <= |memory| && (layout.Plain? ==> layout.bytes >= 1)
    ensures |ReadBlock(layout, memory)| == Count(layout)
  {
    if layout.Plain? {
      LoadLength(memory, layout.bytes, layout.count);
    }
  }

  /** A register that was stored is loaded again. */
  lemma RegisterLoads(lanes: seq<nat>, memory: seq<nat>)
    requires |lanes| == 4 && FitBytes(lanes, 4) && Store(lanes, 4) <= memory && |memory| >= 16
    ensures Load(memory, 4, 4) == lanes
  {
    StoreLength(lanes, 4);
    var after := memory[16..];
    assert memory == Store(lanes, 4) + after;
    LoadStore(lanes, 4, after, 4);
    LoadLength(memory, 4, 4);
  }

  lemma RegisterFits(vs: seq<nat>, w: nat, rows: nat)
    requires 4 * rows <= |vs|
    ensures FitBytes(OneRegister(vs, w, rows), 4)
  {
    Pow2Grows(0, 32);
    forall l: nat | l < 4 ensures OneRegister(vs, w, rows)[l] < Pow2(32) {
      LaneIsWord(vs, 0, w, 0, 0, rows, l);
    }
  }

  lemma SecondFits(vs: seq<nat>, w: nat, k: nat, t: nat, g: nat, rows: nat)
    requires 4 * (k + 1 + rows) <= |vs| && Words32(vs)
    ensures FitBytes(SecondRegister(vs, w, k, t, g, rows), 4)
  {
    forall l: nat | l < 4 ensures SecondRegister(vs, w, k, t, g, rows)[l] < Pow2(32) {
      ShrAtMost(Entry(vs, k, l), t);
      LaneIsWord(vs, Shr(Entry(vs, k, l), t), w, g, k + 1, rows, l);
    }
  }

  lemma OneReads(vs: seq<nat>, w: nat, rows: nat, count: nat, memory: seq<nat>)
    requires 4 * rows <= |vs| && Place(rows, w, 0) <= 32 && count <= 4 * rows && Short(vs, count, w)
    requires Store(OneRegister(vs, w, rows), 4) <= memory && |memory| >= 16
    ensures ReadBlock(One(w, rows), memory)[..count] == vs[..count]
  {
    RegisterFits(vs, w, rows);
    RegisterLoads(OneRegister(vs, w, rows), memory);
    forall i: nat | i < count ensures ReadBlock(One(w, rows), memory)[i] == vs[i] {
      ReadOneReads(vs, w, rows, count, i);
    }
  }

  lemma OneAfterTheOther(first: seq<nat>, second: seq<nat>, memory: seq<nat>)
    requires first + second <= memory && |first| == 16
    ensures first <= memory && second <= memory[16..]
  {
    assert first == (first + second)[..16] && second == (first + second)[16..];
  }

  lemma TwoReads(vs: seq<nat>, w: nat, k: nat, t: nat, g: nat, rows: nat, count: nat, memory: seq<nat>)
    requires 4 * (k + 1 + rows) <= |vs| && Words32(vs) && Shared(w, k, t, g, rows)
    requires count <= 4 * (k + 1 + rows) && Short(vs, count, w) && |memory| >= 32
    requires Store(OneRegister(vs, w, k + 1), 4) + Store(SecondRegister(vs, w, k, t, g, rows), 4) <= memory
    ensures ReadBlock(Two(w, k, t, g, rows), memory)[..count] == vs[..count]
  {
    var first, second := OneRegister(vs, w, k + 1), SecondRegister(vs, w, k, t, g, rows);
    StoreLength(first, 4);
    OneAfterTheOther(Store(first, 4), Store(second, 4), memory);
    RegisterFits(vs, w, k + 1);
    SecondFits(vs, w, k, t, g, rows);
    RegisterLoads(first, memory);
    RegisterLoads(second, memory[16..]);
    var r := ReadBlock(Two(w, k, t, g, rows), memory);
    forall i: nat | i < count ensures r[i] == vs[i] {
      ReadTwoReads(vs, w, k, t, g, rows, count, i);
    }
    SameFirst(r, vs, count);
  }

  lemma SameFirst(r: seq<nat>, vs: seq<nat>, count: nat)
    requires count <= |r| && count <= |vs| && forall i :: 0 <= i < count ==> r[i] == vs[i]
    ensures r[..count] == vs[..count]
  {
  }

  lemma PlainReads(vs: seq<nat>, bytes: nat, n: nat, count: nat, memory: seq<nat>)
    requires 1 <= bytes && count <= n && count <= |vs| && Store(vs[..count], bytes) <= memory
    requires forall i :: 0 <= i < count ==> vs[i] < Pow2(8 * bytes)
    ensures vs[..count] <= Load(memory, bytes, n)
  {
    var after := memory[|Store(vs[..count], bytes)|..];
    assert memory == Store(vs[..count], bytes) + after;
    LoadStore(vs[..count], bytes, after, n);
  }

  /** The first `count` integers of a block are read back, whatever the rest of it and what follows are. */
  lemma BlockReads(layout: Layout, vs: seq<nat>, count: nat, memory: seq<nat>)
    requires ValidLayout(layout) && Words32(vs) && Count(layout) <= |vs| && count <= Count(layout)
             && AllFit(vs, count, layout)
    requires Size(layout) <= |memory| && BlockBytes(layout, vs, count) <= memory
    ensures |ReadBlock(layout, memory)| == Count(layout) && ReadBlock(layout, memory)[..count] == vs[..count]
  {
    ReadLength(layout, memory);
    match layout
    case Ones =>
    case One(w, rows) => OneReads(vs, w, rows, count, memory);
    case Two(w, k, low, gap, rows) => TwoBlockReads(layout, vs, count, memory);
    case Plain(bytes, n) => PlainReads(vs, bytes, n, count, memory);
  }

  lemma TwoBlockReads(layout: Layout, vs: seq<nat>, count: nat, memory: seq<nat>)
    requires layout.Two? && ValidLayout(layout) && Words32(vs) && Count(layout) <= |vs| && count <= Count(layout)
    requires AllFit(vs, count, layout) && Size(layout) <= |memory| && BlockBytes(layout, vs, count) <= memory
    ensures ReadBlock(layout, memory)[..count] == vs[..count]
  {
    assert Short(vs, count, layout.width);
    TwoReads(vs, layout.width, layout.whole, layout.low, layout.gap, layout.rows, count, memory);
  }

  /** A whole block takes exactly the bytes that the decoder takes. */
  lemma WholeBlockSize(layout: Layout, vs: seq<nat>)
    requires Count(layout) <= |vs|
    ensures |BlockBytes(layout, vs, Count(layout))| == Size(layout)
  {
    match layout
    case Ones =>
    case One(w, rows) => StoreLength(OneRegister(vs, w, rows), 4);
    case Two(w, k, low, gap, rows) =>
      StoreLength(OneRegister(vs, w, k + 1), 4);
      StoreLength(SecondRegister(vs, w, k, low, gap, rows), 4);
    case Plain(bytes, n) => PlainSize(vs, bytes, n);
  }

  lemma PlainSize(vs: seq<nat>, bytes: nat, n: nat)
    requires n <= |vs|
    ensures |Store(vs[..n], bytes)| == bytes * n
  {
    StoreLength(vs[..n], bytes);
  }

  method WriteOne(vs: seq<nat>, w: nat, rows: nat) returns (destination: seq<nat>)
    requires 4 * rows <= |vs|
    ensures destination == Store(OneRegister(vs, w, rows), 4)
  {
    var lanes := OrRows([0, 0, 0, 0], vs, w, 0, 0, rows);
    assert lanes == OneRegister(vs, w, rows);
    destination := Store(lanes, 4);
  }

  method WriteSecond(vs: seq<nat>, w: nat, k: nat, low: nat, gap: nat, rows: nat) returns (destination: seq<nat>)
    requires 4 * (k + 1 + rows) <= |vs|
    ensures destination == Store(SecondRegister(vs, w, k, low, gap, rows), 4)
  {
    var rest := [Shr(Entry(vs, k, 0), low), Shr(Entry(vs, k, 1), low), Shr(Entry(vs, k, 2), low),
                 Shr(Entry(vs, k, 3), low)];
    var lanes := OrRows(rest, vs, w, gap, k + 1, rows);
    assert forall l :: 0 <= l < 4 ==> rest[l] == Shr(Entry(vs, k, l), low);
    assert lanes == SecondRegister(vs, w, k, low, gap, rows);
    destination := Store(lanes, 4);
  }

  method WritePlain(vs: seq<nat>, count: nat, bytes: nat) returns (destination: seq<nat>)
    requires count <= |vs|
    ensures destination == Store(vs[..count], bytes)
  {
    destination := [];
    var instance := 0;
    while instance < count
      invariant instance <= count && destination == Store(vs[..instance], bytes)
    {
      StoreSnoc(vs, instance, bytes);
      destination := destination + BytesOf(vs[instance], bytes);
      instance := instance + 1;
    }
  }

  lemma StoreSnoc(vs: seq<nat>, i: nat, n: nat)
    requires i < |vs|
    ensures Store(vs[..i + 1], n) == Store(vs[..i], n) + BytesOf(vs[i], n)
  {
    assert vs[..i + 1] == vs[..i] + [vs[i]];
    StoreJoin(vs[..i], [vs[i]], n);
    assert Store([vs[i]], n) == BytesOf(vs[i], n) + Store([], n);
  }

  /** Writes a block of the integers that start vs, of which `count` are there to be stored. */
  method WriteBlock(layout: Layout, vs: seq<nat>, count: nat) returns (destination: seq<nat>)
    requires Count(layout) <= |vs| && count <= Count(layout)
    ensures destination == BlockBytes(layout, vs, count)
  {
    match layout
    case Ones =>
      destination := [];
    case One(w, rows) =>
      destination := WriteOne(vs, w, rows);
    case Two(w, k, low, gap, rows) =>
      destination := WriteOne(vs, w, k + 1);
      var second := WriteSecond(vs, w, k, low, gap, rows);
      destination := destination + second;
    case Plain(bytes, _) =>
      destination := WritePlain(vs, count, bytes);
  }
}
