/** Machine words as natural numbers. Shifts and masks recurse one bit at a time, so that every
    law about them is an induction over bits. */
module Bits {
  function Pow2(n: nat): (r: nat)
    ensures r >= 1
  {
    if n == 0 then 1 else 2 * Pow2(n - 1)
  }

  /** v << s, of unbounded width. */
  function Shl(v: nat, s: nat): nat {
    if s == 0 then v else 2 * Shl(v, s - 1)
  }

  /** v >> s */
  function Shr(v: nat, s: nat): nat
    decreases s, v
  {
    if s == 0 then v else Shr(v / 2, s - 1)
  }

  /** The `s` low bits of v: v & ((1 << s) - 1). */
  function Low(v: nat, s: nat): (r: nat)
    ensures r < Pow2(s) && r <= v
    decreases s, v
  {
    if s == 0 then 0 else v % 2 + 2 * Low(v / 2, s - 1)
  }

  function Or(a: nat, b: nat): nat
    decreases a
  {
    if a == 0 then b
    else 2 * Or(a / 2, b / 2) + if a % 2 == 1 || b % 2 == 1 then 1 else 0
  }

  function Xor(a: nat, b: nat): nat
    decreases a
  {
    if a == 0 then b
    else 2 * Xor(a / 2, b / 2) + if a % 2 != b % 2 then 1 else 0
  }

  /** The number of bits up to the highest set bit: `ceiling_log2`. */
  function BitLength(v: nat): nat {
    if v == 0 then 0 else 1 + BitLength(v / 2)
  }

  const TWO_32: nat := 0x1_0000_0000

  lemma TwoTo16()
    ensures Pow2(16) == 0x1_0000
  {
    assert Pow2(8) == 0x100;
    assert Pow2(12) == 0x1000;
  }

  lemma TwoTo32()
    ensures Pow2(32) == TWO_32
  {
    assert Pow2(8) == 0x100;
    assert Pow2(16) == 0x1_0000;
    assert Pow2(24) == 0x100_0000;
    assert Pow2(32) == 0x1_0000_0000;
  }

  /** 32-bit unsigned integers. */
  ghost predicate Words32(xs: seq<nat>) {
    forall i :: 0 <= i < |xs| ==> xs[i] < Pow2(32)
  }

  function Max(a: nat, b: nat): nat { if a > b then a else b }

  // ----- multiples

  lemma OneMore(m: nat, c: nat)
    requires m > 0
    ensures m * c == (m - 1) * c + c
  {
  }

  lemma {:induction false} MulGrows(a: nat, b: nat, c: nat)
    requires a <= b
    ensures a * c <= b * c
    decreases b
  {
    if a < b {
      MulGrows(a, b - 1, c);
      OneMore(b, c);
    }
  }

  lemma DivIs(a: nat, c: nat, m: nat)
    requires c >= 1 && m * c <= a < m * c + c
    ensures a / c == m
  {
    var q := a / c;
    assert a == q * c + a % c;
    if q < m {
      MulGrows(q + 1, m, c);
      OneMore(q + 1, c);
    } else if m < q {
      MulGrows(m + 1, q, c);
      OneMore(m + 1, c);
    }
  }

  // ----- splitting a word at a bit

  lemma {:induction false} Split(v: nat, s: nat)
    ensures v == Low(v, s) + Shl(Shr(v, s), s)
    decreases s
  {
    if s > 0 {
      Split(v / 2, s - 1);
    }
  }

  lemma {:induction false} Join(x: nat, y: nat, s: nat)
    requires x < Pow2(s)
    ensures Low(x + Shl(y, s), s) == x && Shr(x + Shl(y, s), s) == y
    decreases s
  {
    if s > 0 {
      Join(x / 2, y, s - 1);
      assert (x + Shl(y, s)) / 2 == x / 2 + Shl(y, s - 1);
    }
  }

  lemma {:induction false} OrJoin(x: nat, y: nat, s: nat)
    requires x < Pow2(s)
    ensures Or(x, Shl(y, s)) == x + Shl(y, s)
    decreases s
  {
    if s > 0 && x > 0 {
      OrJoin(x / 2, y, s - 1);
      assert Shl(y, s) / 2 == Shl(y, s - 1) && Shl(y, s) % 2 == 0;
    }
  }

  lemma {:induction false} OrCommutes(a: nat, b: nat)
    ensures Or(a, b) == Or(b, a)
  {
    if a == 0 {
      OrZero(b);
    } else if b == 0 {
      OrZero(a);
    } else {
      OrCommutes(a / 2, b / 2);
    }
  }

  lemma {:induction false} OrZero(a: nat)
    ensures Or(a, 0) == a
  {
    if a > 0 {
      OrZero(a / 2);
    }
  }

  lemma {:induction false} XorJoin(x: nat, y: nat, s: nat)
    requires x < Pow2(s)
    ensures Xor(x + Shl(y, s), Shl(y, s)) == x
    decreases s
  {
    if s == 0 {
      XorSelf(y);
    } else if x + Shl(y, s) > 0 {
      XorJoin(x / 2, y, s - 1);
      assert (x + Shl(y, s)) / 2 == x / 2 + Shl(y, s - 1);
      assert Shl(y, s) / 2 == Shl(y, s - 1) && Shl(y, s) % 2 == 0;
    }
  }

  lemma {:induction false} XorSelf(a: nat)
    ensures Xor(a, a) == 0
  {
    if a > 0 {
      XorSelf(a / 2);
    }
  }

  lemma {:induction false} LowOr(a: nat, b: nat, s: nat)
    ensures Low(Or(a, b), s) == Or(Low(a, s), Low(b, s))
    decreases s
  {
    if s > 0 {
      if a > 0 {
        LowOr(a / 2, b / 2, s - 1);
      } else {
        assert Low(0, s) == 0 by { LowSmall(0, s); }
      }
    }
  }

  lemma {:induction false} LowSmall(v: nat, s: nat)
    requires v < Pow2(s)
    ensures Low(v, s) == v && Shr(v, s) == 0
    decreases s
  {
    if s > 0 {
      LowSmall(v / 2, s - 1);
    }
  }

  lemma {:induction false} LowLow(v: nat, s: nat, t: nat)
    requires s <= t
    ensures Low(Low(v, t), s) == Low(v, s)
    decreases s
  {
    if s > 0 {
      LowLow(v / 2, s - 1, t - 1);
    }
  }

  lemma {:induction false} LowOfShl(v: nat, s: nat, t: nat)
    requires t <= s
    ensures Low(Shl(v, s), t) == 0
    decreases t
  {
    if t > 0 {
      LowOfShl(v, s - 1, t - 1);
      assert Shl(v, s) / 2 == Shl(v, s - 1);
    }
  }

  // ----- composing shifts

  lemma {:induction false} ShlShl(v: nat, a: nat, b: nat)
    ensures Shl(Shl(v, a), b) == Shl(v, a + b)
    decreases b
  {
    if b > 0 {
      ShlShl(v, a, b - 1);
    }
  }

  lemma {:induction false} ShlZero(s: nat)
    ensures Shl(0, s) == 0
  {
    if s > 0 {
      ShlZero(s - 1);
    }
  }

  lemma {:induction false} ShrShr(v: nat, a: nat, b: nat)
    ensures Shr(Shr(v, a), b) == Shr(v, a + b)
    decreases a
  {
    if a > 0 {
      ShrShr(v / 2, a - 1, b);
    }
  }

  lemma ShrSum(v: nat, a: nat, b: nat, sum: nat)
    requires sum == a + b
    ensures Shr(v, sum) == Shr(Shr(v, a), b)
  {
    ShrShr(v, a, b);
  }

  lemma {:induction false} ShlAdd(x: nat, y: nat, s: nat)
    ensures Shl(x + y, s) == Shl(x, s) + Shl(y, s)
    decreases s
  {
    if s > 0 {
      ShlAdd(x, y, s - 1);
    }
  }

  lemma {:induction false} ShlFits(v: nat, w: nat, s: nat)
    requires v < Pow2(w)
    ensures Shl(v, s) < Pow2(w + s)
    decreases s
  {
    if s > 0 {
      ShlFits(v, w, s - 1);
    }
  }

  lemma {:induction false} ShrFits(v: nat, w: nat, s: nat)
    requires v < Pow2(w + s)
    ensures Shr(v, s) < Pow2(w)
    decreases s
  {
    if s > 0 {
      assert v / 2 < Pow2(w + s - 1);
      ShrFits(v / 2, w, s - 1);
    }
  }

  lemma {:induction false} ShrAtMost(v: nat, s: nat)
    ensures Shr(v, s) <= v
    decreases s
  {
    if s > 0 {
      ShrAtMost(v / 2, s - 1);
    }
  }

  lemma {:induction false} Pow2Grows(a: nat, b: nat)
    requires a <= b
    ensures Pow2(a) <= Pow2(b)
    decreases b
  {
    if a < b {
      Pow2Grows(a, b - 1);
    }
  }

  /** x below 2^a, and y above it below 2^b, make a number below 2^(a + b). */
  lemma {:induction false} JoinFits(x: nat, a: nat, y: nat, b: nat)
    requires x < Pow2(a) && y < Pow2(b)
    ensures x + Shl(y, a) < Pow2(a + b)
    decreases a
  {
    if a > 0 {
      JoinFits(x / 2, a - 1, y, b);
    }
  }

  lemma {:induction false} BitLengthFits(v: nat)
    ensures v < Pow2(BitLength(v))
  {
    if v > 0 {
      BitLengthFits(v / 2);
    }
  }

  lemma {:induction false} BitLengthAtMost(v: nat, n: nat)
    requires v < Pow2(n)
    ensures BitLength(v) <= n
    decreases n
  {
    if v > 0 {
      BitLengthAtMost(v / 2, n - 1);
    }
  }

  lemma BitLengthIs(v: nat, n: nat)
    ensures BitLength(v) <= n <==> v < Pow2(n)
  {
    if v < Pow2(n) {
      BitLengthAtMost(v, n);
    } else if BitLength(v) <= n {
      BitLengthFits(v);
      Pow2Grows(BitLength(v), n);
    }
  }

  lemma {:induction false} BitLengthOr(a: nat, b: nat)
    ensures BitLength(Or(a, b)) == Max(BitLength(a), BitLength(b))
  {
    if a > 0 {
      BitLengthOr(a / 2, b / 2);
    }
  }

  // ----- the lowest set bit

  /** The position of the lowest set bit, counting from 1. */
  function FirstSet(v: nat): (r: nat)
    requires v > 0
    ensures r >= 1 && Shr(v, r) < v
  {
    if v % 2 == 1 then 1 else 1 + FirstSet(v / 2)
  }

  lemma {:induction false} FirstSetOfMark(w: nat, y: nat)
    requires w >= 1
    ensures Pow2(w - 1) + Shl(y, w) > 0 && FirstSet(Pow2(w - 1) + Shl(y, w)) == w
  {
    if w > 1 {
      FirstSetOfMark(w - 1, y);
      assert (Pow2(w - 1) + Shl(y, w)) / 2 == Pow2(w - 2) + Shl(y, w - 1);
    }
  }

  lemma {:induction false} FirstSetOfShl(odd: nat, s: nat)
    requires odd % 2 == 1
    ensures Shl(odd, s) > 0 && FirstSet(Shl(odd, s)) == s + 1
    decreases s
  {
    if s > 0 {
      FirstSetOfShl(odd, s - 1);
    }
  }

  lemma {:induction false} ShlOne(s: nat)
    ensures Shl(1, s) == Pow2(s)
  {
    if s > 0 {
      ShlOne(s - 1);
    }
  }

  // ----- fields packed into a word

  function SumOf(widths: seq<nat>): nat {
    if widths == [] then 0 else widths[0] + SumOf(widths[1..])
  }

  function Same(n: nat, w: nat): (r: seq<nat>)
    ensures |r| == n
  {
    seq(n, i => w)
  }

  lemma {:induction false} SumSame(n: nat, w: nat)
    ensures SumOf(Same(n, w)) == n * w
  {
    if n > 0 {
      SumSame(n - 1, w);
      assert Same(n, w)[1..] == Same(n - 1, w);
    }
  }

  /** Each value in a field of its width, the first one lowest, and `top` above them all. */
  function Pack(widths: seq<nat>, values: seq<nat>, top: nat): nat
    requires |values| == |widths|
  {
    if widths == [] then top
    else values[0] + Shl(Pack(widths[1..], values[1..], top), widths[0])
  }

  ghost predicate FieldsFit(widths: seq<nat>, values: seq<nat>) {
    |values| == |widths| && forall i :: 0 <= i < |widths| ==> values[i] < Pow2(widths[i])
  }

  /** The values read back by masking and shifting. */
  function Unpack(widths: seq<nat>, word: nat): (r: seq<nat>)
    ensures |r| == |widths|
  {
    if widths == [] then []
    else [Low(word, widths[0])] + Unpack(widths[1..], Shr(word, widths[0]))
  }

  lemma {:induction false} UnpackPack(widths: seq<nat>, values: seq<nat>, top: nat)
    requires FieldsFit(widths, values)
    ensures Unpack(widths, Pack(widths, values, top)) == values
    ensures Shr(Pack(widths, values, top), SumOf(widths)) == top
  {
    if widths != [] {
      var rest := Pack(widths[1..], values[1..], top);
      UnpackPack(widths[1..], values[1..], top);
      Join(values[0], rest, widths[0]);
      ShrShr(Pack(widths, values, top), widths[0], SumOf(widths[1..]));
      assert values == [values[0]] + values[1..];
    }
  }

  /** The j-th value, read after the fields before it were shifted out. */
  lemma {:induction false} UnpackAt(widths: seq<nat>, word: nat, j: nat)
    requires j < |widths|
    ensures Unpack(widths, word)[j] == Low(Shr(word, SumOf(widths[..j])), widths[j])
    decreases j
  {
    if j > 0 {
      UnpackAt(widths[1..], Shr(word, widths[0]), j - 1);
      assert widths[..j][1..] == widths[1..][..j - 1];
      ShrSum(word, widths[0], SumOf(widths[1..][..j - 1]), SumOf(widths[..j]));
    }
  }

  lemma {:induction false} SumJoin(a: seq<nat>, b: seq<nat>)
    ensures SumOf(a + b) == SumOf(a) + SumOf(b)
  {
    if a == [] {
      assert a + b == b;
    } else {
      assert (a + b)[1..] == a[1..] + b;
      SumJoin(a[1..], b);
    }
  }

  lemma {:induction false} PackFits(widths: seq<nat>, values: seq<nat>, top: nat, t: nat)
    requires FieldsFit(widths, values) && top < Pow2(t)
    ensures Pack(widths, values, top) < Pow2(SumOf(widths) + t)
  {
    if widths != [] {
      PackFits(widths[1..], values[1..], top, t);
      JoinFits(values[0], widths[0], Pack(widths[1..], values[1..], top), SumOf(widths[1..]) + t);
    }
  }

  lemma {:induction false} SumSnoc(widths: seq<nat>, w: nat)
    ensures SumOf(widths + [w]) == SumOf(widths) + w
  {
    if widths != [] {
      SumSnoc(widths[1..], w);
      assert (widths + [w])[1..] == widths[1..] + [w];
    }
  }

  /** Putting one more field on top. */
  lemma {:induction false} PackSnoc(widths: seq<nat>, values: seq<nat>, w: nat, v: nat, top: nat)
    requires |values| == |widths|
    ensures Pack(widths + [w], values + [v], top) == Pack(widths, values, v + Shl(top, w))
  {
    if widths != [] {
      PackSnoc(widths[1..], values[1..], w, v, top);
      assert (widths + [w])[1..] == widths[1..] + [w] && (values + [v])[1..] == values[1..] + [v];
    } else {
      assert (widths + [w])[1..] == [] && (values + [v])[1..] == [];
    }
  }

  /** A field with nothing above it, whatever its width. */
  lemma {:induction false} PackLast(widths: seq<nat>, values: seq<nat>, w: nat, v: nat)
    requires |values| == |widths|
    ensures Pack(widths + [w], values + [v], 0) == Pack(widths, values, v)
  {
    if widths != [] {
      PackLast(widths[1..], values[1..], w, v);
      assert (widths + [w])[1..] == widths[1..] + [w] && (values + [v])[1..] == values[1..] + [v];
    } else {
      assert (widths + [w])[1..] == [] && (values + [v])[1..] == [];
      ShlZero(w);
    }
  }

  /** What lies above the fields is simply added above them. */
  lemma {:induction false} PackTop(widths: seq<nat>, values: seq<nat>, top: nat)
    requires |values| == |widths|
    ensures Pack(widths, values, top) == Pack(widths, values, 0) + Shl(top, SumOf(widths))
  {
    if widths != [] {
      PackTop(widths[1..], values[1..], top);
      ShlAdd(Pack(widths[1..], values[1..], 0), Shl(top, SumOf(widths[1..])), widths[0]);
      ShlShl(top, SumOf(widths[1..]), widths[0]);
    }
  }

  lemma PackOneMore(ws: seq<nat>, vs: seq<nat>, w: nat, v: nat)
    requires |ws| == |vs|
    ensures Pack(ws + [w], vs + [v], 0) == Pack(ws, vs, v)
  {
    PackSnoc(ws, vs, w, v, 0);
    ShlZero(w);
  }

  /** OR-ing a value in above the fields. */
  lemma OrOnTop(widths: seq<nat>, values: seq<nat>, top: nat)
    requires FieldsFit(widths, values)
    ensures Or(Pack(widths, values, 0), Shl(top, SumOf(widths))) == Pack(widths, values, top)
  {
    PackFits(widths, values, 0, 0);
    PackTop(widths, values, top);
    OrJoin(Pack(widths, values, 0), top, SumOf(widths));
  }
}
