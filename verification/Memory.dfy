/** Integers stored in memory as little-endian bytes. */
module Memory {
  import opened Bits
  import opened Simd

  function BytesOf(v: nat, n: nat): (r: seq<nat>)
    ensures |r| == n
  {
    Unpack(Same(n, 8), v)
  }

  function FromBytes(bytes: seq<nat>): nat {
    Pack(Same(|bytes|, 8), bytes, 0)
  }

  /** The lowest byte comes first. */
  lemma {:induction false} ByteAt(v: nat, n: nat, i: nat)
    requires i < n
    ensures BytesOf(v, n)[i] == Low(Shr(v, 8 * i), 8)
    decreases n
  {
    assert Same(n, 8)[1..] == Same(n - 1, 8);
    assert BytesOf(v, n) == [Low(v, 8)] + BytesOf(Shr(v, 8), n - 1);
    if i > 0 {
      ByteAt(Shr(v, 8), n - 1, i - 1);
      ShrShr(v, 8, 8 * (i - 1));
    }
  }

  lemma {:induction false} PackUnpack(widths: seq<nat>, v: nat)
    requires v < Pow2(SumOf(widths))
    ensures Pack(widths, Unpack(widths, v), 0) == v
  {
    if widths != [] {
      ShrFits(v, SumOf(widths[1..]), widths[0]);
      PackUnpack(widths[1..], Shr(v, widths[0]));
      Split(v, widths[0]);
      assert Unpack(widths, v)[1..] == Unpack(widths[1..], Shr(v, widths[0]));
    }
  }

  lemma ByteRoundTrip(v: nat, n: nat)
    requires v < Pow2(8 * n)
    ensures FromBytes(BytesOf(v, n)) == v
  {
    SumSame(n, 8);
    PackUnpack(Same(n, 8), v);
  }

  /** n bytes for each value. */
  function Store(vs: seq<nat>, n: nat): seq<nat> {
    if vs == [] then [] else BytesOf(vs[0], n) + Store(vs[1..], n)
  }

  lemma {:induction false} StoreLength(vs: seq<nat>, n: nat)
    ensures |Store(vs, n)| == |vs| * n
  {
    if vs != [] {
      StoreLength(vs[1..], n);
    }
  }

  lemma {:induction false} StoreJoin(a: seq<nat>, b: seq<nat>, n: nat)
    ensures Store(a + b, n) == Store(a, n) + Store(b, n)
  {
    if a == [] {
      assert a + b == b;
    } else {
      StoreJoin(a[1..], b, n);
      assert (a + b)[1..] == a[1..] + b && (a + b)[0] == a[0];
      Assoc(BytesOf(a[0], n), Store(a[1..], n), Store(b, n));
    }
  }

  /** `count` values of n bytes each, as many as there are bytes for. */
  function Load(bytes: seq<nat>, n: nat, count: nat): (r: seq<nat>)
    requires n >= 1
    ensures |r| <= count
    decreases count
  {
    if count == 0 || |bytes| < n then []
    else [FromBytes(bytes[..n])] + Load(bytes[n..], n, count - 1)
  }

  ghost predicate FitBytes(vs: seq<nat>, n: nat) {
    forall i :: 0 <= i < |vs| ==> vs[i] < Pow2(8 * n)
  }

  lemma FirstStored(first: seq<nat>, rest: seq<nat>, after: seq<nat>, bytes: seq<nat>)
    requires bytes == (first + rest) + after
    ensures bytes[..|first|] == first && bytes[|first|..] == rest + after
  {
  }

  /** Stored values are loaded again, whatever follows them. */
  lemma {:induction false} LoadStore(vs: seq<nat>, n: nat, after: seq<nat>, count: nat)
    requires n >= 1 && FitBytes(vs, n) && |vs| <= count
    ensures vs <= Load(Store(vs, n) + after, n, count)
    decreases count
  {
    if vs != [] {
      var bytes := Store(vs, n) + after;
      FirstStored(BytesOf(vs[0], n), Store(vs[1..], n), after, bytes);
      ByteRoundTrip(vs[0], n);
      LoadStore(vs[1..], n, after, count - 1);
    }
  }

  /** Values that fill the bytes exactly. */
  lemma LoadAll(vs: seq<nat>, n: nat, bytes: seq<nat>)
    requires n >= 1 && FitBytes(vs, n) && bytes == Store(vs, n)
    ensures |bytes| / n == |vs| && Load(bytes, n, |vs|) == vs
  {
    StoreLength(vs, n);
    assert bytes == bytes + [];
    LoadStore(vs, n, [], |vs|);
    DivIs(|vs| * n, n, |vs|);
  }

  /** With enough bytes there are as many values as are asked for. */
  lemma {:induction false} LoadLength(bytes: seq<nat>, n: nat, count: nat)
    requires n >= 1 && count * n <= |bytes|
    ensures |Load(bytes, n, count)| == count
    decreases count
  {
    if count > 0 {
      assert count * n == (count - 1) * n + n;
      LoadLength(bytes[n..], n, count - 1);
    }
  }
}
