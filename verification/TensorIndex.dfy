/** Row-major tensors of any rank: flat indices, strides, and reading and writing elements. */
module TensorIndex {

  /** The number of elements of a shape. */
  function Size(shape: seq<nat>): nat {
    if shape == [] then 1 else shape[0] * Size(shape[1..])
  }

  /** The place of a multi-index in row-major order. */
  function Flat(shape: seq<nat>, idx: seq<int>): int
    requires |idx| == |shape|
  {
    if shape == [] then 0 else idx[0] * Size(shape[1..]) + Flat(shape[1..], idx[1..])
  }

  ghost predicate InRange(shape: seq<nat>, idx: seq<int>) {
    |idx| == |shape| && forall k :: 0 <= k < |shape| ==> 0 <= idx[k] < shape[k]
  }

  /** The multi-index at a place. */
  function Unflat(shape: seq<nat>, x: nat): (idx: seq<int>)
    requires x < Size(shape)
    ensures |idx| == |shape|
  {
    if shape == [] then []
    else
      var rest := Size(shape[1..]);
      RestPositive(shape, x);
      [x / rest] + Unflat(shape[1..], x % rest)
  }

  lemma RestPositive(shape: seq<nat>, x: nat)
    requires shape != [] && x < Size(shape)
    ensures Size(shape[1..]) > 0
  {
    if Size(shape[1..]) == 0 {
      MulZero(shape[0]);
    }
  }

  lemma MulZero(a: int)
    ensures a * 0 == 0
  {
  }

  // ---------- arithmetic ----------

  lemma MulAtMost(a: int, b: int, n: nat)
    requires a <= b
    ensures a * n <= b * n
    decreases n
  {
  }

  lemma QuotientDecides(p: int, r: int, q: int, t: int, n: nat)
    requires p < q && 0 <= r < n && 0 <= t < n
    ensures p * n + r < q * n + t
  {
    MulAtMost(p + 1, q, n);
    assert (p + 1) * n == p * n + n;
  }

  /** A quotient and a remainder determine a number, and the other way round. */
  lemma DivModUnique(q: int, r: int, n: nat)
    requires 0 <= r < n
    ensures (q * n + r) / n == q && (q * n + r) % n == r
  {
    var x := q * n + r;
    var d, m := x / n, x % n;
    assert x == d * n + m;
    if d < q {
      QuotientDecides(d, m, q, r, n);
    } else if d > q {
      QuotientDecides(q, r, d, m, n);
    }
  }

  lemma PlaceInRange(q: int, r: int, m: nat, n: nat)
    requires 0 <= q < m && 0 <= r < n
    ensures 0 <= q * n + r < m * n
  {
    MulAtMost(0, q, n);
    MulAtMost(q + 1, m, n);
    assert (q + 1) * n == q * n + n;
  }

  lemma QuotientInRange(x: nat, m: nat, n: nat)
    requires x < m * n && n > 0
    ensures x / n < m
  {
    assert x == x / n * n + x % n;
    if x / n >= m {
      MulAtMost(m, x / n, n);
    }
  }

  // ---------- the bijection ----------

  lemma {:induction false} FlatInRange(shape: seq<nat>, idx: seq<int>)
    requires InRange(shape, idx)
    ensures 0 <= Flat(shape, idx) < Size(shape)
    decreases |shape|
  {
    if shape != [] {
      FlatInRange(shape[1..], idx[1..]);
      PlaceInRange(idx[0], Flat(shape[1..], idx[1..]), shape[0], Size(shape[1..]));
    }
  }

  lemma RangeSplits(shape: seq<nat>, idx: seq<int>)
    requires InRange(shape, idx) && shape != []
    ensures 0 <= idx[0] < shape[0] && InRange(shape[1..], idx[1..])
  {
  }

  /** A multi-index is recovered from its place. */
  lemma {:induction false} UnflatFlat(shape: seq<nat>, idx: seq<int>)
    requires InRange(shape, idx)
    ensures 0 <= Flat(shape, idx) < Size(shape)
    ensures Unflat(shape, Flat(shape, idx)) == idx
    decreases |shape|
  {
    FlatInRange(shape, idx);
    if shape != [] {
      RangeSplits(shape, idx);
      hide InRange;
      FlatInRange(shape[1..], idx[1..]);
      DivModUnique(idx[0], Flat(shape[1..], idx[1..]), Size(shape[1..]));
      UnflatFlat(shape[1..], idx[1..]);
      assert idx == [idx[0]] + idx[1..];
    }
  }

  /** Every place is that of an in-range multi-index. */
  lemma {:induction false} FlatUnflat(shape: seq<nat>, x: nat)
    requires x < Size(shape)
    ensures InRange(shape, Unflat(shape, x)) && Flat(shape, Unflat(shape, x)) == x
    decreases |shape|
  {
    if shape != [] {
      hide InRange, Flat, Size;
      RestPositive(shape, x);
      var rest := Size(shape[1..]);
      DivModOf(x, rest);
      FlatUnflat(shape[1..], x % rest);
      SizeSplits(shape);
      QuotientInRange(x, shape[0], rest);
      assert Unflat(shape, x) == [x / rest] + Unflat(shape[1..], x % rest);
      FlatCons(shape, x / rest, Unflat(shape[1..], x % rest));
    }
  }

  lemma DivModOf(x: nat, n: nat)
    requires n > 0
    ensures 0 <= x / n && 0 <= x % n < n && x == x / n * n + x % n
  {
  }

  lemma SizeSplits(shape: seq<nat>)
    requires shape != []
    ensures Size(shape) == shape[0] * Size(shape[1..])
  {
  }

  lemma FlatCons(shape: seq<nat>, i: int, idx: seq<int>)
    requires shape != [] && 0 <= i < shape[0] && InRange(shape[1..], idx)
    ensures InRange(shape, [i] + idx)
    ensures Flat(shape, [i] + idx) == i * Size(shape[1..]) + Flat(shape[1..], idx)
  {
    assert ([i] + idx)[1..] == idx;
  }

  /** In-range multi-indices and places correspond one to one. */
  lemma FlatInjective(shape: seq<nat>, idx: seq<int>, other: seq<int>)
    requires InRange(shape, idx) && InRange(shape, other)
    ensures Flat(shape, idx) == Flat(shape, other) <==> idx == other
  {
    UnflatFlat(shape, idx);
    UnflatFlat(shape, other);
  }

  // ---------- strides ----------

  function StridesOf(shape: seq<nat>): (strides: seq<nat>)
    ensures |strides| == |shape|
  {
    if shape == [] then [] else [Size(shape[1..])] + StridesOf(shape[1..])
  }

  function Dot(idx: seq<int>, strides: seq<nat>): int
    requires |idx| == |strides|
  {
    if idx == [] then 0 else idx[0] * strides[0] + Dot(idx[1..], strides[1..])
  }

  /** Strides are what they are for: the place of a multi-index is its inner product with them. */
  lemma {:induction false} StridesGivePlace(shape: seq<nat>, idx: seq<int>)
    requires |idx| == |shape|
    ensures Dot(idx, StridesOf(shape)) == Flat(shape, idx)
    decreases |shape|
  {
    if shape != [] {
      StridesGivePlace(shape[1..], idx[1..]);
      assert StridesOf(shape)[1..] == StridesOf(shape[1..]);
    }
  }

  method ComputeStrides(shape: seq<nat>) returns (strides: array<nat>)
    ensures fresh(strides) && strides[..] == StridesOf(shape)
  {
    strides := new nat[|shape|];
    var s := 1;
    var i := |shape|;
    while i > 0
      invariant 0 <= i <= |shape| == strides.Length
      invariant s == Size(shape[i..])
      invariant strides[i..] == StridesOf(shape[i..])
    {
      i := i - 1;
      assert shape[i..][1..] == shape[i + 1..] && shape[i..][0] == shape[i];
      strides[i] := s;
      s := s * shape[i];
      assert strides[i..] == [strides[i]] + strides[i + 1..];
    }
    assert shape[0..] == shape && strides[0..] == strides[..];
  }

  // ---------- elements ----------

  /** The index as the loop reads it: entries that are missing count as zero, extra ones are not looked at. */
  function Padded(idx: seq<int>, rank: nat): (full: seq<int>)
    ensures |full| == rank
  {
    seq(rank, k requires 0 <= k < rank => if k < |idx| then idx[k] else 0)
  }

  method FlatIndex(shape: seq<nat>, idx: seq<int>) returns (flat: int)
    ensures flat == Flat(shape, Padded(idx, |shape|))
  {
    var full := Padded(idx, |shape|);
    var stride := 1;
    flat := 0;
    var i := |shape|;
    while i > 0
      invariant 0 <= i <= |shape|
      invariant stride == Size(shape[i..])
      invariant flat == Flat(shape[i..], full[i..])
    {
      i := i - 1;
      assert shape[i..][1..] == shape[i + 1..] && full[i..][1..] == full[i + 1..];
      flat := flat + (if i < |idx| then idx[i] else 0) * stride;
      stride := stride * shape[i];
    }
    assert shape[0..] == shape && full[0..] == full;
  }

  function ElementOf(data: seq<int>, shape: seq<nat>, idx: seq<int>): int {
    var x := Flat(shape, Padded(idx, |shape|));
    if 0 <= x < |data| then data[x] else 0
  }

  /** What an index leaves out is read as 0, what it has too much is not looked at, and a read gives 0 exactly where
      there is no data. */
  lemma ReadLaws(data: seq<int>, shape: seq<nat>, idx: seq<int>)
    ensures |idx| < |shape| ==> ElementOf(data, shape, idx) == ElementOf(data, shape, idx + [0])
    ensures |idx| > |shape| ==> ElementOf(data, shape, idx) == ElementOf(data, shape, idx[..|shape|])
    ensures |idx| == |shape| ==>
      var x := Flat(shape, idx);
      ElementOf(data, shape, idx) == if x < 0 || |data| <= x then 0 else data[x]
  {
    if |idx| < |shape| {
      assert Padded(idx, |shape|) == Padded(idx + [0], |shape|);
    } else if |idx| > |shape| {
      assert Padded(idx, |shape|) == Padded(idx[..|shape|], |shape|);
    } else {
      assert Padded(idx, |shape|) == idx;
    }
  }

  /** A tensor on the CPU. A read outside the data gives 0 and a write outside is dropped. */
  class Tensor {
    const data: array<int>
    const shape: seq<nat>
    const strides: seq<nat>
    const numel: nat

    constructor (data: array<int>, shape: seq<nat>, strides: seq<nat>)
      ensures this.data == data && this.shape == shape && this.strides == strides && numel == data.Length
    {
      this.data, this.shape, this.strides, this.numel := data, shape, strides, data.Length;
    }

    method Get(idx: seq<int>) returns (v: int)
      ensures v == ElementOf(data[..], shape, idx)
    {
      var x := FlatIndex(shape, idx);
      v := if 0 <= x < data.Length then data[x] else 0;
    }

    /** Writes one element. If the data fits the shape, then at a multi-index in range it is read back there, and
        every other multi-index reads as before. */
    method Set(idx: seq<int>, v: int)
      modifies data
      ensures data[..] == Written(old(data[..]), shape, idx, v)
      ensures data.Length == Size(shape) && InRange(shape, idx) ==>
                ElementOf(data[..], shape, idx) == v && OthersKept(old(data[..]), shape, idx, v)
    {
      var x := FlatIndex(shape, idx);
      if data.Length == Size(shape) && InRange(shape, idx) {
        PaddedSame(shape, idx);
        FlatInRange(shape, idx);
        OthersKeptIff(data[..], shape, idx);
      }
      if 0 <= x < data.Length {
        data[x] := v;
      }
    }
  }

  function Written(data: seq<int>, shape: seq<nat>, idx: seq<int>, v: int): seq<int> {
    var x := Flat(shape, Padded(idx, |shape|));
    if 0 <= x < |data| then data[x := v] else data
  }

  /** Every multi-index in range other than the one written reads as before. */
  ghost predicate OthersKept(data: seq<int>, shape: seq<nat>, idx: seq<int>, v: int) {
    forall other :: InRange(shape, other) && other != Padded(idx, |shape|) ==>
      ElementOf(Written(data, shape, idx, v), shape, other) == ElementOf(data, shape, other)
  }

  /** Indices are not checked against the shape: an index outside it whose place lies in the data has the place
      of another multi-index, which is in range. */
  lemma OutOfShapeAliases(shape: seq<nat>, idx: seq<int>) returns (other: seq<int>)
    requires |idx| == |shape| && !InRange(shape, idx) && 0 <= Flat(shape, idx) < Size(shape)
    ensures InRange(shape, other) && other != idx && Flat(shape, other) == Flat(shape, idx)
  {
    other := Unflat(shape, Flat(shape, idx));
    FlatUnflat(shape, Flat(shape, idx));
  }

  /** Exactly when a write disturbs no other element, whatever value is written: the index is in range, or its
      place lies outside the data. */
  lemma OthersKeptIff(data: seq<int>, shape: seq<nat>, idx: seq<int>)
    requires |data| == Size(shape)
    ensures (forall v :: OthersKept(data, shape, idx, v)) <==>
            var full := Padded(idx, |shape|);
            InRange(shape, full) || !(0 <= Flat(shape, full) < Size(shape))
  {
    hide Flat;
    var full := Padded(idx, |shape|);
    if InRange(shape, full) {
      forall v, other | InRange(shape, other) && other != full
        ensures ElementOf(Written(data, shape, idx, v), shape, other) == ElementOf(data, shape, other)
      {
        PaddedSame(shape, other);
        FlatInjective(shape, full, other);
      }
    } else if 0 <= Flat(shape, full) < Size(shape) {
      var other := OutOfShapeAliases(shape, full);
      PaddedSame(shape, other);
      var v := ElementOf(data, shape, other) + 1;
      assert ElementOf(Written(data, shape, idx, v), shape, other) == v;
      assert !OthersKept(data, shape, idx, v);
    }
  }

  lemma PaddedSame(shape: seq<nat>, idx: seq<int>)
    requires |idx| == |shape|
    ensures Padded(idx, |shape|) == idx
  {
  }

  /** In a 2 by 2 tensor, the index (0, 2) has the place of (1, 0). */
  lemma ColumnTooFar()
    ensures Flat([2, 2], [0, 2]) == Flat([2, 2], [1, 0]) == 2
    ensures !InRange([2, 2], [0, 2]) && InRange([2, 2], [1, 0])
  {
    var one: seq<nat> := [2];
    assert [2, 2][1..] == one && one[1..] == [];
    assert [0, 2][1..] == [2] && [1, 0][1..] == [0];
    assert Flat(one, [2]) == 2 && Flat(one, [0]) == 0;
    assert [0, 2][1] == 2;
  }
}
