/** Transposition and multiplication of matrices kept in flat row-major arrays, over exact integers. */
module TensorAlgebra {
  import opened TensorIndex

  // ---------- double sums ----------

  type Grid = (int, int) -> int

  function Across(f: Grid, i: int, n: nat): int {
    if n == 0 then 0 else Across(f, i, n - 1) + f(i, n - 1)
  }

  function Down(f: Grid, j: int, m: nat): int {
    if m == 0 then 0 else Down(f, j, m - 1) + f(m - 1, j)
  }

  function ByRows(f: Grid, m: nat, n: nat): int {
    if m == 0 then 0 else ByRows(f, m - 1, n) + Across(f, m - 1, n)
  }

  function ByColumns(f: Grid, m: nat, n: nat): int {
    if n == 0 then 0 else ByColumns(f, m, n - 1) + Down(f, n - 1, m)
  }

  lemma {:induction false} ColumnsSplit(f: Grid, m: nat, n: nat)
    requires m > 0
    ensures ByColumns(f, m, n) == ByColumns(f, m - 1, n) + Across(f, m - 1, n)
    decreases n
  {
    if n > 0 {
      ColumnsSplit(f, m, n - 1);
    }
  }

  lemma {:induction false} NoRows(f: Grid, n: nat)
    ensures ByColumns(f, 0, n) == 0
    decreases n
  {
    if n > 0 {
      NoRows(f, n - 1);
    }
  }

  /** The order of a double sum does not matter. */
  lemma {:induction false} SumsSwap(f: Grid, m: nat, n: nat)
    ensures ByRows(f, m, n) == ByColumns(f, m, n)
    decreases m
  {
    if m == 0 {
      NoRows(f, n);
    } else {
      SumsSwap(f, m - 1, n);
      ColumnsSplit(f, m, n);
    }
  }

  // ---------- matrices ----------

  function Place(n: nat, i: int, j: int): int {
    i * n + j
  }

  /** The element at row `i` and column `j` of rows of length `n`. */
  function At(d: seq<int>, n: nat, i: int, j: int): int {
    var x := Place(n, i, j);
    if 0 <= x < |d| then d[x] else 0
  }

  lemma PlaceOf(m: nat, n: nat, i: int, j: int)
    requires 0 <= i < m && 0 <= j < n
    ensures 0 <= Place(n, i, j) < m * n
    ensures Place(n, i, j) / n == i && Place(n, i, j) % n == j
  {
    PlaceInRange(i, j, m, n);
    DivModUnique(i, j, n);
  }

  lemma PlaceInverse(m: nat, n: nat, x: nat)
    requires x < m * n
    ensures n > 0 && 0 <= x / n < m && 0 <= x % n < n && Place(n, x / n, x % n) == x
  {
    if n == 0 {
      MulZero(m);
    }
    QuotientInRange(x, m, n);
  }

  /** Two matrices with the same elements are the same data. */
  lemma SameElements(d: seq<int>, e: seq<int>, m: nat, n: nat)
    requires |d| == |e| == m * n
    requires forall i, j :: 0 <= i < m && 0 <= j < n ==> At(d, n, i, j) == At(e, n, i, j)
    ensures d == e
  {
    forall x | 0 <= x < |d| ensures d[x] == e[x] {
      PlaceInverse(m, n, x);
      assert At(d, n, x / n, x % n) == At(e, n, x / n, x % n);
    }
  }

  /** `t` is the `n` by `m` matrix with the elements of the `m` by `n` matrix `d` the other way round. */
  ghost predicate IsTransposed(d: seq<int>, m: nat, n: nat, t: seq<int>) {
    && |t| == m * n <= |d|
    && forall i, j :: 0 <= i < m && 0 <= j < n ==> At(t, m, j, i) == At(d, n, i, j)
  }

  /** The first `k` terms of a cell of the product of `a`, with rows of length `w`, and `b`, of length `n`. */
  function Cell(a: seq<int>, w: nat, b: seq<int>, n: nat, i: int, j: int, k: nat): int {
    if k == 0 then 0 else Cell(a, w, b, n, i, j, k - 1) + At(a, w, i, k - 1) * At(b, n, k - 1, j)
  }

  ghost predicate IsProduct(a: seq<int>, b: seq<int>, m: nat, k: nat, n: nat, d: seq<int>) {
    && |d| == m * n
    && forall i, j :: 0 <= i < m && 0 <= j < n ==> At(d, n, i, j) == Cell(a, k, b, n, i, j, k)
  }

  // ---------- the laws ----------

  /** Transposing twice gives the matrix back. */
  lemma TransposeTwice(d: seq<int>, m: nat, n: nat, t: seq<int>, u: seq<int>)
    requires |d| == m * n && IsTransposed(d, m, n, t) && IsTransposed(t, n, m, u)
    ensures u == d
  {
    assert m * n == n * m;
    forall i, j | 0 <= i < m && 0 <= j < n ensures At(u, n, i, j) == At(d, n, i, j) {
      assert At(t, m, j, i) == At(d, n, i, j);
    }
    SameElements(u, d, m, n);
  }

  lemma {:induction false} CellTransposed(
      a: seq<int>, b: seq<int>, m: nat, k: nat, n: nat, at: seq<int>, bt: seq<int>, i: int, j: int, p: nat)
    requires IsTransposed(a, m, k, at) && IsTransposed(b, k, n, bt)
    requires 0 <= i < m && 0 <= j < n && p <= k
    ensures Cell(bt, k, at, m, j, i, p) == Cell(a, k, b, n, i, j, p)
    decreases p
  {
    if p > 0 {
      CellTransposed(a, b, m, k, n, at, bt, i, j, p - 1);
      assert At(bt, k, j, p - 1) == At(b, n, p - 1, j);
      assert At(at, m, p - 1, i) == At(a, k, i, p - 1);
    }
  }

  /** The transpose of a product is the product of the transposes, the other way round. */
  lemma TransposeOfProduct(a: seq<int>, b: seq<int>, m: nat, k: nat, n: nat, ab: seq<int>,
                           at: seq<int>, bt: seq<int>, left: seq<int>, right: seq<int>)
    requires IsTransposed(a, m, k, at) && IsTransposed(b, k, n, bt)
    requires IsProduct(a, b, m, k, n, ab) && IsTransposed(ab, m, n, left)
    requires IsProduct(bt, at, n, k, m, right)
    ensures left == right
  {
    assert m * n == n * m;
    forall j, i | 0 <= j < n && 0 <= i < m ensures At(left, m, j, i) == At(right, m, j, i) {
      assert At(left, m, j, i) == At(ab, n, i, j);
      CellTransposed(a, b, m, k, n, at, bt, i, j, k);
    }
    SameElements(left, right, n, m);
  }

  /** The terms that a cell of a triple product adds up. */
  function Terms(a: seq<int>, k: nat, b: seq<int>, n: nat, c: seq<int>, r: nat, i: int, j: int): Grid {
    (p: int, q: int) => At(a, k, i, p) * At(b, n, p, q) * At(c, r, q, j)
  }

  lemma Distributes(x: int, y: int, z: int)
    ensures x * (y + z) == x * y + x * z == (y + z) * x == y * x + z * x
  {
  }

  lemma Associates(x: int, y: int, z: int)
    ensures x * (y * z) == x * y * z
  {
  }

  lemma {:induction false} ColumnOfTerms(
      a: seq<int>, k: nat, b: seq<int>, n: nat, c: seq<int>, r: nat, i: int, j: int, q: int, p: nat)
    ensures Down(Terms(a, k, b, n, c, r, i, j), q, p) == Cell(a, k, b, n, i, q, p) * At(c, r, q, j)
    decreases p
  {
    if p > 0 {
      ColumnOfTerms(a, k, b, n, c, r, i, j, q, p - 1);
      hide At;
      Distributes(At(c, r, q, j), Cell(a, k, b, n, i, q, p - 1), At(a, k, i, p - 1) * At(b, n, p - 1, q));
    }
  }

  lemma {:induction false} RowOfTerms(
      a: seq<int>, k: nat, b: seq<int>, n: nat, c: seq<int>, r: nat, i: int, j: int, p: int, q: nat)
    ensures Across(Terms(a, k, b, n, c, r, i, j), p, q) == At(a, k, i, p) * Cell(b, n, c, r, p, j, q)
    decreases q
  {
    if q > 0 {
      RowOfTerms(a, k, b, n, c, r, i, j, p, q - 1);
      hide At;
      var x, u, v := At(a, k, i, p), At(b, n, p, q - 1), At(c, r, q - 1, j);
      Distributes(x, Cell(b, n, c, r, p, j, q - 1), u * v);
      Associates(x, u, v);
    }
  }

  lemma {:induction false} LeftProductTerms(a: seq<int>, b: seq<int>, c: seq<int>, m: nat, k: nat, n: nat, r: nat,
                                            ab: seq<int>, i: int, j: int, q: nat)
    requires IsProduct(a, b, m, k, n, ab) && 0 <= i < m && q <= n
    ensures Cell(ab, n, c, r, i, j, q) == ByColumns(Terms(a, k, b, n, c, r, i, j), k, q)
    decreases q
  {
    if q > 0 {
      LeftProductTerms(a, b, c, m, k, n, r, ab, i, j, q - 1);
      ColumnOfTerms(a, k, b, n, c, r, i, j, q - 1, k);
      assert At(ab, n, i, q - 1) == Cell(a, k, b, n, i, q - 1, k);
    }
  }

  lemma {:induction false} RightProductTerms(a: seq<int>, b: seq<int>, c: seq<int>, k: nat, n: nat, r: nat,
                                             bc: seq<int>, i: int, j: int, p: nat)
    requires IsProduct(b, c, k, n, r, bc) && 0 <= j < r && p <= k
    ensures Cell(a, k, bc, r, i, j, p) == ByRows(Terms(a, k, b, n, c, r, i, j), p, n)
    decreases p
  {
    if p > 0 {
      RightProductTerms(a, b, c, k, n, r, bc, i, j, p - 1);
      RowOfTerms(a, k, b, n, c, r, i, j, p - 1, n);
      assert At(bc, r, p - 1, j) == Cell(b, n, c, r, p - 1, j, n);
    }
  }

  /** Multiplication is associative. */
  lemma ProductAssociates(a: seq<int>, b: seq<int>, c: seq<int>, m: nat, k: nat, n: nat, r: nat,
                          ab: seq<int>, bc: seq<int>, left: seq<int>, right: seq<int>)
    requires IsProduct(a, b, m, k, n, ab) && IsProduct(ab, c, m, n, r, left)
    requires IsProduct(b, c, k, n, r, bc) && IsProduct(a, bc, m, k, r, right)
    ensures left == right
  {
    forall i, j | 0 <= i < m && 0 <= j < r ensures At(left, r, i, j) == At(right, r, i, j) {
      LeftProductTerms(a, b, c, m, k, n, r, ab, i, j, n);
      RightProductTerms(a, b, c, k, n, r, bc, i, j, k);
      SumsSwap(Terms(a, k, b, n, c, r, i, j), k, n);
    }
    SameElements(left, right, m, r);
  }

  // ---------- the loops ----------

  /** Rows before `i` and, in row `i`, columns before `j` have been copied across. */
  ghost predicate Copied(d: seq<int>, t: seq<int>, m: nat, n: nat, i: int, j: int) {
    forall a, b :: 0 <= a < m && 0 <= b < n && (a < i || (a == i && b < j)) ==> At(t, m, b, a) == At(d, n, a, b)
  }

  lemma CopyOne(d: seq<int>, t: seq<int>, m: nat, n: nat, i: int, j: int)
    requires |t| == m * n <= |d| && 0 <= i < m && 0 <= j < n && Copied(d, t, m, n, i, j)
    ensures 0 <= Place(m, j, i) < |t| && 0 <= Place(n, i, j) < |d|
    ensures Copied(d, t[Place(m, j, i) := d[Place(n, i, j)]], m, n, i, j + 1)
  {
    PlaceOf(n, m, j, i);
    PlaceOf(m, n, i, j);
    assert m * n == n * m;
    var u := t[Place(m, j, i) := d[Place(n, i, j)]];
    hide Place;
    forall a, b | 0 <= a < m && 0 <= b < n && (a < i || (a == i && b < j + 1)) ensures At(u, m, b, a) == At(d, n, a, b) {
      PlaceOf(n, m, b, a);
      if !(a == i && b == j) {
        assert At(t, m, b, a) == At(d, n, a, b);
      }
    }
  }

  /** Every cell of the transpose is filled from its own cell of the original. */
  method Transpose(data: array<int>, m: nat, n: nat) returns (d: array<int>)
    requires data.Length >= m * n
    ensures fresh(d) && IsTransposed(data[..], m, n, d[..])
  {
    d := new int[m * n];
    for i := 0 to m
      invariant Copied(data[..], d[..], m, n, i, 0)
    {
      for j := 0 to n
        invariant Copied(data[..], d[..], m, n, i, j)
      {
        hide Copied;
        CopyOne(data[..], d[..], m, n, i, j);
        d[Place(m, j, i)] := data[Place(n, i, j)];
      }
    }
  }

  ghost predicate FirstCells(a: seq<int>, b: seq<int>, m: nat, k: nat, n: nat, d: seq<int>, i: int, j: int) {
    forall x, y :: 0 <= x < m && 0 <= y < n && (x < i || (x == i && y < j)) ==>
      At(d, n, x, y) == Cell(a, k, b, n, x, y, k)
  }

  lemma OneMoreCell(a: seq<int>, b: seq<int>, m: nat, k: nat, n: nat, d: seq<int>, i: int, j: int)
    requires |d| == m * n && 0 <= i < m && 0 <= j < n && FirstCells(a, b, m, k, n, d, i, j)
    ensures 0 <= Place(n, i, j) < |d|
    ensures FirstCells(a, b, m, k, n, d[Place(n, i, j) := Cell(a, k, b, n, i, j, k)], i, j + 1)
  {
    PlaceOf(m, n, i, j);
    var e := d[Place(n, i, j) := Cell(a, k, b, n, i, j, k)];
    hide Place, Cell;
    forall x, y | 0 <= x < m && 0 <= y < n && (x < i || (x == i && y < j + 1))
      ensures At(e, n, x, y) == Cell(a, k, b, n, x, y, k)
    {
      PlaceOf(m, n, x, y);
      if !(x == i && y == j) {
        assert At(d, n, x, y) == Cell(a, k, b, n, x, y, k);
      }
    }
  }

  method Accumulate(a: array<int>, b: array<int>, m: nat, k: nat, n: nat, i: nat, j: nat) returns (s: int)
    requires a.Length >= m * k && b.Length >= k * n && i < m && j < n
    ensures s == Cell(a[..], k, b[..], n, i, j, k)
  {
    s := 0;
    for p := 0 to k
      invariant s == Cell(a[..], k, b[..], n, i, j, p)
    {
      PlaceOf(m, k, i, p);
      PlaceOf(k, n, p, j);
      s := s + a[Place(k, i, p)] * b[Place(n, p, j)];
    }
  }

  /** Every cell of the product is filled once, with the inner product of its row and its column. */
  method Multiply(a: array<int>, b: array<int>, m: nat, k: nat, n: nat) returns (d: array<int>)
    requires a.Length >= m * k && b.Length >= k * n
    ensures fresh(d) && IsProduct(a[..], b[..], m, k, n, d[..])
  {
    d := new int[m * n];
    for i := 0 to m
      invariant FirstCells(a[..], b[..], m, k, n, d[..], i, 0)
    {
      for j := 0 to n
        invariant FirstCells(a[..], b[..], m, k, n, d[..], i, j)
      {
        hide FirstCells, Cell;
        var s := Accumulate(a, b, m, k, n, i, j);
        OneMoreCell(a[..], b[..], m, k, n, d[..], i, j);
        d[Place(n, i, j)] := s;
      }
    }
  }

  ghost predicate IsIdentity(e: seq<int>, n: nat) {
    |e| == n * n && forall i, j :: 0 <= i < n && 0 <= j < n ==> At(e, n, i, j) == if i == j then 1 else 0
  }

  lemma {:induction false} CellRight(a: seq<int>, e: seq<int>, n: nat, i: int, j: int, k: nat)
    requires IsIdentity(e, n) && 0 <= j < n && k <= n
    ensures Cell(a, n, e, n, i, j, k) == if j < k then At(a, n, i, j) else 0
    decreases k
  {
    if k > 0 {
      hide At;
      CellRight(a, e, n, i, j, k - 1);
    }
  }

  lemma {:induction false} CellLeft(e: seq<int>, m: nat, b: seq<int>, n: nat, i: int, j: int, k: nat)
    requires IsIdentity(e, m) && 0 <= i < m && k <= m
    ensures Cell(e, m, b, n, i, j, k) == if i < k then At(b, n, i, j) else 0
    decreases k
  {
    if k > 0 {
      hide At;
      CellLeft(e, m, b, n, i, j, k - 1);
    }
  }

  /** Multiplying by an identity, on either side, gives the matrix back. */
  lemma IdentityIsNeutral(a: seq<int>, m: nat, n: nat, left: seq<int>, right: seq<int>, al: seq<int>, ar: seq<int>)
    requires |a| == m * n && IsIdentity(left, m) && IsIdentity(right, n)
    requires IsProduct(left, a, m, m, n, al) && IsProduct(a, right, m, n, n, ar)
    ensures al == a && ar == a
  {
    forall i, j | 0 <= i < m && 0 <= j < n ensures At(al, n, i, j) == At(a, n, i, j) == At(ar, n, i, j) {
      CellLeft(left, m, a, n, i, j, m);
      CellRight(a, right, n, i, j, n);
    }
    hide At;
    SameElements(al, a, m, n);
    SameElements(ar, a, m, n);
  }

  // ---------- the handle table ----------

  /** Tensors by handle; handle 0 is never given out and means failure. */
  class TensorTable {
    var tensors: map<nat, Tensor>
    var next: nat

    ghost predicate Valid()
      reads this
    {
      next > 0 && forall h :: h in tensors ==> 0 < h < next
    }

    constructor ()
      ensures Valid() && tensors == map[]
    {
      tensors, next := map[], 1;
    }

    method Alloc(data: array<int>, shape: seq<nat>) returns (h: nat)
      requires Valid()
      modifies this
      ensures Valid() && h > 0 && h !in old(tensors)
      ensures h in tensors && tensors == old(tensors)[h := tensors[h]]
      ensures fresh(tensors[h]) && tensors[h].data == data && tensors[h].shape == shape
      ensures tensors[h].strides == StridesOf(shape) && tensors[h].numel == data.Length
    {
      var strides := ComputeStrides(shape);
      var t := new Tensor(data, shape, strides[..]);
      h := next;
      next := next + 1;
      tensors := tensors[h := t];
    }

    /** An unknown handle and a tensor that is not a matrix give 0. Data beyond the shape is not looked at. */
    method TransposeOf(h: nat) returns (r: nat)
      requires Valid()
      requires h in tensors && |tensors[h].shape| == 2 ==> Holds(tensors[h])
      modifies this
      ensures Valid()
      ensures r == 0 <==> h !in old(tensors) || |old(tensors)[h].shape| != 2
      ensures r == 0 ==> tensors == old(tensors)
      ensures r > 0 ==>
                var m, n := old(tensors)[h].shape[0], old(tensors)[h].shape[1];
                && r !in old(tensors) && r in tensors && tensors == old(tensors)[r := tensors[r]]
                && tensors[r].shape == [n, m]
                && IsTransposed(old(tensors)[h].data[..], m, n, tensors[r].data[..])
    {
      if h !in tensors || |tensors[h].shape| != 2 {
        return 0;
      }
      var t := tensors[h];
      var d := Transpose(t.data, t.shape[0], t.shape[1]);
      r := Alloc(d, [t.shape[1], t.shape[0]]);
    }

    /** The source does not check shapes here: its callers must give matrices, the second with a row for every
        column of the first. Rows beyond those are not looked at. */
    method ProductOf(ah: nat, bh: nat) returns (r: nat)
      requires Valid()
      requires ah in tensors && bh in tensors ==>
                 && |tensors[ah].shape| == |tensors[bh].shape| == 2 && Holds(tensors[ah]) && Holds(tensors[bh])
                 && tensors[ah].shape[1] <= tensors[bh].shape[0]
      modifies this
      ensures Valid()
      ensures r == 0 <==> ah !in old(tensors) || bh !in old(tensors)
      ensures r == 0 ==> tensors == old(tensors)
      ensures r > 0 ==>
                var a, b := old(tensors)[ah], old(tensors)[bh];
                && r !in old(tensors) && r in tensors && tensors == old(tensors)[r := tensors[r]]
                && tensors[r].shape == [a.shape[0], b.shape[1]]
                && IsProduct(a.data[..], b.data[..], a.shape[0], a.shape[1], b.shape[1], tensors[r].data[..])
    {
      if ah !in tensors || bh !in tensors {
        return 0;
      }
      var a, b := tensors[ah], tensors[bh];
      MulAtMost(a.shape[1], b.shape[0], b.shape[1]);
      var d := Multiply(a.data, b.data, a.shape[0], a.shape[1], b.shape[1]);
      r := Alloc(d, [a.shape[0], b.shape[1]]);
    }
  }

  /** The data of a matrix has an element for every cell. */
  predicate Holds(t: Tensor)
    requires |t.shape| == 2
  {
    t.shape[0] * t.shape[1] <= t.data.Length
  }
}
