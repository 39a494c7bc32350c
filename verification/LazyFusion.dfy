/** Lazy elementwise fusion: the byte stream that keys the fused-kernel cache, and the collection of a
    tree's buffers into binding slots. */
module LazyFusion {
  import opened Sequences

  datatype KernelOp =
    | Add | Sub | Mul | Div
    | Neg | Abs | Sqrt | Exp | Log | Relu | Sigmoid | Tanh | Gelu | Silu
    | ReduceSum | ReduceMax | ReduceMin
    | Matmul | MatmulQ4K | BatchMatmul
    | RmsNorm | Rope
  {
    function Name(): string {
      match this
      case Add => "add"
      case Sub => "sub"
      case Mul => "mul"
      case Div => "div"
      case Neg => "neg"
      case Abs => "abs"
      case Sqrt => "sqrt"
      case Exp => "exp"
      case Log => "log"
      case Relu => "relu"
      case Sigmoid => "sigmoid"
      case Tanh => "tanh"
      case Gelu => "gelu"
      case Silu => "silu"
      case ReduceSum => "reduce_sum"
      case ReduceMax => "reduce_max"
      case ReduceMin => "reduce_min"
      case Matmul => "matmul"
      case MatmulQ4K => "matmul_q4k"
      case BatchMatmul => "batch_matmul"
      case RmsNorm => "rms_norm"
      case Rope => "rope"
    }
  }

  /** The identity of a buffer: the address behind its reference count. */
  type Ptr = nat

  datatype LazyOp =
    | Input(buffer: Ptr)
    | Unary(op: KernelOp, input: LazyOp)
    | Binary(op: KernelOp, lhs: LazyOp, rhs: LazyOp)

  // ---------- the key ----------

  /** What hashing a string appends to its bytes. */
  const STR_END := 255

  /** The bytes of a name; every operator name is ASCII, one byte a character. */
  function NameBytes(name: string): seq<int> {
    seq(|name|, i requires 0 <= i < |name| => name[i] as int)
  }

  function Tag(t: LazyOp): int {
    match t
    case Input(_) => 0
    case Unary(_, _) => 1
    case Binary(_, _, _) => 2
  }

  /** What a tree feeds to the hasher: tags, terminated names, and operands left to right. */
  function Stream(t: LazyOp): (bytes: seq<int>)
    ensures |bytes| > 0 && bytes[0] == Tag(t)
  {
    match t
    case Input(_) => [0]
    case Unary(op, input) => [1] + (NameBytes(op.Name()) + [STR_END] + Stream(input))
    case Binary(op, lhs, rhs) => [2] + (NameBytes(op.Name()) + [STR_END] + (Stream(lhs) + Stream(rhs)))
  }

  /** The same tree up to which buffers its leaves name. */
  predicate SameShape(t: LazyOp, u: LazyOp) {
    match t
    case Input(_) => u.Input?
    case Unary(op, input) => u.Unary? && u.op == op && SameShape(input, u.input)
    case Binary(op, lhs, rhs) => u.Binary? && u.op == op && SameShape(lhs, u.lhs) && SameShape(rhs, u.rhs)
  }

  /** Reads an operator off its name by the letters that tell the names apart. */
  function FromName(s: string): KernelOp {
    if |s| == 3 then
      if s[0] == 'a' then if s[1] == 'd' then Add else Abs
      else if s[0] == 's' then Sub
      else if s[0] == 'm' then Mul
      else if s[0] == 'd' then Div
      else if s[0] == 'n' then Neg
      else if s[0] == 'e' then Exp
      else Log
    else if |s| == 4 then
      if s[0] == 's' then if s[1] == 'q' then Sqrt else Silu
      else if s[0] == 'r' then if s[1] == 'e' then Relu else Rope
      else if s[0] == 't' then Tanh
      else Gelu
    else if |s| == 6 then Matmul
    else if |s| == 7 then Sigmoid
    else if |s| == 8 then RmsNorm
    else if |s| == 10 then
      if s[0] == 'm' then MatmulQ4K
      else if s[7] == 's' then ReduceSum
      else if s[8] == 'a' then ReduceMax
      else ReduceMin
    else BatchMatmul
  }

  lemma NameDecodes(op: KernelOp)
    ensures FromName(op.Name()) == op
  {
  }

  /** No two operators share a name, so the names stand for the operators in the key. */
  lemma NameInjective(a: KernelOp, b: KernelOp)
    requires NameBytes(a.Name()) == NameBytes(b.Name())
    ensures a == b
  {
    var n, m := a.Name(), b.Name();
    assert |NameBytes(n)| == |n| && |NameBytes(m)| == |m|;
    forall i | 0 <= i < |n| ensures n[i] == m[i] {
      assert NameBytes(n)[i] == n[i] as int && NameBytes(m)[i] == m[i] as int;
    }
    assert n == m;
    NameDecodes(a);
    NameDecodes(b);
  }

  lemma NameHasNoEnd(op: KernelOp)
    ensures STR_END !in NameBytes(op.Name())
  {
  }

  /** Reading a tree off the front of a stream gives one answer, and says where the tree ends. */
  lemma {:induction false} StreamPrefix(t: LazyOp, u: LazyOp, x: seq<int>, y: seq<int>)
    requires Stream(t) + x == Stream(u) + y
    ensures SameShape(t, u) && x == y
    decreases t
  {
    hide NameBytes, KernelOp.Name;
    assert (Stream(t) + x)[0] == Tag(t) && (Stream(u) + y)[0] == Tag(u);
    assert (Stream(t) + x)[1..] == Stream(t)[1..] + x && (Stream(u) + y)[1..] == Stream(u)[1..] + y;
    match t
    case Input(_) =>
      assert Stream(t)[1..] == [] && Stream(u)[1..] == [];
    case Unary(op, input) =>
      NamedPrefix(op, u.op, Stream(input), Stream(u.input), x, y);
      StreamPrefix(input, u.input, x, y);
    case Binary(op, lhs, rhs) =>
      var s, r := Stream(rhs), Stream(u.rhs);
      NamedPrefix(op, u.op, Stream(lhs) + s, Stream(u.lhs) + r, x, y);
      assert Stream(lhs) + s + x == Stream(lhs) + (s + x) && Stream(u.lhs) + r + y == Stream(u.lhs) + (r + y);
      StreamPrefix(lhs, u.lhs, s + x, r + y);
      StreamPrefix(rhs, u.rhs, x, y);
  }

  lemma NamedPrefix(a: KernelOp, b: KernelOp, s: seq<int>, r: seq<int>, x: seq<int>, y: seq<int>)
    requires NameBytes(a.Name()) + [STR_END] + s + x == NameBytes(b.Name()) + [STR_END] + r + y
    ensures a == b && s + x == r + y
  {
    var n, m := NameBytes(a.Name()), NameBytes(b.Name());
    assert n + [STR_END] + s + x == n + [STR_END] + (s + x);
    assert m + [STR_END] + r + y == m + [STR_END] + (r + y);
    NameHasNoEnd(a);
    NameHasNoEnd(b);
    TerminatedPrefix(n, m, STR_END, s + x, r + y);
    NameInjective(a, b);
  }

  lemma {:induction false} ShapeGivesStream(t: LazyOp, u: LazyOp)
    requires SameShape(t, u)
    ensures Stream(t) == Stream(u)
  {
    match t
    case Input(_) =>
    case Unary(_, input) =>
      ShapeGivesStream(input, u.input);
    case Binary(_, lhs, rhs) =>
      ShapeGivesStream(lhs, u.lhs);
      ShapeGivesStream(rhs, u.rhs);
  }

  /** The stream is uniquely decodable: it tells apart exactly the trees of different shape. */
  lemma KeyIffShape(t: LazyOp, u: LazyOp)
    ensures Stream(t) == Stream(u) <==> SameShape(t, u)
  {
    if Stream(t) == Stream(u) {
      StreamPrefix(t, u, [], []);
    }
    if SameShape(t, u) {
      ShapeGivesStream(t, u);
    }
  }

  /** The hasher that a tree is walked into. */
  class StreamHasher {
    var fed: seq<int>

    constructor ()
      ensures fed == []
    {
      fed := [];
    }

    method WriteU8(b: int)
      modifies this
      ensures fed == old(fed) + [b]
    {
      fed := fed + [b];
    }

    method WriteStr(s: string)
      modifies this
      ensures fed == old(fed) + (NameBytes(s) + [STR_END])
    {
      fed := fed + NameBytes(s) + [STR_END];
    }

    method HashOp(t: LazyOp)
      modifies this
      ensures fed == old(fed) + Stream(t)
      decreases t
    {
      hide NameBytes, KernelOp.Name;
      match t
      case Input(_) =>
        WriteU8(0);
      case Unary(op, input) =>
        WriteU8(1);
        WriteStr(op.Name());
        HashOp(input);
      case Binary(op, lhs, rhs) =>
        WriteU8(2);
        WriteStr(op.Name());
        HashOp(lhs);
        HashOp(rhs);
    }
  }

  // ---------- the bindings ----------

  /** The buffers at the leaves, left to right. */
  function Leaves(t: LazyOp): (ptrs: seq<Ptr>)
    ensures |ptrs| > 0
  {
    match t
    case Input(p) => [p]
    case Unary(_, input) => Leaves(input)
    case Binary(_, lhs, rhs) => Leaves(lhs) + Leaves(rhs)
  }

  /** The distinct members of `s`, in order of first occurrence. */
  function Distinct(s: seq<Ptr>): (d: seq<Ptr>)
    ensures NoDup(d)
    ensures forall p :: p in d <==> p in s
  {
    if s == [] then []
    else
      var d := Distinct(s[..|s| - 1]);
      var last := s[|s| - 1];
      assert s == s[..|s| - 1] + [last];
      if last in d then d else d + [last]
  }

  function Slot(d: seq<Ptr>, p: Ptr): (i: nat)
    requires p in d
    ensures i < |d| && d[i] == p
  {
    if d[0] == p then 0 else 1 + Slot(d[1..], p)
  }

  /** The binding slot that each leaf is read from. */
  function Bindings(s: seq<Ptr>): (b: seq<nat>)
    ensures |b| == |s|
    ensures forall k :: 0 <= k < |s| ==> b[k] < |Distinct(s)| && Distinct(s)[b[k]] == s[k]
  {
    seq(|s|, k requires 0 <= k < |s| => Slot(Distinct(s), s[k]))
  }

  /** The same leaves alias one another in both. */
  ghost predicate SameSharing(s: seq<Ptr>, r: seq<Ptr>) {
    |s| == |r| && forall i, j :: 0 <= i < |s| && 0 <= j < |s| ==> (s[i] == s[j] <==> r[i] == r[j])
  }

  ghost predicate Aligned(s: seq<Ptr>, d: seq<Ptr>, r: seq<Ptr>, e: seq<Ptr>)
    requires |s| == |r|
  {
    |d| == |e| && forall k, i :: 0 <= k < |s| && 0 <= i < |d| ==> (d[i] == s[k] <==> e[i] == r[k])
  }

  lemma DistinctSnoc(s: seq<Ptr>, p: Ptr)
    ensures Distinct(s + [p]) == if p in s then Distinct(s) else Distinct(s) + [p]
  {
  }

  /** Sharing decides the slots: trees that alias alike number their leaves alike. */
  lemma {:induction false} SharingAligns(s: seq<Ptr>, r: seq<Ptr>, n: nat)
    requires SameSharing(s, r) && n <= |s| == |r|
    ensures Aligned(s, Distinct(s[..n]), r, Distinct(r[..n]))
    decreases n
  {
    hide Distinct, SameSharing, Aligned;
    if n == 0 {
      AlignedNone(s, r);
    } else {
      SharingAligns(s, r, n - 1);
      DistinctPrefix(s, n - 1);
      DistinctPrefix(r, n - 1);
      SeenAlike(s, r, n - 1);
      AlignedMore(s, Distinct(s[..n - 1]), r, Distinct(r[..n - 1]), n - 1);
    }
  }

  lemma AlignedNone(s: seq<Ptr>, r: seq<Ptr>)
    requires |s| == |r|
    ensures Aligned(s, Distinct(s[..0]), r, Distinct(r[..0]))
  {
    assert s[..0] == [] && r[..0] == [];
  }

  lemma DistinctPrefix(s: seq<Ptr>, n: nat)
    requires n < |s|
    ensures Distinct(s[..n + 1]) == if s[n] in s[..n] then Distinct(s[..n]) else Distinct(s[..n]) + [s[n]]
  {
    hide Distinct;
    assert s[..n + 1] == s[..n] + [s[n]];
    DistinctSnoc(s[..n], s[n]);
  }

  lemma AlignedMore(whole: seq<Ptr>, d: seq<Ptr>, other: seq<Ptr>, e: seq<Ptr>, n: nat)
    requires SameSharing(whole, other) && n < |whole| == |other| && Aligned(whole, d, other, e)
    ensures Aligned(whole, d + [whole[n]], other, e + [other[n]])
  {
  }

  lemma SeenAlike(s: seq<Ptr>, r: seq<Ptr>, n: nat)
    requires SameSharing(s, r) && n < |s|
    ensures s[n] in s[..n] <==> r[n] in r[..n]
  {
  }

  /** Two leaf lists get the same slots exactly when they alias alike, and then use as many buffers. */
  lemma BindingsIffSharing(s: seq<Ptr>, r: seq<Ptr>)
    ensures Bindings(s) == Bindings(r) <==> SameSharing(s, r)
    ensures SameSharing(s, r) ==> |Distinct(s)| == |Distinct(r)|
  {
    if SameSharing(s, r) {
      assert s == s[..|s|] && r == r[..|r|];
      SharingAligns(s, r, |s|);
      forall k | 0 <= k < |s| ensures Bindings(s)[k] == Bindings(r)[k] {
        var i := Bindings(s)[k];
        assert Distinct(s)[i] == s[k] && Distinct(r)[i] == r[k];
      }
    }
    if Bindings(s) == Bindings(r) {
      SlotsTellSharing(s, r);
    }
  }

  lemma SlotsTellSharing(s: seq<Ptr>, r: seq<Ptr>)
    requires Bindings(s) == Bindings(r)
    ensures SameSharing(s, r)
  {
  }

  /** The two collections that one walk over a tree grows. */
  class InputCollector {
    var buffers: seq<Ptr>
    var ptrToIdx: map<Ptr, nat>
    ghost var seen: seq<Ptr>

    ghost predicate Valid()
      reads this
    {
      && buffers == Distinct(seen)
      && (forall p :: p in ptrToIdx <==> p in buffers)
      && (forall p :: p in ptrToIdx ==> ptrToIdx[p] < |buffers| && buffers[ptrToIdx[p]] == p)
    }

    constructor ()
      ensures Valid() && seen == []
    {
      buffers, ptrToIdx, seen := [], map[], [];
    }

    method Collect(t: LazyOp)
      requires Valid()
      modifies this
      ensures Valid() && seen == old(seen) + Leaves(t)
      decreases t
    {
      hide Distinct;
      match t
      case Input(p) =>
        DistinctSnoc(seen, p);
        if p !in ptrToIdx {
          ptrToIdx := ptrToIdx[p := |buffers|];
          buffers := buffers + [p];
        }
        seen := seen + [p];
      case Unary(_, input) =>
        Collect(input);
      case Binary(_, lhs, rhs) =>
        Collect(lhs);
        Collect(rhs);
        assert old(seen) + Leaves(lhs) + Leaves(rhs) == old(seen) + Leaves(t);
    }
  }

  /** The buffers come out once each, in order of first use, and the map sends each to its slot. */
  method CollectInputs(t: LazyOp) returns (buffers: seq<Ptr>, ptrToIdx: map<Ptr, nat>)
    ensures buffers == Distinct(Leaves(t))
    ensures ptrToIdx == SlotMap(t)
  {
    var c := new InputCollector();
    c.Collect(t);
    assert c.seen == Leaves(t);
    buffers, ptrToIdx := c.buffers, c.ptrToIdx;
    forall p | p in ptrToIdx ensures ptrToIdx[p] == Slot(buffers, p) {
      assert buffers[ptrToIdx[p]] == buffers[Slot(buffers, p)];
    }
  }

  function SlotMap(t: LazyOp): (m: map<Ptr, nat>)
    ensures forall p :: p in m <==> p in Leaves(t)
  {
    map p | p in Leaves(t) :: Slot(Distinct(Leaves(t)), p)
  }
}
