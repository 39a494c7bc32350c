/** The single-pass kernel emitted for a lazy tree, what it computes, and the cache that lends one tree's
    kernel to another. */
module FusedKernel {
  import opened LazyFusion
  import opened Wrappers

  /** An operand of a kernel line: an element of a bound buffer, or an earlier line's variable. */
  datatype Operand = In(slot: nat) | Var(id: nat)
  datatype Expr = Un(op: KernelOp, a: Operand) | Bin(op: KernelOp, a: Operand, b: Operand)
  datatype Line = Line(target: nat, expr: Expr)
  datatype Kernel = Kernel(lines: seq<Line>, result: Operand, numInputs: nat, dtype: nat)

  /** The operators that the emitter has an expression for; it panics on any other. */
  predicate Elementwise(t: LazyOp) {
    match t
    case Input(_) => true
    case Unary(op, input) =>
      (op.Neg? || op.Abs? || op.Sqrt? || op.Exp? || op.Log? || op.Relu? || op.Sigmoid? || op.Tanh? ||
       op.Gelu? || op.Silu?) && Elementwise(input)
    case Binary(op, lhs, rhs) =>
      (op.Add? || op.Sub? || op.Mul? || op.Div?) && Elementwise(lhs) && Elementwise(rhs)
  }

  // ---------- emission ----------

  /** The lines for `t` when its k-th leaf is bound to slot `b[k]` and `base` variables are taken already,
      and the operand that holds its value. */
  function Emitted(t: LazyOp, b: seq<nat>, base: nat): (e: (seq<Line>, Operand))
    requires |b| == |Leaves(t)|
  {
    match t
    case Input(_) => ([], In(b[0]))
    case Unary(op, input) =>
      var (lines, a) := Emitted(input, b, base);
      var v := base + |lines|;
      (lines + [Line(v, Un(op, a))], Var(v))
    case Binary(op, lhs, rhs) =>
      var n := |Leaves(lhs)|;
      var (ls, a) := Emitted(lhs, b[..n], base);
      var (rs, c) := Emitted(rhs, b[n..], base + |ls|);
      var v := base + |ls| + |rs|;
      (ls + rs + [Line(v, Bin(op, a, c))], Var(v))
  }

  function SlotsOf(t: LazyOp, m: map<Ptr, nat>): (b: seq<nat>)
    requires forall p :: p in Leaves(t) ==> p in m
    ensures |b| == |Leaves(t)|
  {
    seq(|Leaves(t)|, k requires 0 <= k < |Leaves(t)| => m[Leaves(t)[k]])
  }

  function KernelOf(t: LazyOp, dtype: nat): Kernel {
    var (lines, result) := Emitted(t, Bindings(Leaves(t)), 0);
    Kernel(lines, result, |Distinct(Leaves(t))|, dtype)
  }

  /** A kernel computes on its own element type, with one input for each buffer of its tree. */
  lemma KernelIsFor(t: LazyOp, dtype: nat)
    ensures KernelOf(t, dtype).dtype == dtype && KernelOf(t, dtype).numInputs == |Distinct(Leaves(t))|
  {
  }

  class Emitter {
    var counter: nat
    var lines: seq<Line>

    constructor ()
      ensures counter == 0 && lines == []
    {
      counter, lines := 0, [];
    }

    method EmitOp(t: LazyOp, ptrToIdx: map<Ptr, nat>) returns (r: Operand)
      requires Elementwise(t) && forall p :: p in Leaves(t) ==> p in ptrToIdx
      modifies this
      ensures lines == old(lines) + Emitted(t, SlotsOf(t, ptrToIdx), old(counter)).0
      ensures r == Emitted(t, SlotsOf(t, ptrToIdx), old(counter)).1
      ensures counter - old(counter) == |lines| - |old(lines)|
      decreases t
    {
      hide Leaves, Emitted, SlotsOf;
      EmittedCases(t, ptrToIdx, counter);
      match t
      case Input(p) =>
        r := In(ptrToIdx[p]);
      case Unary(op, input) =>
        var a := EmitOp(input, ptrToIdx);
        r := Var(counter);
        lines := lines + [Line(counter, Un(op, a))];
        counter := counter + 1;
      case Binary(op, lhs, rhs) =>
        var a := EmitOp(lhs, ptrToIdx);
        var c := EmitOp(rhs, ptrToIdx);
        r := Var(counter);
        lines := lines + [Line(counter, Bin(op, a, c))];
        counter := counter + 1;
    }
  }

  lemma EmittedCases(t: LazyOp, m: map<Ptr, nat>, base: nat)
    requires forall p :: p in Leaves(t) ==> p in m
    ensures t.Input? ==> t.buffer in m && Emitted(t, SlotsOf(t, m), base) == ([], In(m[t.buffer]))
    ensures t.Unary? ==>
              && (forall p :: p in Leaves(t.input) ==> p in m)
              && var (ls, a) := Emitted(t.input, SlotsOf(t.input, m), base);
              Emitted(t, SlotsOf(t, m), base) == (ls + [Line(base + |ls|, Un(t.op, a))], Var(base + |ls|))
    ensures t.Binary? ==>
              && (forall p :: p in Leaves(t.lhs) || p in Leaves(t.rhs) ==> p in m)
              && var (ls, a) := Emitted(t.lhs, SlotsOf(t.lhs, m), base);
              var (rs, c) := Emitted(t.rhs, SlotsOf(t.rhs, m), base + |ls|);
              var v := base + |ls| + |rs|;
              Emitted(t, SlotsOf(t, m), base) == (ls + rs + [Line(v, Bin(t.op, a, c))], Var(v))
  {
    match t
    case Input(p) =>
      assert Leaves(t)[0] == p && p in Leaves(t);
    case Unary(_, input) =>
      assert SlotsOf(t, m) == SlotsOf(input, m);
    case Binary(_, lhs, rhs) =>
      SlotsSplit(t, m);
  }

  lemma SlotsSplit(t: LazyOp, m: map<Ptr, nat>)
    requires t.Binary? && forall p :: p in Leaves(t) ==> p in m
    ensures forall p :: p in Leaves(t.lhs) || p in Leaves(t.rhs) ==> p in m
    ensures SlotsOf(t, m)[..|Leaves(t.lhs)|] == SlotsOf(t.lhs, m)
    ensures SlotsOf(t, m)[|Leaves(t.lhs)|..] == SlotsOf(t.rhs, m)
  {
    var a, b := Leaves(t.lhs), Leaves(t.rhs);
    assert Leaves(t) == a + b;
    hide Leaves;
    assert forall p :: p in a || p in b ==> p in a + b;
  }

  method EmitFusedKernel(t: LazyOp, dtype: nat, ptrToIdx: map<Ptr, nat>, numInputs: nat) returns (k: Kernel)
    requires Elementwise(t) && ptrToIdx == SlotMap(t) && numInputs == |Distinct(Leaves(t))|
    ensures k == KernelOf(t, dtype) && k.dtype == dtype && k.numInputs == numInputs
  {
    var e := new Emitter();
    var r := e.EmitOp(t, ptrToIdx);
    assert SlotsOf(t, ptrToIdx) == Bindings(Leaves(t));
    k := Kernel(e.lines, r, numInputs, dtype);
  }

  // ---------- what a kernel computes ----------

  /** Any meaning of the operators on one element. */
  datatype Meaning<!V> = Meaning(un: (KernelOp, V) -> V, bin: (KernelOp, V, V) -> V)

  /** The value of a tree from the values of its leaves, left to right. */
  function Eval<V>(m: Meaning<V>, t: LazyOp, vals: seq<V>): V
    requires |vals| == |Leaves(t)|
  {
    match t
    case Input(_) => vals[0]
    case Unary(op, input) => m.un(op, Eval(m, input, vals))
    case Binary(op, lhs, rhs) =>
      var n := |Leaves(lhs)|;
      m.bin(op, Eval(m, lhs, vals[..n]), Eval(m, rhs, vals[n..]))
  }

  predicate Reads(o: Operand, inputs: nat, defined: nat) {
    match o
    case In(slot) => slot < inputs
    case Var(id) => id < defined
  }

  predicate LineOk(l: Line, inputs: nat, defined: nat) {
    && l.target == defined
    && Reads(l.expr.a, inputs, defined)
    && (l.expr.Bin? ==> Reads(l.expr.b, inputs, defined))
  }

  /** Every line defines the next variable and reads only bound buffers and variables defined above it. */
  ghost predicate Scoped(lines: seq<Line>, inputs: nat, defined: nat) {
    forall i :: 0 <= i < |lines| ==> LineOk(lines[i], inputs, defined + i)
  }

  function Fetch<V>(o: Operand, inputs: seq<V>, env: seq<V>): V
    requires Reads(o, |inputs|, |env|)
  {
    match o
    case In(slot) => inputs[slot]
    case Var(id) => env[id]
  }

  function LineValue<V>(m: Meaning<V>, l: Line, inputs: seq<V>, env: seq<V>): V
    requires LineOk(l, |inputs|, |env|)
  {
    match l.expr
    case Un(op, a) => m.un(op, Fetch(a, inputs, env))
    case Bin(op, a, b) => m.bin(op, Fetch(a, inputs, env), Fetch(b, inputs, env))
  }

  /** The variables after the lines have run in order, starting from `env`. */
  ghost function Run<V>(m: Meaning<V>, lines: seq<Line>, inputs: seq<V>, env: seq<V>): (out: seq<V>)
    requires Scoped(lines, |inputs|, |env|)
    ensures |out| == |env| + |lines| && env <= out
  {
    if lines == [] then env
    else
      var before := Run(m, lines[..|lines| - 1], inputs, env);
      before + [LineValue(m, lines[|lines| - 1], inputs, before)]
  }

  lemma RunOneMore<V>(m: Meaning<V>, lines: seq<Line>, l: Line, inputs: seq<V>, env: seq<V>)
    requires Scoped(lines, |inputs|, |env|) && LineOk(l, |inputs|, |env| + |lines|)
    ensures Scoped(lines + [l], |inputs|, |env|)
    ensures Run(m, lines + [l], inputs, env) ==
            Run(m, lines, inputs, env) + [LineValue(m, l, inputs, Run(m, lines, inputs, env))]
  {
    assert (lines + [l])[..|lines|] == lines;
  }

  lemma {:induction false} RunAppend<V>(m: Meaning<V>, ls: seq<Line>, rs: seq<Line>, inputs: seq<V>, env: seq<V>)
    requires Scoped(ls, |inputs|, |env|) && Scoped(rs, |inputs|, |env| + |ls|)
    ensures Scoped(ls + rs, |inputs|, |env|)
    ensures Run(m, ls + rs, inputs, env) == Run(m, rs, inputs, Run(m, ls, inputs, env))
    decreases |rs|
  {
    if rs == [] {
      assert ls + rs == ls;
    } else {
      var n := |rs| - 1;
      RunAppend(m, ls, rs[..n], inputs, env);
      RunOneMore(m, ls + rs[..n], rs[n], inputs, env);
      assert ls + rs == ls + rs[..n] + [rs[n]];
    }
  }

  ghost predicate SlotsBound(b: seq<nat>, inputs: nat) {
    forall k :: 0 <= k < |b| ==> b[k] < inputs
  }

  function Loaded<V>(inputs: seq<V>, b: seq<nat>): (vals: seq<V>)
    requires SlotsBound(b, |inputs|)
    ensures |vals| == |b|
  {
    seq(|b|, k requires 0 <= k < |b| => inputs[b[k]])
  }

  /** The code for `t` is well scoped after `env`, and its result is the tree's value on the elements that
      its slots load. */
  ghost predicate Computes<V>(m: Meaning<V>, t: LazyOp, b: seq<nat>, inputs: seq<V>, env: seq<V>)
    requires |b| == |Leaves(t)| && SlotsBound(b, |inputs|)
  {
    var (lines, r) := Emitted(t, b, |env|);
    && Scoped(lines, |inputs|, |env|)
    && Reads(r, |inputs|, |env| + |lines|)
    && Fetch(r, inputs, Run(m, lines, inputs, env)) == Eval(m, t, Loaded(inputs, b))
  }

  lemma EvalLoadedBinary<V>(m: Meaning<V>, t: LazyOp, b: seq<nat>, inputs: seq<V>)
    requires t.Binary? && |b| == |Leaves(t)| && SlotsBound(b, |inputs|)
    ensures var n := |Leaves(t.lhs)|;
            && n <= |b| && |b| - n == |Leaves(t.rhs)|
            && Eval(m, t, Loaded(inputs, b)) ==
               m.bin(t.op, Eval(m, t.lhs, Loaded(inputs, b[..n])), Eval(m, t.rhs, Loaded(inputs, b[n..])))
  {
    var n := |Leaves(t.lhs)|;
    assert Loaded(inputs, b)[..n] == Loaded(inputs, b[..n]);
    assert Loaded(inputs, b)[n..] == Loaded(inputs, b[n..]);
  }

  lemma BinaryComputes<V>(m: Meaning<V>, t: LazyOp, b: seq<nat>, inputs: seq<V>, env: seq<V>,
                          ls: seq<Line>, a: Operand, rs: seq<Line>, c: Operand, mid: seq<V>)
    requires t.Binary? && |b| == |Leaves(t)| && SlotsBound(b, |inputs|)
    requires var n := |Leaves(t.lhs)|;
             && |b| == n + |Leaves(t.rhs)|
             && (ls, a) == Emitted(t.lhs, b[..n], |env|)
             && (rs, c) == Emitted(t.rhs, b[n..], |env| + |ls|)
             && Computes(m, t.lhs, b[..n], inputs, env)
             && mid == Run(m, ls, inputs, env)
             && Computes(m, t.rhs, b[n..], inputs, mid)
    ensures Computes(m, t, b, inputs, env)
  {
    hide Run, Scoped, LineOk, Eval, Emitted, Leaves;
    EvalLoadedBinary(m, t, b, inputs);
    BinaryRuns(m, t.op, ls, a, rs, c, inputs, env);
    EmittedBinary(t, b, |env|, ls, a, rs, c);
  }

  lemma BinaryRuns<V>(m: Meaning<V>, op: KernelOp, ls: seq<Line>, a: Operand, rs: seq<Line>, c: Operand,
                      inputs: seq<V>, env: seq<V>)
    requires Scoped(ls, |inputs|, |env|) && Scoped(rs, |inputs|, |env| + |ls|)
    requires Reads(a, |inputs|, |env| + |ls|) && Reads(c, |inputs|, |env| + |ls| + |rs|)
    ensures var all := ls + rs + [Line(|env| + |ls| + |rs|, Bin(op, a, c))];
            var mid := Run(m, ls, inputs, env);
            && Scoped(all, |inputs|, |env|)
            && Run(m, all, inputs, env)[|env| + |ls| + |rs|] ==
               m.bin(op, Fetch(a, inputs, mid), Fetch(c, inputs, Run(m, rs, inputs, mid)))
  {
    var mid := Run(m, ls, inputs, env);
    RunAppend(m, ls, rs, inputs, env);
    RunOneMore(m, ls + rs, Line(|env| + |ls| + |rs|, Bin(op, a, c)), inputs, env);
    assert Fetch(a, inputs, Run(m, rs, inputs, mid)) == Fetch(a, inputs, mid);
  }

  lemma UnaryUnfolds<V>(m: Meaning<V>, t: LazyOp, b: seq<nat>, vals: seq<V>, base: nat)
    requires t.Unary? && |b| == |vals| == |Leaves(t)|
    ensures |Leaves(t.input)| == |b|
    ensures Eval(m, t, vals) == m.un(t.op, Eval(m, t.input, vals))
    ensures var (ls, a) := Emitted(t.input, b, base);
            Emitted(t, b, base) == (ls + [Line(base + |ls|, Un(t.op, a))], Var(base + |ls|))
  {
  }

  lemma UnaryComputes<V>(m: Meaning<V>, t: LazyOp, b: seq<nat>, inputs: seq<V>, env: seq<V>)
    requires t.Unary? && |b| == |Leaves(t)| == |Leaves(t.input)| && SlotsBound(b, |inputs|)
    requires Computes(m, t.input, b, inputs, env)
    ensures Computes(m, t, b, inputs, env)
  {
    hide Leaves, Run, Scoped, Emitted, Eval, SlotsBound;
    UnaryUnfolds(m, t, b, Loaded(inputs, b), |env|);
    var e := Emitted(t.input, b, |env|);
    RunOneMore(m, e.0, Line(|env| + |e.0|, Un(t.op, e.1)), inputs, env);
  }

  /** The straight-line code computes the tree. */
  lemma {:induction false} EmittedComputes<V>(
      m: Meaning<V>, t: LazyOp, b: seq<nat>, inputs: seq<V>, env: seq<V>)
    requires |b| == |Leaves(t)| && SlotsBound(b, |inputs|)
    ensures Computes(m, t, b, inputs, env)
    decreases t
  {
    match t
    case Input(_) =>
      assert Run(m, [], inputs, env) == env;
    case Unary(_, input) =>
      hide Computes;
      EmittedComputes(m, input, b, inputs, env);
      UnaryComputes(m, t, b, inputs, env);
    case Binary(_, lhs, rhs) =>
      var n := |Leaves(lhs)|;
      assert |b| == n + |Leaves(rhs)|;
      hide Leaves, Emitted, Eval, Run;
      EmittedComputes(m, lhs, b[..n], inputs, env);
      var (ls, a) := Emitted(lhs, b[..n], |env|);
      var mid := Run(m, ls, inputs, env);
      EmittedComputes(m, rhs, b[n..], inputs, mid);
      var (rs, c) := Emitted(rhs, b[n..], |env| + |ls|);
      BinaryComputes(m, t, b, inputs, env, ls, a, rs, c, mid);
  }

  /** Scoped code has every slot bound: no binding of the tree goes unread. */
  lemma {:induction false} ScopedBindsSlots(t: LazyOp, b: seq<nat>, base: nat, inputs: nat)
    requires |b| == |Leaves(t)|
    requires var (lines, r) := Emitted(t, b, base);
             Scoped(lines, inputs, base) && Reads(r, inputs, base + |lines|)
    ensures SlotsBound(b, inputs)
    decreases t
  {
    match t
    case Input(_) =>
    case Unary(op, input) =>
      var (lines, a) := Emitted(input, b, base);
      assert lines + [] == lines;
      ScopedParts(lines, [], Line(base + |lines|, Un(op, a)), inputs, base);
      ScopedBindsSlots(input, b, base, inputs);
    case Binary(op, lhs, rhs) =>
      var n := |Leaves(lhs)|;
      var (ls, a) := Emitted(lhs, b[..n], base);
      var (rs, c) := Emitted(rhs, b[n..], base + |ls|);
      ScopedParts(ls, rs, Line(base + |ls| + |rs|, Bin(op, a, c)), inputs, base);
      LeftOperandEarly(lhs, b[..n], base);
      ScopedBindsSlots(lhs, b[..n], base, inputs);
      ScopedBindsSlots(rhs, b[n..], base + |ls|, inputs);
      assert b == b[..n] + b[n..];
  }

  lemma ScopedParts(ls: seq<Line>, rs: seq<Line>, l: Line, inputs: nat, base: nat)
    requires Scoped(ls + rs + [l], inputs, base)
    ensures Scoped(ls, inputs, base) && Scoped(rs, inputs, base + |ls|) && LineOk(l, inputs, base + |ls| + |rs|)
  {
    var all := ls + rs + [l];
    forall i | 0 <= i < |ls| ensures LineOk(ls[i], inputs, base + i) {
      assert all[i] == ls[i];
    }
    forall i | 0 <= i < |rs| ensures LineOk(rs[i], inputs, base + |ls| + i) {
      assert all[|ls| + i] == rs[i];
    }
    assert all[|ls| + |rs|] == l;
  }

  lemma LeftOperandEarly(t: LazyOp, b: seq<nat>, base: nat)
    requires |b| == |Leaves(t)|
    ensures var (lines, r) := Emitted(t, b, base); r.Var? ==> r.id < base + |lines|
  {
  }

  lemma EmittedBinary(t: LazyOp, b: seq<nat>, base: nat, ls: seq<Line>, a: Operand, rs: seq<Line>, c: Operand)
    requires t.Binary? && |b| == |Leaves(t.lhs)| + |Leaves(t.rhs)|
    requires (ls, a) == Emitted(t.lhs, b[..|Leaves(t.lhs)|], base)
    requires (rs, c) == Emitted(t.rhs, b[|Leaves(t.lhs)|..], base + |ls|)
    ensures |b| == |Leaves(t)|
    ensures Emitted(t, b, base) ==
            (ls + rs + [Line(base + |ls| + |rs|, Bin(t.op, a, c))], Var(base + |ls| + |rs|))
  {
  }

  lemma EmittedUnary(t: LazyOp, b: seq<nat>, base: nat)
    requires t.Unary? && |b| == |Leaves(t.input)|
    ensures |b| == |Leaves(t)|
    ensures var (ls, a) := Emitted(t.input, b, base);
            Emitted(t, b, base) == (ls + [Line(base + |ls|, Un(t.op, a))], Var(base + |ls|))
  {
  }

  lemma LeavesSplit(t: LazyOp)
    ensures t.Unary? ==> |Leaves(t)| == |Leaves(t.input)|
    ensures t.Binary? ==> |Leaves(t)| == |Leaves(t.lhs)| + |Leaves(t.rhs)|
  {
  }

  lemma {:induction false} SameShapeEmitsSame(t: LazyOp, u: LazyOp, b: seq<nat>, base: nat)
    requires SameShape(t, u) && |b| == |Leaves(t)|
    ensures |Leaves(u)| == |b| && Emitted(t, b, base) == Emitted(u, b, base)
    decreases t
  {
    LeavesSplit(t);
    match t
    case Input(_) =>
    case Unary(_, input) =>
      hide Leaves, Emitted;
      SameShapeEmitsSame(input, u.input, b, base);
      EmittedUnary(t, b, base);
      EmittedUnary(u, b, base);
    case Binary(_, lhs, rhs) =>
      hide Leaves, Emitted;
      var n := |Leaves(lhs)|;
      SameShapeEmitsSame(lhs, u.lhs, b[..n], base);
      var (ls, a) := Emitted(lhs, b[..n], base);
      SameShapeEmitsSame(rhs, u.rhs, b[n..], base + |ls|);
      var (rs, c) := Emitted(rhs, b[n..], base + |ls|);
      EmittedBinary(t, b, base, ls, a, rs, c);
      EmittedBinary(u, b, base, ls, a, rs, c);
  }

  // ---------- one pass against operation by operation ----------

  /** Every buffer of the tree is in memory with exactly `numel` elements. */
  ghost predicate Resident<V>(t: LazyOp, memory: map<Ptr, seq<V>>, numel: nat) {
    forall p :: p in Leaves(t) ==> p in memory && |memory[p]| == numel
  }

  /** The meaning of laziness: each operation run on whole buffers, one after another. */
  ghost function OpByOp<V>(m: Meaning<V>, t: LazyOp, memory: map<Ptr, seq<V>>, numel: nat): (out: seq<V>)
    requires Resident(t, memory, numel)
    ensures |out| == numel
  {
    match t
    case Input(p) => assert p in Leaves(t); memory[p]
    case Unary(op, input) =>
      var a := OpByOp(m, input, memory, numel);
      seq(numel, i requires 0 <= i < numel => m.un(op, a[i]))
    case Binary(op, lhs, rhs) =>
      var a := OpByOp(m, lhs, memory, numel);
      var b := OpByOp(m, rhs, memory, numel);
      seq(numel, i requires 0 <= i < numel => m.bin(op, a[i], b[i]))
  }

  /** The i-th elements of the listed buffers. */
  function Column<V>(ptrs: seq<Ptr>, memory: map<Ptr, seq<V>>, i: nat): (col: seq<V>)
    requires forall p :: p in ptrs ==> p in memory && i < |memory[p]|
    ensures |col| == |ptrs|
  {
    seq(|ptrs|, k requires 0 <= k < |ptrs| => memory[ptrs[k]][i])
  }

  /** One thread of the dispatch: the kernel's lines on one element of every bound buffer. */
  ghost function Thread<V>(m: Meaning<V>, k: Kernel, inputs: seq<V>): V
    requires Scoped(k.lines, |inputs|, 0) && Reads(k.result, |inputs|, |k.lines|)
  {
    Fetch(k.result, inputs, Run(m, k.lines, inputs, []))
  }

  lemma {:induction false} OpByOpAt<V>(m: Meaning<V>, t: LazyOp, memory: map<Ptr, seq<V>>, numel: nat, i: nat)
    requires Resident(t, memory, numel) && i < numel
    ensures OpByOp(m, t, memory, numel)[i] == Eval(m, t, Column(Leaves(t), memory, i))
    decreases t
  {
    match t
    case Input(_) =>
    case Unary(_, input) =>
      OpByOpAt(m, input, memory, numel, i);
    case Binary(_, lhs, rhs) =>
      var n := |Leaves(lhs)|;
      assert Resident(lhs, memory, numel) && Resident(rhs, memory, numel) by {
        assert forall p :: p in Leaves(lhs) || p in Leaves(rhs) ==> p in Leaves(t);
      }
      OpByOpAt(m, lhs, memory, numel, i);
      OpByOpAt(m, rhs, memory, numel, i);
      assert Column(Leaves(t), memory, i)[..n] == Column(Leaves(lhs), memory, i);
      assert Column(Leaves(t), memory, i)[n..] == Column(Leaves(rhs), memory, i);
  }

  /** A kernel built from `t`, given the buffers of a tree of the same shape and the same sharing, computes
      that tree: one pass over its buffers gives what running its operations one by one gives. */
  lemma CachedKernelIsOpByOp<V>(
      m: Meaning<V>, t: LazyOp, u: LazyOp, memory: map<Ptr, seq<V>>, numel: nat, dtype: nat, i: nat)
    requires SameShape(t, u) && SameSharing(Leaves(t), Leaves(u))
    requires Resident(u, memory, numel) && i < numel
    ensures var k, inputs := KernelOf(t, dtype), Column(Distinct(Leaves(u)), memory, i);
            && |inputs| == k.numInputs
            && Scoped(k.lines, |inputs|, 0) && Reads(k.result, |inputs|, |k.lines|)
            && Thread(m, k, inputs) == OpByOp(m, u, memory, numel)[i]
  {
    hide Emitted, Run, Scoped, Eval, Distinct, Leaves, SameShape, SameSharing, OpByOp;
    var b := Bindings(Leaves(u));
    BindingsIffSharing(Leaves(t), Leaves(u));
    SameShapeEmitsSame(t, u, b, 0);
    var inputs := Column(Distinct(Leaves(u)), memory, i);
    EmittedComputes(m, u, b, inputs, []);
    OpByOpAt(m, u, memory, numel, i);
    assert Loaded(inputs, b) == Column(Leaves(u), memory, i);
  }

  // ---------- exactly when a kernel may be lent ----------

  /** The meaning that computes nothing: an element is the term that stands for it. */
  function Terms(): Meaning<LazyOp> {
    Meaning((op, x) => Unary(op, x), (op, x, y) => Binary(op, x, y))
  }

  function InputsOf(ptrs: seq<Ptr>): (vals: seq<LazyOp>)
    ensures |vals| == |ptrs|
  {
    seq(|ptrs|, k requires 0 <= k < |ptrs| => Input(ptrs[k]))
  }

  lemma {:induction false} TermsAreFree(t: LazyOp, vals: seq<LazyOp>, others: seq<LazyOp>)
    requires |vals| == |others| == |Leaves(t)|
    requires Eval(Terms(), t, vals) == Eval(Terms(), t, others)
    ensures vals == others
    decreases t
  {
    match t
    case Input(_) =>
      assert vals[0] == others[0];
    case Unary(_, input) =>
      TermsAreFree(input, vals, others);
    case Binary(_, lhs, rhs) =>
      var n := |Leaves(lhs)|;
      TermsAreFree(lhs, vals[..n], others[..n]);
      TermsAreFree(rhs, vals[n..], others[n..]);
      assert vals == vals[..n] + vals[n..] && others == others[..n] + others[n..];
  }

  lemma {:induction false} TreeIsItsTerm(t: LazyOp, u: LazyOp)
    requires SameShape(t, u)
    ensures |Leaves(t)| == |Leaves(u)| && Eval(Terms(), t, InputsOf(Leaves(u))) == u
    decreases t
  {
    match t
    case Input(_) =>
    case Unary(_, input) =>
      TreeIsItsTerm(input, u.input);
    case Binary(_, lhs, rhs) =>
      var n := |Leaves(lhs)|;
      TreeIsItsTerm(lhs, u.lhs);
      TreeIsItsTerm(rhs, u.rhs);
      assert InputsOf(Leaves(u))[..n] == InputsOf(Leaves(u.lhs));
      assert InputsOf(Leaves(u))[n..] == InputsOf(Leaves(u.rhs));
  }

  /** The kernel can be run on the buffers of `u`, and on symbolic elements it builds `u` itself. */
  ghost predicate Serves(k: Kernel, u: LazyOp) {
    var inputs := InputsOf(Distinct(Leaves(u)));
    && Scoped(k.lines, |inputs|, 0) && Reads(k.result, |inputs|, |k.lines|)
    && Thread(Terms(), k, inputs) == u
  }

  /** Exactly when the cache key is enough: among trees with one key, a kernel serves another tree if and
      only if the two trees' leaves alias alike. */
  lemma ServesIffSharing(t: LazyOp, u: LazyOp, dtype: nat)
    requires Stream(t) == Stream(u)
    ensures Serves(KernelOf(t, dtype), u) <==> SameSharing(Leaves(t), Leaves(u))
  {
    hide *;
    KeyIffShape(t, u);
    if Serves(KernelOf(t, dtype), u) {
      ServedSlots(t, u, dtype);
    }
    if SameSharing(Leaves(t), Leaves(u)) {
      SharedIsServed(t, u, dtype);
    }
  }

  lemma SharedIsServed(t: LazyOp, u: LazyOp, dtype: nat)
    requires SameShape(t, u) && SameSharing(Leaves(t), Leaves(u))
    ensures Serves(KernelOf(t, dtype), u)
  {
    hide SameShape, SameSharing, Distinct, Emitted, Run, Scoped, Eval;
    var b, bufs := Bindings(Leaves(t)), Distinct(Leaves(u));
    TreeIsItsTerm(t, u);
    BindingsIffSharing(Leaves(t), Leaves(u));
    var vals := InputsOf(bufs);
    EmittedComputes(Terms(), t, b, vals, []);
    assert Loaded(vals, b) == InputsOf(Leaves(u));
  }

  lemma ServedSlots(t: LazyOp, u: LazyOp, dtype: nat)
    requires SameShape(t, u) && Serves(KernelOf(t, dtype), u)
    ensures SameSharing(Leaves(t), Leaves(u))
  {
    hide SameShape, SameSharing, Distinct, Emitted, Run, Scoped, Eval;
    ScopedBindsSlots(t, Bindings(Leaves(t)), 0, |Distinct(Leaves(u))|);
    var s, r := Leaves(t), Leaves(u);
    var b, bufs := Bindings(s), Distinct(r);
    TreeIsItsTerm(t, u);
    EmittedComputes(Terms(), t, b, InputsOf(bufs), []);
    TermsAreFree(t, Loaded(InputsOf(bufs), b), InputsOf(r));
    forall k | 0 <= k < |r| ensures b[k] == Bindings(r)[k] {
      assert Loaded(InputsOf(bufs), b)[k] == InputsOf(r)[k];
      assert bufs[b[k]] == r[k];
    }
    assert b == Bindings(r);
    SlotsTellSharing(s, r);
  }

  function Sum(p: Ptr, q: Ptr): LazyOp {
    Binary(Add, Input(p), Input(q))
  }

  /** Sharing is not in the key: after `a + a`, the sum of two other buffers holding 1 and 2 comes from the
      cached kernel as 1 + 1. */
  lemma AliasedKernelMiscomputes(m: Meaning<int>)
    requires forall x, y :: m.bin(Add, x, y) == x + y
    ensures var k, memory := KernelOf(Sum(7, 7), 0), map[8 := [1], 9 := [2]];
            && Stream(Sum(7, 7)) == Stream(Sum(8, 9)) && !Serves(k, Sum(8, 9))
            && Resident(Sum(8, 9), memory, 1) && OpByOp(m, Sum(8, 9), memory, 1) == [3]
            && Scoped(k.lines, 2, 0) && Reads(k.result, 2, |k.lines|)
            && Thread(m, k, [1, 2]) == 2
  {
    hide *;
    AliasedKey();
    AliasedEager(m);
    AliasedThread(m);
  }

  lemma AliasedKey()
    ensures Stream(Sum(7, 7)) == Stream(Sum(8, 9)) && !Serves(KernelOf(Sum(7, 7), 0), Sum(8, 9))
  {
    hide Stream, Serves, KernelOf, Leaves;
    var t, u := Sum(7, 7), Sum(8, 9);
    KeyIffShape(t, u);
    ServesIffSharing(t, u, 0);
    SumLeaves(7, 7);
    SumLeaves(8, 9);
    assert [7, 7][0] == [7, 7][1] && [8, 9][0] != [8, 9][1];
  }

  lemma AliasedEager(m: Meaning<int>)
    requires forall x, y :: m.bin(Add, x, y) == x + y
    ensures var memory := map[8 := [1], 9 := [2]];
            Resident(Sum(8, 9), memory, 1) && OpByOp(m, Sum(8, 9), memory, 1) == [3]
  {
    var memory := map[8 := [1], 9 := [2]];
    SumLeaves(8, 9);
    assert OpByOp(m, Input(8), memory, 1) == [1] && OpByOp(m, Input(9), memory, 1) == [2];
  }

  lemma AliasedThread(m: Meaning<int>)
    requires forall x, y :: m.bin(Add, x, y) == x + y
    ensures var k := KernelOf(Sum(7, 7), 0);
            && Scoped(k.lines, 2, 0) && Reads(k.result, 2, |k.lines|)
            && Thread(m, k, [1, 2]) == 2
  {
    hide Bindings, Distinct, Emitted, Run, Scoped, Leaves;
    SumLeaves(7, 7);
    AliasedBindings(7);
    EmittedComputes(m, Sum(7, 7), [0, 0], [1, 2], []);
    assert Loaded([1, 2], [0, 0]) == [1, 1];
    SumEval(m, 7, 7, [1, 1]);
  }

  lemma SumEval(m: Meaning<int>, p: Ptr, q: Ptr, vals: seq<int>)
    requires |vals| == 2 == |Leaves(Sum(p, q))|
    ensures Eval(m, Sum(p, q), vals) == m.bin(Add, vals[0], vals[1])
  {
  }

  lemma SumLeaves(p: Ptr, q: Ptr)
    ensures Leaves(Sum(p, q)) == [p, q]
  {
  }

  lemma AliasedBindings(p: Ptr)
    ensures Bindings([p, p]) == [0, 0]
  {
    hide Distinct, Bindings;
    DistinctPair(p);
    assert Bindings([p, p])[0] < 1 && Bindings([p, p])[1] < 1;
  }

  lemma DistinctPair(p: Ptr)
    ensures Distinct([p, p]) == [p]
  {
    hide Distinct;
    DistinctSnoc([p], p);
    assert [p] + [p] == [p, p];
    DistinctOne(p);
  }

  lemma DistinctOne(p: Ptr)
    ensures Distinct([p]) == [p]
  {
  }

  // ---------- the cache ----------

  type Key = (seq<int>, nat)

  /** The first tree in a run with the given stream and element type. */
  function FirstLike(run: seq<(LazyOp, nat)>, key: Key): (first: Option<LazyOp>)
    ensures first.Some? ==> (first.value, key.1) in run && Stream(first.value) == key.0
    ensures first.None? ==> forall e :: e in run ==> (Stream(e.0), e.1) != key
  {
    if run == [] then None
    else
      var last := run[|run| - 1];
      assert run == run[..|run| - 1] + [last];
      var before := FirstLike(run[..|run| - 1], key);
      if before.Some? then before
      else if (Stream(last.0), last.1) == key then Some(last.0)
      else None
  }

  lemma FirstLikeSnoc(run: seq<(LazyOp, nat)>, e: (LazyOp, nat), key: Key)
    ensures FirstLike(run + [e], key) ==
            if FirstLike(run, key).Some? then FirstLike(run, key)
            else if (Stream(e.0), e.1) == key then Some(e.0)
            else None
  {
  }

  /** The cache of compiled kernels, never emptied. The key's stream stands for its 64-bit hash. */
  class FusedCache {
    var cache: map<Key, Kernel>
    /** Every tree that got a kernel so far, in order. */
    ghost var run: seq<(LazyOp, nat)>

    ghost predicate Valid()
      reads this
    {
      forall key :: (key in cache <==> FirstLike(run, key).Some?) &&
                    (key in cache ==> cache[key] == KernelOf(FirstLike(run, key).value, key.1))
    }

    constructor ()
      ensures Valid() && run == []
    {
      cache, run := map[], [];
    }

    /** The kernel that a tree is dispatched with, and the buffers bound to it. `compiles` says whether the
        back end would accept a new kernel. Whatever came before, the kernel is that of the first tree in the
        run with this tree's shape and element type; it is right for this tree exactly when the two alias
        alike. */
    method Materialize(t: LazyOp, dtype: nat, compiles: bool) returns (r: Option<(Kernel, seq<Ptr>)>)
      requires Valid() && Elementwise(t)
      modifies this
      ensures Valid()
      ensures r.None? <==> !compiles && forall e :: e in old(run) ==> e.1 != dtype || !SameShape(e.0, t)
      ensures run == if r.Some? then old(run) + [(t, dtype)] else old(run)
      ensures r.Some? ==>
                var first := FirstLike(run, (Stream(t), dtype));
                && first.Some? && SameShape(first.value, t)
                && r.value == (KernelOf(first.value, dtype), Distinct(Leaves(t))) && r.value.0.dtype == dtype
                && (Serves(r.value.0, t) <==> SameSharing(Leaves(first.value), Leaves(t)))
    {
      hide Elementwise, Stream, Serves, SameSharing, SameShape, KernelOf, Distinct, SlotMap, Leaves, FirstLike;
      var buffers, ptrToIdx := CollectInputs(t);
      var h := new StreamHasher();
      h.HashOp(t);
      var key := (h.fed, dtype);
      assert h.fed == Stream(t);
      Hit(t, dtype);
      var kernel;
      if key in cache {
        kernel := cache[key];
      } else {
        if !compiles {
          return None;
        }
        kernel := EmitFusedKernel(t, dtype, ptrToIdx, |buffers|);
        cache := cache[key := kernel];
      }
      Recorded(run, t, dtype);
      run := run + [(t, dtype)];
      var first := FirstLike(run, key).value;
      KeyIffShape(first, t);
      ServesIffSharing(first, t, dtype);
      KernelIsFor(first, dtype);
      return Some((kernel, buffers));
    }

    lemma Hit(t: LazyOp, dtype: nat)
      ensures FirstLike(run, (Stream(t), dtype)).Some? <==> exists e :: e in run && e.1 == dtype && SameShape(e.0, t)
    {
      forall e | e in run ensures Stream(e.0) == Stream(t) <==> SameShape(e.0, t) {
        KeyIffShape(e.0, t);
      }
    }
  }

  lemma Recorded(run: seq<(LazyOp, nat)>, t: LazyOp, dtype: nat)
    ensures forall key :: FirstLike(run + [(t, dtype)], key) ==
                          if FirstLike(run, key).Some? then FirstLike(run, key)
                          else if (Stream(t), dtype) == key then Some(t)
                          else None
  {
    forall key ensures FirstLike(run + [(t, dtype)], key) ==
                       if FirstLike(run, key).Some? then FirstLike(run, key)
                       else if (Stream(t), dtype) == key then Some(t)
                       else None {
      FirstLikeSnoc(run, (t, dtype), key);
    }
  }
}
