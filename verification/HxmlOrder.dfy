/** Build files: the order in which include expansion lists arguments. Every argument has an address, the line
    numbers that lead to it from the root file through the includes; the expansion is the walk of these
    addresses in their natural order, and a file is read at its first reference in that order. */
module HxmlOrder {
  import opened Digraph
  import opened HxmlArgs
  import opened Sequences

  type Address = seq<nat>

  /** A walk comes to `a` before `b`: at the first difference `a` has the smaller line, or it ends there. */
  predicate Before(a: Address, b: Address) {
    b != [] && (a == [] || a[0] < b[0] || (a[0] == b[0] && Before(a[1..], b[1..])))
  }

  datatype Placed = Placed(at: Address, arg: Arg)
  /** A file that is read, or found unreadable, at the reference with this address. */
  datatype Visit = Visit(at: Address, path: Path)
  datatype Trace = Trace(args: seq<Placed>, visits: seq<Visit>)

  /** The expansion of lines `n` on of the file included at `at`, with addresses. */
  function Walk(w: World, file: Path, lines: seq<string>, n: nat, seen: seq<Name>, at: Address): Trace
    requires n <= |lines|
    decreases |Unmet(w, seen)|, |lines| - n
  {
    if n == |lines| then Trace([], [])
    else
      match ItemOf(w, lines[n])
      case Nothing => Walk(w, file, lines, n + 1, seen, at)
      case Plain(flag, value) =>
        var rest := Walk(w, file, lines, n + 1, seen, at);
        Trace([Placed(at + [n], Arg(flag, value, file, n + 1))] + rest.args, rest.visits)
      case Include(path) =>
        var key := w.canon(path);
        if key in seen then Walk(w, file, lines, n + 1, seen, at)
        else if path in w.texts then
          MetShrinks(w, seen, path, seen + [key]);
          var inner := Walk(w, path, w.texts[path], 0, seen + [key], at + [n]);
          var mid := Expand(w, path, w.texts[path], 0, seen + [key]).1;
          MetShrinks(w, seen, path, mid);
          var rest := Walk(w, file, lines, n + 1, mid, at);
          Trace(inner.args + rest.args, [Visit(at + [n], path)] + inner.visits + rest.visits)
        else
          MetNoMore(w, seen, seen + [key]);
          var rest := Walk(w, file, lines, n + 1, seen + [key], at);
          Trace([Placed(at + [n], Missing(w, file, n, path))] + rest.args, [Visit(at + [n], path)] + rest.visits)
  }

  /** The own contribution of line `n`, and the files met after it. */
  function LineTrace(w: World, file: Path, line: string, n: nat, seen: seq<Name>, at: Address): (Trace, seq<Name>) {
    match ItemOf(w, line)
    case Nothing => (Trace([], []), seen)
    case Plain(flag, value) => (Trace([Placed(at + [n], Arg(flag, value, file, n + 1))], []), seen)
    case Include(path) =>
      var key := w.canon(path);
      if key in seen then (Trace([], []), seen)
      else if path in w.texts then
        var inner := Walk(w, path, w.texts[path], 0, seen + [key], at + [n]);
        (Trace(inner.args, [Visit(at + [n], path)] + inner.visits), Expand(w, path, w.texts[path], 0, seen + [key]).1)
      else
        (Trace([Placed(at + [n], Missing(w, file, n, path))], [Visit(at + [n], path)]), seen + [key])
  }

  lemma WalkLine(w: World, file: Path, lines: seq<string>, n: nat, seen: seq<Name>, at: Address)
    requires n < |lines|
    ensures var (own, mid) := LineTrace(w, file, lines[n], n, seen, at);
            && seen <= mid && |Unmet(w, mid)| <= |Unmet(w, seen)|
            && var rest := Walk(w, file, lines, n + 1, mid, at);
               Walk(w, file, lines, n, seen, at) == Trace(own.args + rest.args, own.visits + rest.visits)
  {
    hide ItemOf, Unmet, Expand;
    var item := ItemOf(w, lines[n]);
    var rest := Walk(w, file, lines, n + 1, seen, at);
    assert [] + rest.args == rest.args && [] + rest.visits == rest.visits;
    if item.Include? && w.canon(item.path) !in seen {
      var start := seen + [w.canon(item.path)];
      if item.path in w.texts {
        MetShrinks(w, seen, item.path, start);
        MetShrinks(w, seen, item.path, Expand(w, item.path, w.texts[item.path], 0, start).1);
      } else {
        MetNoMore(w, seen, start);
      }
    }
  }

  lemma WalkEnds(w: World, file: Path, lines: seq<string>, seen: seq<Name>, at: Address)
    ensures Walk(w, file, lines, |lines|, seen, at) == Trace([], [])
    ensures Expand(w, file, lines, |lines|, seen) == ([], seen)
  {
  }

  // ---------- the walk is the expansion ----------

  function ArgsOf(args: seq<Placed>): seq<Arg> {
    seq(|args|, i requires 0 <= i < |args| => args[i].arg)
  }

  function KeysOf(w: World, visits: seq<Visit>): seq<Name> {
    seq(|visits|, i requires 0 <= i < |visits| => w.canon(visits[i].path))
  }

  lemma ArgsJoin(a: seq<Placed>, b: seq<Placed>)
    ensures ArgsOf(a + b) == ArgsOf(a) + ArgsOf(b)
  {
  }

  lemma KeysJoin(w: World, a: seq<Visit>, b: seq<Visit>)
    ensures KeysOf(w, a + b) == KeysOf(w, a) + KeysOf(w, b)
  {
  }

  /** The walk lists the arguments of the expansion and meets the files that it meets, in the same order. */
  lemma {:induction false} WalkIsExpansion(
      w: World, file: Path, lines: seq<string>, n: nat, seen: seq<Name>, at: Address)
    requires n <= |lines|
    ensures var t, r := Walk(w, file, lines, n, seen, at), Expand(w, file, lines, n, seen);
            ArgsOf(t.args) == r.0 && seen + KeysOf(w, t.visits) == r.1
    decreases |Unmet(w, seen)|, |lines| - n
  {
    hide ItemOf, Unmet, Expand, Walk;
    if n < |lines| {
      hide LineTrace, ArgsOf, KeysOf;
      LineIsExpansion(w, file, lines, n, seen, at);
      WalkLine(w, file, lines, n, seen, at);
      var (own, mid) := LineTrace(w, file, lines[n], n, seen, at);
      WalkIsExpansion(w, file, lines, n + 1, mid, at);
      var rest := Walk(w, file, lines, n + 1, mid, at);
      ArgsJoin(own.args, rest.args);
      KeysJoin(w, own.visits, rest.visits);
      assert seen + KeysOf(w, own.visits) + KeysOf(w, rest.visits) ==
             seen + (KeysOf(w, own.visits) + KeysOf(w, rest.visits));
    } else {
      WalkEnds(w, file, lines, seen, at);
      assert seen + [] == seen;
    }
  }

  lemma LineIsExpansion(w: World, file: Path, lines: seq<string>, n: nat, seen: seq<Name>, at: Address)
    requires n < |lines|
    ensures var (own, mid) := LineTrace(w, file, lines[n], n, seen, at);
            && Expand(w, file, lines, n, seen).0 == ArgsOf(own.args) + Expand(w, file, lines, n + 1, mid).0
            && Expand(w, file, lines, n, seen).1 == Expand(w, file, lines, n + 1, mid).1
            && mid == seen + KeysOf(w, own.visits)
    decreases |Unmet(w, seen)|, |lines| - n, 0
  {
    hide ItemOf, Unmet, Expand, Walk;
    ExpandLine(w, file, lines, n, seen);
    var item := ItemOf(w, lines[n]);
    var (own, mid) := LineTrace(w, file, lines[n], n, seen, at);
    assert seen + [] == seen;
    if item.Include? && w.canon(item.path) !in seen {
      var key := w.canon(item.path);
      if item.path in w.texts {
        MetShrinks(w, seen, item.path, seen + [key]);
        WalkIsExpansion(w, item.path, w.texts[item.path], 0, seen + [key], at + [n]);
        var inner := Walk(w, item.path, w.texts[item.path], 0, seen + [key], at + [n]);
        KeysJoin(w, [Visit(at + [n], item.path)], inner.visits);
        assert seen + [key] + KeysOf(w, inner.visits) == seen + ([key] + KeysOf(w, inner.visits));
      }
    }
  }

  // ---------- addresses ----------

  /** `a` is inside the file at `at`, on line `n` or later. */
  predicate FromLine(a: Address, at: Address, n: nat) {
    |a| > |at| && a[..|at|] == at && a[|at|] >= n
  }

  /** `a` is inside the file at `at`, on a line before `n`. */
  predicate AheadOf(a: Address, at: Address, n: nat) {
    |a| > |at| && a[..|at|] == at && a[|at|] < n
  }

  ghost predicate AllFromLine(t: Trace, at: Address, n: nat) {
    && (forall i :: 0 <= i < |t.args| ==> FromLine(t.args[i].at, at, n))
    && forall i :: 0 <= i < |t.visits| ==> FromLine(t.visits[i].at, at, n)
  }

  lemma {:induction false} BeforeAt(a: Address, b: Address, k: nat)
    requires k < |b| && k <= |a| && a[..k] == b[..k] && (k < |a| ==> a[k] < b[k])
    ensures Before(a, b)
    decreases k
  {
    if k > 0 {
      assert a[0] == a[..k][0] == b[..k][0] == b[0];
      assert a[1..][..k - 1] == a[..k][1..] && b[1..][..k - 1] == b[..k][1..];
      BeforeAt(a[1..], b[1..], k - 1);
    }
  }

  lemma {:induction false} BeforeIsStrict(a: Address, b: Address)
    ensures !(Before(a, b) && Before(b, a)) && (a == b ==> !Before(a, b))
    ensures Before(a, b) || Before(b, a) || a == b
    decreases |a|
  {
    if a != [] && b != [] {
      BeforeIsStrict(a[1..], b[1..]);
      assert a == [a[0]] + a[1..] && b == [b[0]] + b[1..];
    }
  }

  /** What comes between two addresses below `p` is below `p`. */
  lemma {:induction false} BetweenBelow(p: Address, a: Address, b: Address, c: Address)
    requires p <= a && p <= c && Before(a, b) && Before(b, c)
    ensures p <= b
    decreases |p|
  {
    if p != [] {
      assert p[0] == a[0] == c[0] == b[0];
      assert p[1..] <= a[1..] && p[1..] <= c[1..];
      BetweenBelow(p[1..], a[1..], b[1..], c[1..]);
      assert p == [p[0]] + p[1..] && b == [b[0]] + b[1..];
    }
  }

  /** Arguments and visits both come in the order of their addresses. */
  ghost predicate InOrder(t: Trace) {
    && (forall i, j :: 0 <= i < j < |t.args| ==> Before(t.args[i].at, t.args[j].at))
    && forall i, j :: 0 <= i < j < |t.visits| ==> Before(t.visits[i].at, t.visits[j].at)
  }

  function Join(a: Trace, b: Trace): Trace {
    Trace(a.args + b.args, a.visits + b.visits)
  }

  /** The line's own contribution stays on the line. */
  ghost predicate OnLine(t: Trace, at: Address, n: nat) {
    && AllFromLine(t, at, n)
    && (forall i :: 0 <= i < |t.args| ==> t.args[i].at[|at|] == n)
    && forall i :: 0 <= i < |t.visits| ==> t.visits[i].at[|at|] == n
  }

  /** One line, then later ones. */
  lemma LinesInOrder(own: Trace, rest: Trace, at: Address, n: nat)
    requires OnLine(own, at, n) && AllFromLine(rest, at, n + 1) && InOrder(own) && InOrder(rest)
    ensures AllFromLine(Join(own, rest), at, n) && InOrder(Join(own, rest))
  {
    var t := Join(own, rest);
    forall i, j | 0 <= i < |own.args| <= j < |t.args| ensures Before(t.args[i].at, t.args[j].at) {
      assert t.args[j] == rest.args[j - |own.args|];
      BeforeAt(own.args[i].at, t.args[j].at, |at|);
    }
    forall i, j | 0 <= i < |own.visits| <= j < |t.visits| ensures Before(t.visits[i].at, t.visits[j].at) {
      assert t.visits[j] == rest.visits[j - |own.visits|];
      BeforeAt(own.visits[i].at, t.visits[j].at, |at|);
    }
  }

  lemma InnerOnLine(inner: Trace, at: Address, n: nat, path: Path)
    requires AllFromLine(inner, at + [n], 0) && InOrder(inner)
    ensures var t := Trace(inner.args, [Visit(at + [n], path)] + inner.visits);
            OnLine(t, at, n) && InOrder(t)
  {
    var here := at + [n];
    forall a: Address | FromLine(a, here, 0) ensures FromLine(a, at, n) && a[|at|] == n && Before(here, a) {
      assert a[..|at|] == a[..|here|][..|at|] == at;
      assert a[|at|] == a[..|here|][|at|] == n;
      BeforeAt(here, a, |here|);
    }
  }

  lemma {:induction false} WalkInOrder(
      w: World, file: Path, lines: seq<string>, n: nat, seen: seq<Name>, at: Address)
    requires n <= |lines|
    ensures var t := Walk(w, file, lines, n, seen, at); AllFromLine(t, at, n) && InOrder(t)
    decreases |Unmet(w, seen)|, |lines| - n
  {
    hide ItemOf, Unmet, Expand, Walk;
    if n == |lines| {
      WalkEnds(w, file, lines, seen, at);
    } else {
      hide LineTrace, AllFromLine, InOrder, OnLine;
      LineInOrder(w, file, lines, n, seen, at);
      WalkLine(w, file, lines, n, seen, at);
      var (own, mid) := LineTrace(w, file, lines[n], n, seen, at);
      WalkInOrder(w, file, lines, n + 1, mid, at);
      LinesInOrder(own, Walk(w, file, lines, n + 1, mid, at), at, n);
    }
  }

  lemma LineInOrder(w: World, file: Path, lines: seq<string>, n: nat, seen: seq<Name>, at: Address)
    requires n < |lines|
    ensures var own := LineTrace(w, file, lines[n], n, seen, at).0; OnLine(own, at, n) && InOrder(own)
    decreases |Unmet(w, seen)|, |lines| - n, 0
  {
    hide ItemOf, Unmet, Expand, Walk;
    var item := ItemOf(w, lines[n]);
    if item.Include? && w.canon(item.path) !in seen && item.path in w.texts {
      var start := seen + [w.canon(item.path)];
      MetShrinks(w, seen, item.path, start);
      WalkInOrder(w, item.path, w.texts[item.path], 0, start, at + [n]);
      InnerOnLine(Walk(w, item.path, w.texts[item.path], 0, start, at + [n]), at, n, item.path);
    }
  }

  // ---------- where an address leads ----------

  /** Following the line numbers from `lines` through readable includes ends at the line that says `a`. */
  predicate Leads(w: World, file: Path, lines: seq<string>, rel: Address, a: Arg)
    decreases |rel|
  {
    && rel != [] && rel[0] < |lines|
    && var item := ItemOf(w, lines[rel[0]]);
       if |rel| == 1 then
         a.file == file && a.line == rel[0] + 1 && SaysLine(w, a, item)
       else
         item.Include? && item.path in w.texts && Leads(w, item.path, w.texts[item.path], rel[1..], a)
  }

  predicate SaysLine(w: World, a: Arg, item: Item) {
    || (item.Plain? && a.flag == item.flag && a.value == item.value)
    || (item.Include? && item.path !in w.texts && a.line > 0 && a == Missing(w, a.file, a.line - 1, item.path))
  }

  ghost predicate AllLead(w: World, file: Path, lines: seq<string>, at: Address, args: seq<Placed>) {
    forall i :: 0 <= i < |args| ==> LeadsFrom(w, file, lines, at, args[i])
  }

  predicate LeadsFrom(w: World, file: Path, lines: seq<string>, at: Address, p: Placed) {
    at <= p.at && Leads(w, file, lines, p.at[|at|..], p.arg)
  }

  lemma {:induction false} WalkLeads(
      w: World, file: Path, lines: seq<string>, n: nat, seen: seq<Name>, at: Address)
    requires n <= |lines|
    ensures AllLead(w, file, lines, at, Walk(w, file, lines, n, seen, at).args)
    decreases |Unmet(w, seen)|, |lines| - n
  {
    hide ItemOf, Unmet, Expand, Walk, LeadsFrom;
    if n == |lines| {
      WalkEnds(w, file, lines, seen, at);
    } else {
      hide LineTrace;
      LineLeads(w, file, lines, n, seen, at);
      WalkLine(w, file, lines, n, seen, at);
      var mid := LineTrace(w, file, lines[n], n, seen, at).1;
      WalkLeads(w, file, lines, n + 1, mid, at);
    }
  }

  lemma LineLeads(w: World, file: Path, lines: seq<string>, n: nat, seen: seq<Name>, at: Address)
    requires n < |lines|
    ensures AllLead(w, file, lines, at, LineTrace(w, file, lines[n], n, seen, at).0.args)
    decreases |Unmet(w, seen)|, |lines| - n, 0
  {
    hide ItemOf, Unmet, Expand, Walk;
    var item := ItemOf(w, lines[n]);
    assert (at + [n])[|at|..] == [n];
    if item.Include? && w.canon(item.path) !in seen && item.path in w.texts {
      var start := seen + [w.canon(item.path)];
      MetShrinks(w, seen, item.path, start);
      WalkLeads(w, item.path, w.texts[item.path], 0, start, at + [n]);
      var inner := Walk(w, item.path, w.texts[item.path], 0, start, at + [n]).args;
      forall i | 0 <= i < |inner| ensures LeadsFrom(w, file, lines, at, inner[i]) {
        LeadsOneUp(w, file, lines, at, n, inner[i]);
      }
    }
  }

  lemma LeadsOneUp(w: World, file: Path, lines: seq<string>, at: Address, n: nat, p: Placed)
    requires n < |lines| && ItemOf(w, lines[n]).Include? && ItemOf(w, lines[n]).path in w.texts
    requires var path := ItemOf(w, lines[n]).path; LeadsFrom(w, path, w.texts[path], at + [n], p)
    ensures LeadsFrom(w, file, lines, at, p)
  {
    hide ItemOf;
    var here := at + [n];
    assert p.at[..|here|] == here;
    assert p.at[|at|..][1..] == p.at[|here|..];
    assert p.at[|at|] == here[|at|] == n;
    assert at == p.at[..|at|];
  }

  // ---------- the first reference wins ----------

  /** The file was met before the walk, or the walk visits it no later than address `a`. */
  ghost predicate MetBy(w: World, visits: seq<Visit>, seen: seq<Name>, a: Address, key: Name) {
    key in seen || VisitedBy(w, visits, a, key)
  }

  ghost predicate VisitedBy(w: World, visits: seq<Visit>, a: Address, key: Name) {
    exists i :: 0 <= i < |visits| && VisitsBy(w, visits[i], a, key)
  }

  predicate VisitsBy(w: World, v: Visit, a: Address, key: Name) {
    w.canon(v.path) == key && (v.at == a || Before(v.at, a))
  }

  /** Every reference on lines `n` on is to a file met by then. */
  ghost predicate RefsMet(w: World, visits: seq<Visit>, seen: seq<Name>, at: Address, lines: seq<string>, n: nat) {
    forall i :: n <= i < |lines| ==> RefMet(w, visits, seen, at, lines, i)
  }

  ghost predicate RefMet(w: World, visits: seq<Visit>, seen: seq<Name>, at: Address, lines: seq<string>, i: nat)
    requires i < |lines|
  {
    var item := ItemOf(w, lines[i]);
    item.Include? ==> MetBy(w, visits, seen, at + [i], w.canon(item.path))
  }

  /** The same holds of every file visited. */
  ghost predicate AllRefsMet(w: World, visits: seq<Visit>, among: seq<Visit>, seen: seq<Name>) {
    forall i :: 0 <= i < |visits| && visits[i].path in w.texts ==>
      RefsMet(w, among, seen, visits[i].at, w.texts[visits[i].path], 0)
  }

  /** What was met stays met in a longer walk, also if some of what was seen is now visited earlier. */
  lemma MetByMore(w: World, visits: seq<Visit>, seen: seq<Name>, a: Address, key: Name,
                  before: seq<Visit>, after: seq<Visit>, seen': seq<Name>)
    requires MetBy(w, visits, seen, a, key)
    requires forall k :: k in seen ==> k in seen' || VisitedBy(w, before, a, k)
    ensures MetBy(w, before + visits + after, seen', a, key)
  {
    var all := before + visits + after;
    if key in seen {
      if key !in seen' {
        var i :| 0 <= i < |before| && VisitsBy(w, before[i], a, key);
        assert all[i] == before[i];
      }
    } else {
      var i :| 0 <= i < |visits| && VisitsBy(w, visits[i], a, key);
      assert all[|before| + i] == visits[i];
    }
  }

  /** Everything in `seen` was in `seen'` or is visited by `before`, before every address from line `n` on. */
  ghost predicate Accounted(w: World, seen: seq<Name>, seen': seq<Name>, before: seq<Visit>, at: Address, n: nat) {
    forall k, a :: k in seen && FromLine(a, at, n) ==>
      k in seen' || VisitedBy(w, before, a, k)
  }

  lemma RefsMetMore(w: World, visits: seq<Visit>, seen: seq<Name>, here: Address, lines: seq<string>, m: nat,
                    before: seq<Visit>, after: seq<Visit>, seen': seq<Name>, at: Address, n: nat)
    requires RefsMet(w, visits, seen, here, lines, m) && Accounted(w, seen, seen', before, at, n)
    requires forall i: nat :: m <= i ==> FromLine(here + [i], at, n)
    ensures RefsMet(w, before + visits + after, seen', here, lines, m)
  {
    forall i | m <= i < |lines| ensures RefMet(w, before + visits + after, seen', here, lines, i) {
      assert RefMet(w, visits, seen, here, lines, i);
      var item := ItemOf(w, lines[i]);
      if item.Include? {
        assert FromLine(here + [i], at, n);
        MetByMore(w, visits, seen, here + [i], w.canon(item.path), before, after, seen');
      }
    }
  }

  lemma AllRefsMetMore(w: World, visits: seq<Visit>, seen: seq<Name>,
                       before: seq<Visit>, after: seq<Visit>, seen': seq<Name>, at: Address, n: nat)
    requires AllRefsMet(w, visits, visits, seen) && Accounted(w, seen, seen', before, at, n)
    requires forall i :: 0 <= i < |visits| ==> FromLine(visits[i].at, at, n)
    ensures AllRefsMet(w, visits, before + visits + after, seen')
  {
    forall i | 0 <= i < |visits| && visits[i].path in w.texts
      ensures RefsMet(w, before + visits + after, seen', visits[i].at, w.texts[visits[i].path], 0)
    {
      var here := visits[i].at;
      forall k: nat ensures FromLine(here + [k], at, n) {
        assert (here + [k])[..|at|] == here[..|at|];
      }
      RefsMetMore(w, visits, seen, here, w.texts[visits[i].path], 0, before, after, seen', at, n);
    }
  }

  lemma AllRefsMetJoin(w: World, a: seq<Visit>, b: seq<Visit>, among: seq<Visit>, seen: seq<Name>)
    requires AllRefsMet(w, a, among, seen) && AllRefsMet(w, b, among, seen)
    ensures AllRefsMet(w, a + b, among, seen)
  {
  }

  lemma FromLineSelf(at: Address, n: nat)
    ensures forall i: nat :: n <= i ==> FromLine(at + [i], at, n)
  {
  }

  /** A file that line `n` met comes before everything on later lines. */
  lemma LineAccounts(w: World, own: Trace, seen: seq<Name>, mid: seq<Name>, at: Address, n: nat)
    requires OnLine(own, at, n) && mid == seen + KeysOf(w, own.visits)
    ensures Accounted(w, mid, seen, own.visits, at, n + 1)
  {
    forall k, a | k in mid && FromLine(a, at, n + 1) && k !in seen ensures VisitedBy(w, own.visits, a, k) {
      var i :| 0 <= i < |own.visits| && KeysOf(w, own.visits)[i] == k;
      BeforeAt(own.visits[i].at, a, |at|);
      assert VisitsBy(w, own.visits[i], a, k);
    }
  }

  lemma IncludeAccounts(w: World, path: Path, seen: seq<Name>, here: Address)
    ensures Accounted(w, seen + [w.canon(path)], seen, [Visit(here, path)], here, 0)
  {
    var first := [Visit(here, path)];
    forall k, a | k in seen + [w.canon(path)] && FromLine(a, here, 0) && k !in seen ensures VisitedBy(w, first, a, k) {
      BeforeAt(here, a, |here|);
      assert VisitsBy(w, first[0], a, k);
    }
  }

  /** What the included file's own walk met, seen from the whole. */
  lemma InnerMet(w: World, path: Path, inner: Trace, seen: seq<Name>, here: Address, after: seq<Visit>)
    requires path in w.texts && AllFromLine(inner, here, 0)
    requires RefsMet(w, inner.visits, seen + [w.canon(path)], here, w.texts[path], 0)
    requires AllRefsMet(w, inner.visits, inner.visits, seen + [w.canon(path)])
    ensures var own := [Visit(here, path)] + inner.visits; AllRefsMet(w, own, own + after, seen)
  {
    var first := [Visit(here, path)];
    IncludeAccounts(w, path, seen, here);
    FromLineSelf(here, 0);
    RefsMetMore(w, inner.visits, seen + [w.canon(path)], here, w.texts[path], 0, first, after, seen, here, 0);
    AllRefsMetMore(w, inner.visits, seen + [w.canon(path)], first, after, seen, here, 0);
    AllRefsMetJoin(w, first, inner.visits, first + inner.visits + after, seen);
  }

  lemma {:induction false} WalkMeets(
      w: World, file: Path, lines: seq<string>, n: nat, seen: seq<Name>, at: Address)
    requires n <= |lines|
    ensures var visits := Walk(w, file, lines, n, seen, at).visits;
            RefsMet(w, visits, seen, at, lines, n) && AllRefsMet(w, visits, visits, seen)
    decreases |Unmet(w, seen)|, |lines| - n
  {
    hide ItemOf, Unmet, Expand, Walk;
    if n == |lines| {
      WalkEnds(w, file, lines, seen, at);
    } else {
      hide *;
      var (own, mid) := LineTrace(w, file, lines[n], n, seen, at);
      WalkLine(w, file, lines, n, seen, at);
      LineIsExpansion(w, file, lines, n, seen, at);
      LineInOrder(w, file, lines, n, seen, at);
      var rest := Walk(w, file, lines, n + 1, mid, at);
      WalkMeets(w, file, lines, n + 1, mid, at);
      WalkInOrder(w, file, lines, n + 1, mid, at);
      LineMeets(w, file, lines, n, seen, at, rest.visits);
      LineAccounts(w, own, seen, mid, at, n);
      RestMet(w, own, rest, seen, mid, at, lines, n);
      AllRefsMetJoin(w, own.visits, rest.visits, own.visits + rest.visits, seen);
      OneMoreRef(w, own.visits + rest.visits, seen, at, lines, n);
    }
  }

  lemma RestMet(w: World, own: Trace, rest: Trace, seen: seq<Name>, mid: seq<Name>, at: Address,
                lines: seq<string>, n: nat)
    requires Accounted(w, mid, seen, own.visits, at, n + 1) && AllFromLine(rest, at, n + 1)
    requires RefsMet(w, rest.visits, mid, at, lines, n + 1) && AllRefsMet(w, rest.visits, rest.visits, mid)
    ensures RefsMet(w, own.visits + rest.visits, seen, at, lines, n + 1)
    ensures AllRefsMet(w, rest.visits, own.visits + rest.visits, seen)
  {
    hide RefsMet, AllRefsMet, Accounted;
    FromLineSelf(at, n + 1);
    RefsMetMore(w, rest.visits, mid, at, lines, n + 1, own.visits, [], seen, at, n + 1);
    AllRefsMetMore(w, rest.visits, mid, own.visits, [], seen, at, n + 1);
    assert own.visits + rest.visits + [] == own.visits + rest.visits;
  }

  lemma OneMoreRef(w: World, visits: seq<Visit>, seen: seq<Name>, at: Address, lines: seq<string>, n: nat)
    requires n < |lines| && RefMet(w, visits, seen, at, lines, n) && RefsMet(w, visits, seen, at, lines, n + 1)
    ensures RefsMet(w, visits, seen, at, lines, n)
  {
    hide RefMet;
  }

  lemma LineMeets(w: World, file: Path, lines: seq<string>, n: nat, seen: seq<Name>, at: Address, after: seq<Visit>)
    requires n < |lines|
    ensures var own := LineTrace(w, file, lines[n], n, seen, at).0.visits;
            RefMet(w, own + after, seen, at, lines, n) && AllRefsMet(w, own, own + after, seen)
    decreases |Unmet(w, seen)|, |lines| - n, 0
  {
    hide ItemOf, Unmet, Expand, Walk, RefsMet;
    var item := ItemOf(w, lines[n]);
    var own := LineTrace(w, file, lines[n], n, seen, at).0.visits;
    if item.Include? && w.canon(item.path) !in seen {
      var start := seen + [w.canon(item.path)];
      assert VisitsBy(w, (own + after)[0], at + [n], w.canon(item.path));
      if item.path in w.texts {
        MetShrinks(w, seen, item.path, start);
        WalkMeets(w, item.path, w.texts[item.path], 0, start, at + [n]);
        WalkInOrder(w, item.path, w.texts[item.path], 0, start, at + [n]);
        InnerMet(w, item.path, Walk(w, item.path, w.texts[item.path], 0, start, at + [n]), seen, at + [n], after);
      }
    }
  }

  // ---------- following an address ----------

  /** What the line at an address says, following the line numbers through readable includes. */
  function ItemAt(w: World, lines: seq<string>, rel: Address): Item
    decreases |rel|
  {
    if rel == [] || rel[0] >= |lines| then Nothing
    else
      var item := ItemOf(w, lines[rel[0]]);
      if |rel| == 1 then item
      else if item.Include? && item.path in w.texts then ItemAt(w, w.texts[item.path], rel[1..])
      else Nothing
  }

  /** An address one longer is a line of the file that the shorter one includes. */
  lemma {:induction false} ItemAtParent(w: World, lines: seq<string>, rel: Address)
    requires |rel| > 1 && ItemAt(w, lines, rel) != Nothing
    ensures var up, n := ItemAt(w, lines, rel[..|rel| - 1]), rel[|rel| - 1];
            && up.Include? && up.path in w.texts && n < |w.texts[up.path]|
            && ItemAt(w, lines, rel) == ItemOf(w, w.texts[up.path][n])
    decreases |rel|
  {
    hide ItemOf;
    if |rel| > 2 {
      var item := ItemOf(w, lines[rel[0]]);
      ItemAtParent(w, w.texts[item.path], rel[1..]);
      assert rel[1..][..|rel| - 2] == rel[..|rel| - 1][1..];
    }
  }

  lemma {:induction false} LeadsToItem(w: World, file: Path, lines: seq<string>, rel: Address, a: Arg)
    requires Leads(w, file, lines, rel, a)
    ensures SaysLine(w, a, ItemAt(w, lines, rel))
    decreases |rel|
  {
    hide ItemOf;
    if |rel| > 1 {
      var item := ItemOf(w, lines[rel[0]]);
      LeadsToItem(w, item.path, w.texts[item.path], rel[1..], a);
    }
  }

  /** An address leads to one argument only. */
  lemma {:induction false} LeadsToOne(w: World, file: Path, lines: seq<string>, rel: Address, a: Arg, b: Arg)
    requires Leads(w, file, lines, rel, a) && Leads(w, file, lines, rel, b)
    ensures a == b
    decreases |rel|
  {
    hide ItemOf;
    if |rel| > 1 {
      var item := ItemOf(w, lines[rel[0]]);
      LeadsToOne(w, item.path, w.texts[item.path], rel[1..], a, b);
    }
  }

  ghost predicate VisitedAt(visits: seq<Visit>, a: Address) {
    exists i :: 0 <= i < |visits| && visits[i].at == a
  }

  ghost predicate ListedAt(args: seq<Placed>, a: Address) {
    exists i :: 0 <= i < |args| && args[i].at == a
  }

  /** Every file on the way to `a`, below the first `n` references, is visited at the reference that leads there. */
  ghost predicate ReachedFrom(visits: seq<Visit>, a: Address, n: nat) {
    forall k :: n < k < |a| ==> VisitedAt(visits, a[..k])
  }

  // ---------- nothing is listed that visits do not lead to ----------

  ghost predicate VisitRooted(w: World, lines: seq<string>, at: Address, visits: seq<Visit>, v: Visit) {
    at <= v.at && ItemAt(w, lines, v.at[|at|..]) == Include(v.path) && ReachedFrom(visits, v.at, |at|)
  }

  ghost predicate ArgRooted(w: World, lines: seq<string>, at: Address, visits: seq<Visit>, p: Placed) {
    && at <= p.at && ReachedFrom(visits, p.at, |at|)
    && (ItemAt(w, lines, p.at[|at|..]).Include? ==> VisitedAt(visits, p.at))
  }

  ghost predicate Rooted(w: World, lines: seq<string>, at: Address, t: Trace, visits: seq<Visit>) {
    && (forall i :: 0 <= i < |t.visits| ==> VisitRooted(w, lines, at, visits, t.visits[i]))
    && forall i :: 0 <= i < |t.args| ==> ArgRooted(w, lines, at, visits, t.args[i])
  }

  lemma VisitedMore(visits: seq<Visit>, before: seq<Visit>, after: seq<Visit>, a: Address)
    requires VisitedAt(visits, a)
    ensures VisitedAt(before + visits + after, a)
  {
    var i :| 0 <= i < |visits| && visits[i].at == a;
    assert (before + visits + after)[|before| + i] == visits[i];
  }

  lemma RootedMore(w: World, lines: seq<string>, at: Address, t: Trace, visits: seq<Visit>,
                   before: seq<Visit>, after: seq<Visit>)
    requires Rooted(w, lines, at, t, visits)
    ensures Rooted(w, lines, at, t, before + visits + after)
  {
    hide ItemAt, VisitedAt;
    forall a | VisitedAt(visits, a) ensures VisitedAt(before + visits + after, a) {
      VisitedMore(visits, before, after, a);
    }
  }

  lemma RootedJoin(w: World, lines: seq<string>, at: Address, own: Trace, rest: Trace)
    requires Rooted(w, lines, at, own, own.visits) && Rooted(w, lines, at, rest, rest.visits)
    ensures Rooted(w, lines, at, Join(own, rest), Join(own, rest).visits)
  {
    hide VisitRooted, ArgRooted;
    RootedMore(w, lines, at, own, own.visits, [], rest.visits);
    RootedMore(w, lines, at, rest, rest.visits, own.visits, []);
    var all := Join(own, rest);
    assert [] + own.visits + rest.visits == own.visits + rest.visits + [] == all.visits;
    forall i | 0 <= i < |all.visits| ensures VisitRooted(w, lines, at, all.visits, all.visits[i]) {
      if i >= |own.visits| {
        assert all.visits[i] == rest.visits[i - |own.visits|];
      }
    }
    forall i | 0 <= i < |all.args| ensures ArgRooted(w, lines, at, all.visits, all.args[i]) {
      if i >= |own.args| {
        assert all.args[i] == rest.args[i - |own.args|];
      }
    }
  }

  /** Below the reference on line `n`, addresses and what they say are those of the included file. */
  lemma OneUp(w: World, lines: seq<string>, at: Address, n: nat, a: Address, visits: seq<Visit>)
    requires n < |lines| && ItemOf(w, lines[n]).Include? && ItemOf(w, lines[n]).path in w.texts
    requires FromLine(a, at + [n], 0) && VisitedAt(visits, at + [n]) && ReachedFrom(visits, a, |at| + 1)
    ensures var path := ItemOf(w, lines[n]).path;
            && at <= a && ItemAt(w, lines, a[|at|..]) == ItemAt(w, w.texts[path], a[|at| + 1..])
    ensures ReachedFrom(visits, a, |at|)
  {
    hide ItemOf, VisitedAt;
    var here := at + [n];
    assert a[..|here|] == here;
    assert at == a[..|here|][..|at|] == a[..|at|];
    assert a[|at|] == a[..|here|][|at|] == n;
    assert a[|at|..][1..] == a[|at| + 1..];
    forall k | |at| < k < |a| ensures VisitedAt(visits, a[..k]) {
    }
  }

  lemma RootedOneUp(w: World, lines: seq<string>, at: Address, n: nat, inner: Trace)
    requires n < |lines| && ItemOf(w, lines[n]).Include? && ItemOf(w, lines[n]).path in w.texts
    requires var path := ItemOf(w, lines[n]).path; Rooted(w, w.texts[path], at + [n], inner, inner.visits)
    requires AllFromLine(inner, at + [n], 0)
    ensures var own := Trace(inner.args, [Visit(at + [n], ItemOf(w, lines[n]).path)] + inner.visits);
            Rooted(w, lines, at, own, own.visits)
  {
    var path, here := ItemOf(w, lines[n]).path, at + [n];
    var own := Trace(inner.args, [Visit(here, path)] + inner.visits);
    assert VisitedAt(own.visits, here) by {
      assert own.visits[0].at == here;
    }
    hide ItemOf, VisitedAt, FromLine;
    assert own.visits == [Visit(here, path)] + inner.visits + [];
    RootedMore(w, w.texts[path], here, inner, inner.visits, [Visit(here, path)], []);
    forall i | 0 <= i < |own.visits| ensures VisitRooted(w, lines, at, own.visits, own.visits[i]) {
      if i == 0 {
        assert here[|at|..] == [n];
      } else {
        assert own.visits[i] == inner.visits[i - 1];
        OneUp(w, lines, at, n, own.visits[i].at, own.visits);
      }
    }
    forall i | 0 <= i < |own.args| ensures ArgRooted(w, lines, at, own.visits, own.args[i]) {
      OneUp(w, lines, at, n, own.args[i].at, own.visits);
    }
  }

  lemma {:induction false} WalkRooted(
      w: World, file: Path, lines: seq<string>, n: nat, seen: seq<Name>, at: Address)
    requires n <= |lines|
    ensures var t := Walk(w, file, lines, n, seen, at); Rooted(w, lines, at, t, t.visits)
    decreases |Unmet(w, seen)|, |lines| - n
  {
    hide ItemOf, Unmet, Expand, Walk;
    if n == |lines| {
      WalkEnds(w, file, lines, seen, at);
    } else {
      hide LineTrace, Rooted;
      LineRooted(w, file, lines, n, seen, at);
      WalkLine(w, file, lines, n, seen, at);
      var (own, mid) := LineTrace(w, file, lines[n], n, seen, at);
      WalkRooted(w, file, lines, n + 1, mid, at);
      RootedJoin(w, lines, at, own, Walk(w, file, lines, n + 1, mid, at));
    }
  }

  lemma LineRooted(w: World, file: Path, lines: seq<string>, n: nat, seen: seq<Name>, at: Address)
    requires n < |lines|
    ensures var own := LineTrace(w, file, lines[n], n, seen, at).0; Rooted(w, lines, at, own, own.visits)
    decreases |Unmet(w, seen)|, |lines| - n, 0
  {
    hide ItemOf, Unmet, Expand, Walk;
    var item := ItemOf(w, lines[n]);
    var own := LineTrace(w, file, lines[n], n, seen, at).0;
    if item.Include? && w.canon(item.path) !in seen && item.path in w.texts {
      hide Rooted;
      var start := seen + [w.canon(item.path)];
      MetShrinks(w, seen, item.path, start);
      WalkRooted(w, item.path, w.texts[item.path], 0, start, at + [n]);
      WalkInOrder(w, item.path, w.texts[item.path], 0, start, at + [n]);
      RootedOneUp(w, lines, at, n, Walk(w, item.path, w.texts[item.path], 0, start, at + [n]));
    } else {
      assert (at + [n])[|at|..] == [n];
      assert own.visits != [] ==> own.visits[0].at == at + [n];
    }
  }

  // ---------- everything that visits lead to is listed ----------

  ghost predicate SaidFrom(w: World, args: seq<Placed>, at: Address, lines: seq<string>, n: nat) {
    forall i :: n <= i < |lines| && ItemOf(w, lines[i]).Plain? ==> ListedAt(args, at + [i])
  }

  /** All of a readable file that is visited is listed, and of an unreadable one that it is. */
  ghost predicate VisitSaid(w: World, args: seq<Placed>, v: Visit) {
    if v.path in w.texts then SaidFrom(w, args, v.at, w.texts[v.path], 0) else ListedAt(args, v.at)
  }

  ghost predicate AllSaid(w: World, visits: seq<Visit>, args: seq<Placed>) {
    forall i :: 0 <= i < |visits| ==> VisitSaid(w, args, visits[i])
  }

  lemma ListedMore(args: seq<Placed>, before: seq<Placed>, after: seq<Placed>, a: Address)
    requires ListedAt(args, a)
    ensures ListedAt(before + args + after, a)
  {
    var i :| 0 <= i < |args| && args[i].at == a;
    assert (before + args + after)[|before| + i] == args[i];
  }

  lemma SaidMore(w: World, visits: seq<Visit>, args: seq<Placed>, before: seq<Placed>, after: seq<Placed>)
    requires AllSaid(w, visits, args)
    ensures AllSaid(w, visits, before + args + after)
    ensures forall at, lines, n :: SaidFrom(w, args, at, lines, n) ==> SaidFrom(w, before + args + after, at, lines, n)
  {
    hide ItemOf, ListedAt;
    forall a | ListedAt(args, a) ensures ListedAt(before + args + after, a) {
      ListedMore(args, before, after, a);
    }
  }

  lemma SaidJoin(w: World, own: Trace, rest: Trace, at: Address, lines: seq<string>, n: nat)
    requires n < |lines| && (ItemOf(w, lines[n]).Plain? ==> ListedAt(own.args, at + [n]))
    requires AllSaid(w, own.visits, own.args) && AllSaid(w, rest.visits, rest.args)
    requires SaidFrom(w, rest.args, at, lines, n + 1)
    ensures var t := Join(own, rest); AllSaid(w, t.visits, t.args) && SaidFrom(w, t.args, at, lines, n)
  {
    hide ItemOf, ListedAt, VisitSaid;
    var t := Join(own, rest);
    SaidMore(w, own.visits, own.args, [], rest.args);
    SaidMore(w, rest.visits, rest.args, own.args, []);
    assert [] + own.args + rest.args == own.args + rest.args + [] == t.args;
    if ItemOf(w, lines[n]).Plain? {
      ListedMore(own.args, [], rest.args, at + [n]);
    }
    assert SaidFrom(w, t.args, at, lines, n + 1);
  }

  lemma {:induction false} WalkSays(
      w: World, file: Path, lines: seq<string>, n: nat, seen: seq<Name>, at: Address)
    requires n <= |lines|
    ensures var t := Walk(w, file, lines, n, seen, at);
            SaidFrom(w, t.args, at, lines, n) && AllSaid(w, t.visits, t.args)
    decreases |Unmet(w, seen)|, |lines| - n
  {
    hide ItemOf, Unmet, Expand, Walk;
    if n == |lines| {
      WalkEnds(w, file, lines, seen, at);
    } else {
      hide LineTrace, AllSaid, SaidFrom, ListedAt;
      LineSays(w, file, lines, n, seen, at);
      WalkLine(w, file, lines, n, seen, at);
      var (own, mid) := LineTrace(w, file, lines[n], n, seen, at);
      WalkSays(w, file, lines, n + 1, mid, at);
      SaidJoin(w, own, Walk(w, file, lines, n + 1, mid, at), at, lines, n);
    }
  }

  lemma LineSays(w: World, file: Path, lines: seq<string>, n: nat, seen: seq<Name>, at: Address)
    requires n < |lines|
    ensures var own := LineTrace(w, file, lines[n], n, seen, at).0;
            && (ItemOf(w, lines[n]).Plain? ==> ListedAt(own.args, at + [n]))
            && AllSaid(w, own.visits, own.args)
    decreases |Unmet(w, seen)|, |lines| - n, 0
  {
    hide ItemOf, Unmet, Expand, Walk;
    var item := ItemOf(w, lines[n]);
    var own := LineTrace(w, file, lines[n], n, seen, at).0;
    if item.Include? && w.canon(item.path) !in seen && item.path in w.texts {
      hide SaidFrom;
      var start := seen + [w.canon(item.path)];
      MetShrinks(w, seen, item.path, start);
      WalkSays(w, item.path, w.texts[item.path], 0, start, at + [n]);
    } else {
      assert own.args != [] ==> own.args[0].at == at + [n];
    }
  }

  // ---------- the whole expansion ----------

  /** The line at `a` is, in the order of addresses, the first reference to a file other than `r`, and it is in
      the root file or in one that is visited on the way. */
  ghost predicate FirstReference(w: World, lines: seq<string>, r: Name, visits: seq<Visit>, a: Address) {
    var item := ItemAt(w, lines, a);
    && item.Include? && ReachedFrom(visits, a, 0) && w.canon(item.path) != r
    && !MetBefore(w, visits, a, w.canon(item.path))
  }

  ghost predicate MetBefore(w: World, visits: seq<Visit>, a: Address, key: Name) {
    exists i :: 0 <= i < |visits| && w.canon(visits[i].path) == key && Before(visits[i].at, a)
  }

  /** The line at `a` has something to say: an argument in a file that is read, or that the file it is the first
      to refer to cannot be read. */
  ghost predicate Speaks(w: World, lines: seq<string>, visits: seq<Visit>, a: Address) {
    match ItemAt(w, lines, a)
    case Nothing => false
    case Plain(_, _) => ReachedFrom(visits, a, 0)
    case Include(path) => path !in w.texts && VisitedAt(visits, a)
  }

  /** The trace of the depth-first walk, said without walking: in the order of addresses, files are visited at
      exactly the first references to them, and the arguments are those of exactly the lines that speak. */
  ghost predicate IsPreorder(w: World, root: Path, t: Trace)
    requires root in w.texts
  {
    var lines := w.texts[root];
    && InOrder(t)
    && (forall a :: VisitedAt(t.visits, a) <==> FirstReference(w, lines, w.canon(root), t.visits, a))
    && (forall i :: 0 <= i < |t.visits| ==> ItemAt(w, lines, t.visits[i].at) == Include(t.visits[i].path))
    && (forall a :: ListedAt(t.args, a) <==> Speaks(w, lines, t.visits, a))
    && AllLead(w, root, lines, [], t.args)
  }

  lemma WholeRooted(w: World, lines: seq<string>, t: Trace)
    requires Rooted(w, lines, [], t, t.visits)
    ensures forall i :: 0 <= i < |t.visits| ==>
      ItemAt(w, lines, t.visits[i].at) == Include(t.visits[i].path) && ReachedFrom(t.visits, t.visits[i].at, 0)
    ensures forall i :: 0 <= i < |t.args| ==>
      && ReachedFrom(t.visits, t.args[i].at, 0)
      && (ItemAt(w, lines, t.args[i].at).Include? ==> VisitedAt(t.visits, t.args[i].at))
  {
    hide ItemAt, ReachedFrom, VisitedAt;
    assert forall a: Address :: a[0..] == a;
    forall i | 0 <= i < |t.visits| ensures
      ItemAt(w, lines, t.visits[i].at) == Include(t.visits[i].path) && ReachedFrom(t.visits, t.visits[i].at, 0) {
      assert VisitRooted(w, lines, [], t.visits, t.visits[i]);
    }
    forall i | 0 <= i < |t.args| ensures
      && ReachedFrom(t.visits, t.args[i].at, 0)
      && (ItemAt(w, lines, t.args[i].at).Include? ==> VisitedAt(t.visits, t.args[i].at)) {
      assert ArgRooted(w, lines, [], t.visits, t.args[i]);
    }
  }

  /** The file that the line at `a` stands in: the root, or the one visited at the address above. */
  lemma StandsIn(w: World, root: Path, t: Trace, a: Address) returns (file: Path)
    requires root in w.texts && ItemAt(w, w.texts[root], a) != Nothing && ReachedFrom(t.visits, a, 0)
    requires forall i :: 0 <= i < |t.visits| ==> ItemAt(w, w.texts[root], t.visits[i].at) == Include(t.visits[i].path)
    ensures a != [] && file in w.texts && a[|a| - 1] < |w.texts[file]|
    ensures ItemAt(w, w.texts[root], a) == ItemOf(w, w.texts[file][a[|a| - 1]])
    ensures if |a| == 1 then file == root else Visit(a[..|a| - 1], file) in t.visits
  {
    hide ItemOf;
    if |a| == 1 {
      file := root;
    } else {
      ItemAtParent(w, w.texts[root], a);
      var up := a[..|a| - 1];
      assert VisitedAt(t.visits, up);
      var i :| 0 <= i < |t.visits| && t.visits[i].at == up;
      file := t.visits[i].path;
    }
  }

  lemma VisitIsFirst(w: World, r: Name, lines: seq<string>, t: Trace, i: nat)
    requires i < |t.visits| && InOrder(t) && NoDup([r] + KeysOf(w, t.visits)) && Rooted(w, lines, [], t, t.visits)
    ensures FirstReference(w, lines, r, t.visits, t.visits[i].at)
  {
    WholeRooted(w, lines, t);
    hide ItemAt, ReachedFrom, Rooted, InOrder;
    var v := t.visits[i];
    forall j | 0 <= j < |t.visits| && w.canon(t.visits[j].path) == w.canon(v.path) ensures !Before(t.visits[j].at, v.at) {
      KeysApart(w, r, t.visits, i, j);
      BeforeIsStrict(v.at, v.at);
    }
    KeysApart(w, r, t.visits, i, i);
  }

  lemma KeysApart(w: World, r: Name, visits: seq<Visit>, i: nat, j: nat)
    requires i < |visits| && j < |visits| && NoDup([r] + KeysOf(w, visits))
    ensures w.canon(visits[i].path) != r
    ensures w.canon(visits[i].path) == w.canon(visits[j].path) ==> i == j
  {
    var keys := [r] + KeysOf(w, visits);
    assert keys[0] == r && keys[i + 1] == w.canon(visits[i].path) && keys[j + 1] == w.canon(visits[j].path);
  }

  lemma FirstIsVisited(w: World, root: Path, t: Trace, a: Address)
    requires root in w.texts && Rooted(w, w.texts[root], [], t, t.visits)
    requires RefsMet(w, t.visits, [w.canon(root)], [], w.texts[root], 0)
    requires AllRefsMet(w, t.visits, t.visits, [w.canon(root)])
    requires FirstReference(w, w.texts[root], w.canon(root), t.visits, a)
    ensures VisitedAt(t.visits, a)
  {
    hide ItemOf, ItemAt, RefsMet, ReachedFrom;
    WholeRooted(w, w.texts[root], t);
    var file := StandsIn(w, root, t, a);
    var up, n := a[..|a| - 1], a[|a| - 1];
    assert up + [n] == a;
    var key := w.canon(ItemAt(w, w.texts[root], a).path);
    assert RefsMet(w, t.visits, [w.canon(root)], up, w.texts[file], 0);
    RefsMetAt(w, t.visits, [w.canon(root)], up, w.texts[file], n);
    var i :| 0 <= i < |t.visits| && VisitsBy(w, t.visits[i], a, key);
    assert t.visits[i].at == a;
  }

  lemma RefsMetAt(w: World, visits: seq<Visit>, seen: seq<Name>, at: Address, lines: seq<string>, n: nat)
    requires n < |lines| && RefsMet(w, visits, seen, at, lines, 0) && ItemOf(w, lines[n]).Include?
    ensures MetBy(w, visits, seen, at + [n], w.canon(ItemOf(w, lines[n]).path))
  {
    assert RefMet(w, visits, seen, at, lines, n);
  }

  lemma ArgSpeaks(w: World, root: Path, t: Trace, i: nat)
    requires root in w.texts && i < |t.args| && Rooted(w, w.texts[root], [], t, t.visits)
    requires AllLead(w, root, w.texts[root], [], t.args)
    ensures Speaks(w, w.texts[root], t.visits, t.args[i].at)
  {
    hide ItemAt, Leads, ReachedFrom, VisitedAt;
    WholeRooted(w, w.texts[root], t);
    var p := t.args[i];
    assert LeadsFrom(w, root, w.texts[root], [], p) && p.at[0..] == p.at;
    LeadsToItem(w, root, w.texts[root], p.at, p.arg);
  }

  lemma SpeakerIsListed(w: World, root: Path, t: Trace, a: Address)
    requires root in w.texts && Rooted(w, w.texts[root], [], t, t.visits)
    requires SaidFrom(w, t.args, [], w.texts[root], 0) && AllSaid(w, t.visits, t.args)
    requires Speaks(w, w.texts[root], t.visits, a)
    ensures ListedAt(t.args, a)
  {
    hide ItemOf, ItemAt, ReachedFrom, ListedAt;
    WholeRooted(w, w.texts[root], t);
    if ItemAt(w, w.texts[root], a).Plain? {
      var file := StandsIn(w, root, t, a);
      var up, n := a[..|a| - 1], a[|a| - 1];
      assert up + [n] == a;
      if |a| > 1 {
        var i :| 0 <= i < |t.visits| && t.visits[i] == Visit(up, file);
        assert VisitSaid(w, t.args, t.visits[i]);
      }
      assert SaidFrom(w, t.args, up, w.texts[file], 0);
    } else {
      var i :| 0 <= i < |t.visits| && t.visits[i].at == a;
      assert VisitSaid(w, t.args, t.visits[i]);
    }
  }

  /** The expansion of a file is its depth-first preorder: its arguments and the files it meets are those of a
      trace that visits exactly the first references and lists exactly the lines that speak, in order. */
  lemma ExpansionIsPreorder(w: World, root: Path) returns (t: Trace)
    requires root in w.texts
    ensures var lines, r := w.texts[root], w.canon(root);
            var (out, met) := Expand(w, root, lines, 0, [r]);
            && t == Walk(w, root, lines, 0, [r], [])
            && ArgsOf(t.args) == out && [r] + KeysOf(w, t.visits) == met && NoDup(met)
            && IsPreorder(w, root, t)
            && RefsMet(w, t.visits, [r], [], lines, 0) && AllRefsMet(w, t.visits, t.visits, [r])
  {
    var lines, r := w.texts[root], w.canon(root);
    hide *;
    t := Walk(w, root, lines, 0, [r], []);
    WalkIsExpansion(w, root, lines, 0, [r], []);
    WalkInOrder(w, root, lines, 0, [r], []);
    WalkLeads(w, root, lines, 0, [r], []);
    WalkMeets(w, root, lines, 0, [r], []);
    WalkRooted(w, root, lines, 0, [r], []);
    WalkSays(w, root, lines, 0, [r], []);
    ReadOnce(w, root, lines, 0, [r]);
    PreorderOfParts(w, root, t);
  }

  lemma PreorderOfParts(w: World, root: Path, t: Trace)
    requires root in w.texts && InOrder(t) && NoDup([w.canon(root)] + KeysOf(w, t.visits))
    requires Rooted(w, w.texts[root], [], t, t.visits) && AllLead(w, root, w.texts[root], [], t.args)
    requires RefsMet(w, t.visits, [w.canon(root)], [], w.texts[root], 0)
    requires AllRefsMet(w, t.visits, t.visits, [w.canon(root)])
    requires SaidFrom(w, t.args, [], w.texts[root], 0) && AllSaid(w, t.visits, t.args)
    ensures IsPreorder(w, root, t)
  {
    hide InOrder, NoDup, KeysOf, Rooted, AllLead, RefsMet, AllRefsMet, SaidFrom, AllSaid, FirstReference, Speaks, ItemAt;
    var lines, r := w.texts[root], w.canon(root);
    WholeRooted(w, lines, t);
    forall a ensures VisitedAt(t.visits, a) <==> FirstReference(w, lines, r, t.visits, a) {
      if VisitedAt(t.visits, a) {
        var i :| 0 <= i < |t.visits| && t.visits[i].at == a;
        VisitIsFirst(w, r, lines, t, i);
      } else if FirstReference(w, lines, r, t.visits, a) {
        FirstIsVisited(w, root, t, a);
      }
    }
    forall a ensures ListedAt(t.args, a) <==> Speaks(w, lines, t.visits, a) {
      if ListedAt(t.args, a) {
        var i :| 0 <= i < |t.args| && t.args[i].at == a;
        ArgSpeaks(w, root, t, i);
      } else if Speaks(w, lines, t.visits, a) {
        SpeakerIsListed(w, root, t, a);
      }
    }
  }

  // ---------- there is no other preorder ----------

  lemma {:induction false} BeforeTransitive(a: Address, b: Address, c: Address)
    requires Before(a, b) && Before(b, c)
    ensures Before(a, c)
    decreases |a|
  {
    if a != [] && a[0] == b[0] == c[0] {
      BeforeTransitive(a[1..], b[1..], c[1..]);
    }
  }

  lemma PrefixIsBefore(a: Address, k: nat)
    requires k < |a|
    ensures Before(a[..k], a)
  {
    BeforeAt(a[..k], a, k);
  }

  /** In a trace in order a visit that comes before the visit `i` has a smaller index. */
  lemma EarlierVisit(t: Trace, a: Address, i: nat, j: nat)
    requires InOrder(t) && i <= |t.visits| && j < |t.visits| && Before(t.visits[j].at, a)
    requires i < |t.visits| ==> a == t.visits[i].at || Before(a, t.visits[i].at)
    ensures j < i
  {
    if i <= j {
      BeforeIsStrict(t.visits[j].at, a);
      if Before(a, t.visits[i].at) {
        BeforeIsStrict(a, t.visits[j].at);
        if i < j {
          BeforeTransitive(a, t.visits[i].at, t.visits[j].at);
        }
      }
    }
  }

  lemma SameIn(t: Trace, u: Trace, i: nat, j: nat)
    requires i <= |t.visits| && i <= |u.visits| && t.visits[..i] == u.visits[..i] && j < i
    ensures t.visits[j] == u.visits[j]
  {
    assert t.visits[..i][j] == u.visits[..i][j];
  }

  /** A visit of one trace that is not after the visit `i` of another, with equal ones before, is made by the
      other too. */
  lemma VisitIsShared(w: World, root: Path, t: Trace, u: Trace, i: nat)
    requires root in w.texts && IsPreorder(w, root, t) && IsPreorder(w, root, u)
    requires i < |t.visits| && i <= |u.visits| && t.visits[..i] == u.visits[..i]
    requires i < |u.visits| ==> t.visits[i].at == u.visits[i].at || Before(t.visits[i].at, u.visits[i].at)
    ensures i < |u.visits| && t.visits[i] == u.visits[i]
  {
    hide ItemAt, InOrder;
    var lines, r, v := w.texts[root], w.canon(root), t.visits[i];
    assert VisitedAt(t.visits, v.at);
    forall k | 0 < k < |v.at| ensures VisitedAt(u.visits, v.at[..k]) {
      assert VisitedAt(t.visits, v.at[..k]);
      var j :| 0 <= j < |t.visits| && t.visits[j].at == v.at[..k];
      PrefixIsBefore(v.at, k);
      EarlierVisit(t, v.at, i, j);
      SameIn(t, u, i, j);
    }
    forall j | 0 <= j < |u.visits| && w.canon(u.visits[j].path) == w.canon(v.path) ensures !Before(u.visits[j].at, v.at) {
      if Before(u.visits[j].at, v.at) {
        EarlierVisit(u, v.at, i, j);
        SameIn(t, u, i, j);
      }
    }
    assert FirstReference(w, lines, r, u.visits, v.at);
    var j :| 0 <= j < |u.visits| && u.visits[j].at == v.at;
    SamePlace(t, u, i, j);
  }

  lemma SamePlace(t: Trace, u: Trace, i: nat, j: nat)
    requires InOrder(t) && InOrder(u) && i < |t.visits| && i <= |u.visits| && t.visits[..i] == u.visits[..i]
    requires j < |u.visits| && u.visits[j].at == t.visits[i].at
    requires i < |u.visits| ==> t.visits[i].at == u.visits[i].at || Before(t.visits[i].at, u.visits[i].at)
    ensures j == i
  {
    var a := t.visits[i].at;
    BeforeIsStrict(a, a);
    if j < i {
      SameIn(t, u, i, j);
    } else if i < j {
      if Before(a, u.visits[i].at) {
        BeforeIsStrict(a, u.visits[i].at);
      }
    }
  }

  lemma {:induction false} VisitsUnique(w: World, root: Path, t: Trace, u: Trace, i: nat)
    requires root in w.texts && IsPreorder(w, root, t) && IsPreorder(w, root, u)
    requires i <= |t.visits| && i <= |u.visits| && t.visits[..i] == u.visits[..i]
    ensures t.visits == u.visits
    decreases |t.visits| - i
  {
    hide IsPreorder;
    if i < |t.visits| && (i == |u.visits| || !Before(u.visits[i].at, t.visits[i].at)) {
      if i < |u.visits| {
        BeforeIsStrict(t.visits[i].at, u.visits[i].at);
      }
      VisitIsShared(w, root, t, u, i);
      VisitsUnique(w, root, t, u, i + 1);
    } else if i < |u.visits| {
      VisitIsShared(w, root, u, t, i);
      VisitsUnique(w, root, t, u, i + 1);
    }
  }

  lemma ArgIsShared(w: World, root: Path, t: Trace, u: Trace, i: nat)
    requires root in w.texts && IsPreorder(w, root, t) && IsPreorder(w, root, u)
    requires t.visits == u.visits && i < |t.args|
    ensures t.args[i] in u.args
  {
    hide ItemAt, InOrder, Speaks, FirstReference, Leads;
    var p := t.args[i];
    assert ListedAt(t.args, p.at);
    assert ListedAt(u.args, p.at);
    var j :| 0 <= j < |u.args| && u.args[j].at == p.at;
    assert LeadsFrom(w, root, w.texts[root], [], p) && LeadsFrom(w, root, w.texts[root], [], u.args[j]);
    LeadsToOne(w, root, w.texts[root], p.at[0..], p.arg, u.args[j].arg);
  }

  ghost predicate Sorted(args: seq<Placed>) {
    forall i, j :: 0 <= i < j < |args| ==> Before(args[i].at, args[j].at)
  }

  lemma SortedTail(args: seq<Placed>)
    requires Sorted(args) && args != []
    ensures Sorted(args[1..]) && args[0] !in args[1..]
  {
    BeforeIsStrict(args[0].at, args[0].at);
  }

  lemma SameFirst(a: seq<Placed>, b: seq<Placed>)
    requires Sorted(a) && Sorted(b) && a != [] && b != [] && a[0] in b && b[0] in a
    ensures a[0] == b[0]
  {
    BeforeIsStrict(a[0].at, b[0].at);
  }

  lemma SameMembersTail(a: seq<Placed>, b: seq<Placed>)
    requires a != [] && b != [] && a[0] == b[0] && a[0] !in a[1..] && (forall p :: p in a ==> p in b)
    ensures forall p :: p in a[1..] ==> p in b[1..]
  {
    assert b == [b[0]] + b[1..] && a == [a[0]] + a[1..];
    forall p | p in a[1..] ensures p in b[1..] {
      assert p in a && p != a[0];
    }
  }

  lemma NoMembers(a: seq<Placed>)
    ensures (forall p :: p !in a) ==> a == []
  {
    assert a != [] ==> a[0] in a;
  }

  /** Sorted lists with the same members are equal. */
  lemma {:induction false} SortedUnique(a: seq<Placed>, b: seq<Placed>)
    requires Sorted(a) && Sorted(b) && forall p :: p in a <==> p in b
    ensures a == b
    decreases |a|
  {
    if a == [] || b == [] {
      NoMembers(a);
      NoMembers(b);
    } else {
      hide Sorted;
      SameFirst(a, b);
      SortedTail(a);
      SortedTail(b);
      SameMembersTail(a, b);
      SameMembersTail(b, a);
      SortedUnique(a[1..], b[1..]);
      assert a == [a[0]] + a[1..] && b == [b[0]] + b[1..];
    }
  }

  lemma ArgsUnique(w: World, root: Path, t: Trace, u: Trace)
    requires root in w.texts && IsPreorder(w, root, t) && IsPreorder(w, root, u) && t.visits == u.visits
    ensures t.args == u.args
  {
    assert Sorted(t.args) && Sorted(u.args);
    hide IsPreorder, Sorted;
    forall p ensures p in t.args <==> p in u.args {
      if p in t.args {
        var i :| 0 <= i < |t.args| && t.args[i] == p;
        ArgIsShared(w, root, t, u, i);
      }
      if p in u.args {
        var i :| 0 <= i < |u.args| && u.args[i] == p;
        ArgIsShared(w, root, u, t, i);
      }
    }
    SortedUnique(t.args, u.args);
  }

  /** Only the walk meets that description, so a trace that does has the arguments of the expansion. */
  lemma PreorderIsExpansion(w: World, root: Path, t: Trace)
    requires root in w.texts && IsPreorder(w, root, t)
    ensures var lines, r := w.texts[root], w.canon(root);
            var (out, met) := Expand(w, root, lines, 0, [r]);
            && t == Walk(w, root, lines, 0, [r], [])
            && ArgsOf(t.args) == out && [r] + KeysOf(w, t.visits) == met
  {
    hide *;
    var u := ExpansionIsPreorder(w, root);
    VisitsUnique(w, root, t, u, 0);
    ArgsUnique(w, root, t, u);
  }

  // ---------- an included file is one block ----------

  /** The places `i` to `j` are exactly those of the arguments below the visit `k`, and what stands there is the
      expansion of the visited file, given the files met by then. */
  ghost predicate Block(w: World, t: Trace, seen: seq<Name>, k: nat, i: nat, j: nat)
    requires k < |t.visits| && t.visits[k].path in w.texts
  {
    var Visit(at, path) := t.visits[k];
    && i <= j <= |t.args|
    && (forall x :: 0 <= x < |t.args| ==> (i <= x < j <==> at <= t.args[x].at))
    && ArgsOf(t.args[i..j]) == Expand(w, path, w.texts[path], 0, seen + KeysOf(w, t.visits[..k + 1])).0
  }

  lemma ApartLines(a: Address, b: Address, at: Address)
    requires |a| > |at| && |b| > |at| && a[|at|] != b[|at|]
    ensures !(a <= b)
  {
  }

  lemma BlockInOwn(w: World, own: Trace, rest: Trace, seen: seq<Name>, at: Address, n: nat, k: nat, i: nat, j: nat)
    requires OnLine(own, at, n) && AllFromLine(rest, at, n + 1)
    requires k < |own.visits| && own.visits[k].path in w.texts && Block(w, own, seen, k, i, j)
    ensures Block(w, Join(own, rest), seen, k, i, j)
  {
    hide Expand;
    var t := Join(own, rest);
    assert t.visits[..k + 1] == own.visits[..k + 1] && t.args[i..j] == own.args[i..j];
    forall x | 0 <= x < |t.args| ensures i <= x < j <==> own.visits[k].at <= t.args[x].at {
      if x >= |own.args| {
        assert t.args[x] == rest.args[x - |own.args|];
        ApartLines(own.visits[k].at, t.args[x].at, at);
      }
    }
  }

  lemma BlockInRest(w: World, own: Trace, rest: Trace, seen: seq<Name>, at: Address, n: nat, k: nat, i: nat, j: nat)
    requires OnLine(own, at, n) && AllFromLine(rest, at, n + 1)
    requires k < |rest.visits| && rest.visits[k].path in w.texts
    requires Block(w, rest, seen + KeysOf(w, own.visits), k, i, j)
    ensures Block(w, Join(own, rest), seen, |own.visits| + k, |own.args| + i, |own.args| + j)
  {
    hide Expand, KeysOf;
    var t, m := Join(own, rest), |own.args|;
    assert t.visits[..|own.visits| + k + 1] == own.visits + rest.visits[..k + 1];
    KeysJoin(w, own.visits, rest.visits[..k + 1]);
    assert seen + KeysOf(w, own.visits) + KeysOf(w, rest.visits[..k + 1]) ==
           seen + (KeysOf(w, own.visits) + KeysOf(w, rest.visits[..k + 1]));
    assert t.args[m + i..m + j] == rest.args[i..j];
    forall x | 0 <= x < |t.args| ensures m + i <= x < m + j <==> rest.visits[k].at <= t.args[x].at {
      if x < m {
        ApartLines(rest.visits[k].at, t.args[x].at, at);
      } else {
        assert t.args[x] == rest.args[x - m];
      }
    }
  }

  lemma {:induction false} WalkBlock(
      w: World, file: Path, lines: seq<string>, n: nat, seen: seq<Name>, at: Address, k: nat)
    returns (i: nat, j: nat)
    requires n <= |lines|
    requires var t := Walk(w, file, lines, n, seen, at); k < |t.visits| && t.visits[k].path in w.texts
    ensures Block(w, Walk(w, file, lines, n, seen, at), seen, k, i, j)
    decreases |Unmet(w, seen)|, |lines| - n
  {
    hide *;
    if n == |lines| {
      WalkEnds(w, file, lines, seen, at);
      assert false;
    }
    WalkLine(w, file, lines, n, seen, at);
    var (own, mid) := LineTrace(w, file, lines[n], n, seen, at);
    var rest := Walk(w, file, lines, n + 1, mid, at);
    LineInOrder(w, file, lines, n, seen, at);
    WalkInOrder(w, file, lines, n + 1, mid, at);
    JoinOf(own, rest);
    if k < |own.visits| {
      i, j := LineBlock(w, file, lines, n, seen, at, k);
      BlockInOwn(w, own, rest, seen, at, n, k, i, j);
    } else {
      LineIsExpansion(w, file, lines, n, seen, at);
      i, j := WalkBlock(w, file, lines, n + 1, mid, at, k - |own.visits|);
      BlockInRest(w, own, rest, seen, at, n, k - |own.visits|, i, j);
      i, j := |own.args| + i, |own.args| + j;
    }
  }

  lemma JoinOf(own: Trace, rest: Trace)
    ensures Join(own, rest) == Trace(own.args + rest.args, own.visits + rest.visits)
  {
  }

  lemma LineBlock(w: World, file: Path, lines: seq<string>, n: nat, seen: seq<Name>, at: Address, k: nat)
    returns (i: nat, j: nat)
    requires n < |lines|
    requires var own := LineTrace(w, file, lines[n], n, seen, at).0;
             k < |own.visits| && own.visits[k].path in w.texts
    ensures Block(w, LineTrace(w, file, lines[n], n, seen, at).0, seen, k, i, j)
    decreases |Unmet(w, seen)|, |lines| - n, 0
  {
    hide ItemOf, Unmet, Expand, Walk, Block;
    var path, here := ItemOf(w, lines[n]).path, at + [n];
    var start := seen + [w.canon(path)];
    MetShrinks(w, seen, path, start);
    var inner := Walk(w, path, w.texts[path], 0, start, here);
    WalkInOrder(w, path, w.texts[path], 0, start, here);
    if k == 0 {
      WalkIsExpansion(w, path, w.texts[path], 0, start, here);
      i, j := 0, |inner.args|;
      BlockAtHead(w, path, inner, seen, here);
    } else {
      i, j := WalkBlock(w, path, w.texts[path], 0, start, here, k - 1);
      BlockBelow(w, path, inner, seen, here, k - 1, i, j);
    }
  }

  lemma BlockAtHead(w: World, path: Path, inner: Trace, seen: seq<Name>, here: Address)
    requires path in w.texts && AllFromLine(inner, here, 0)
    requires ArgsOf(inner.args) == Expand(w, path, w.texts[path], 0, seen + [w.canon(path)]).0
    ensures Block(w, Trace(inner.args, [Visit(here, path)] + inner.visits), seen, 0, 0, |inner.args|)
  {
    hide Expand;
    var t := Trace(inner.args, [Visit(here, path)] + inner.visits);
    assert KeysOf(w, t.visits[..1]) == [w.canon(path)] && t.args[0..|inner.args|] == inner.args;
  }

  lemma BlockBelow(w: World, path: Path, inner: Trace, seen: seq<Name>, here: Address, k: nat, i: nat, j: nat)
    requires k < |inner.visits| && inner.visits[k].path in w.texts
    requires Block(w, inner, seen + [w.canon(path)], k, i, j)
    ensures Block(w, Trace(inner.args, [Visit(here, path)] + inner.visits), seen, k + 1, i, j)
  {
    hide Expand;
    var t := Trace(inner.args, [Visit(here, path)] + inner.visits);
    var keys := KeysOf(w, inner.visits[..k + 1]);
    assert KeysOf(w, t.visits[..k + 2]) == [w.canon(path)] + keys;
    assert seen + [w.canon(path)] + keys == seen + ([w.canon(path)] + keys);
  }

  /** Everything that an included file brings, at every depth below it, is one contiguous block at its first
      reference, and that block is the file's own expansion, given the files met by then. */
  lemma IncludedFileIsOneBlock(w: World, root: Path, t: Trace, k: nat) returns (i: nat, j: nat)
    requires root in w.texts && IsPreorder(w, root, t) && k < |t.visits| && t.visits[k].path in w.texts
    ensures Block(w, t, [w.canon(root)], k, i, j)
    ensures var out := Expand(w, root, w.texts[root], 0, [w.canon(root)]).0;
            var Visit(_, path) := t.visits[k];
            var own := Expand(w, path, w.texts[path], 0, [w.canon(root)] + KeysOf(w, t.visits[..k + 1])).0;
            i <= j <= |out| && out[i..j] == own
  {
    hide Walk, Expand, IsPreorder, KeysOf;
    PreorderIsExpansion(w, root, t);
    i, j := WalkBlock(w, root, w.texts[root], 0, [w.canon(root)], [], k);
    var out := Expand(w, root, w.texts[root], 0, [w.canon(root)]).0;
    assert |out| == |t.args| && out[i..j] == ArgsOf(t.args[i..j]);
  }

  /** The places of two arguments stand as their addresses do. */
  lemma PlacesFollowAddresses(t: Trace, i: nat, j: nat)
    requires InOrder(t) && i < |t.args| && j < |t.args|
    ensures i < j <==> Before(t.args[i].at, t.args[j].at)
  {
    BeforeIsStrict(t.args[i].at, t.args[j].at);
  }

  /** What stands at or below a line is contiguous, after the arguments of earlier lines of the same file and
      before those of later ones. */
  lemma LineIsOneBlock(t: Trace, at: Address, line: nat, i: nat, j: nat, k: nat)
    requires InOrder(t) && i < |t.args| && j < |t.args| && k < |t.args|
    ensures at + [line] <= t.args[i].at && at + [line] <= t.args[k].at && i < j < k ==> at + [line] <= t.args[j].at
    ensures at + [line] <= t.args[i].at && FromLine(t.args[j].at, at, line + 1) ==> i < j
    ensures at + [line] <= t.args[i].at && AheadOf(t.args[j].at, at, line) ==> j < i
  {
    var here, a, b := at + [line], t.args[i].at, t.args[j].at;
    if here <= a {
      assert a[..|here|] == here && a[|at|] == line && a[..|at|] == at;
      if i < j < k && here <= t.args[k].at {
        BetweenBelow(here, a, b, t.args[k].at);
      }
      if FromLine(b, at, line + 1) {
        BeforeAt(a, b, |at|);
        PlacesFollowAddresses(t, i, j);
      }
      if AheadOf(b, at, line) {
        BeforeAt(b, a, |at|);
        PlacesFollowAddresses(t, j, i);
      }
    }
  }
}
