/** The file dependency graph: construction from parsed files, cycle detection by depth-first search,
    compilation order by Kahn's algorithm with a fallback for cycles, and the two closure queries.
    An edge leads from a dependency to its dependent. */
module DependencyGraphs {
  import opened Digraph
  import opened Sequences

  /** What the graph reads of a parsed file: its qualified name and the names it imports. */
  datatype HaxeFile = HaxeFile(qualifiedName: Name, filename: string, imports: seq<Name>)

  datatype FileNode = FileNode(qualifiedName: Name, filePath: string, fileIndex: nat)

  datatype CircularDependency = CircularDependency(cycle: seq<Name>, filePaths: seq<string>)

  datatype DependencyAnalysis =
    DependencyAnalysis(compilationOrder: seq<nat>, circularDependencies: seq<CircularDependency>)

  type Nodes = map<Name, FileNode>

  // ---------- edges ----------

  function WithEdge(e: Edges, from: Name, to: Name): Edges {
    e[from := Succ(e, from) + {to}]
  }

  lemma ConverseWithEdge(e: Edges, r: Edges, from: Name, to: Name)
    requires Converse(e, r)
    ensures Converse(WithEdge(e, from, to), WithEdge(r, to, from))
  {
    forall u, v
      ensures v in Succ(WithEdge(e, from, to), u) <==> v in Succ(e, u) || (u, v) == (from, to)
      ensures u in Succ(WithEdge(r, to, from), v) <==> u in Succ(r, v) || (u, v) == (from, to)
    {
    }
  }

  /** The two maps after a sequence of `add_edge(from, to)` calls on an empty graph. */
  function AfterEdges(calls: seq<(Name, Name)>): (maps: (Edges, Edges)) {
    if calls == [] then (map[], map[])
    else
      var (e, r) := AfterEdges(calls[..|calls| - 1]);
      var (from, to) := calls[|calls| - 1];
      (WithEdge(e, from, to), WithEdge(r, to, from))
  }

  lemma {:induction false} EdgesStayConverse(calls: seq<(Name, Name)>)
    ensures var (e, r) := AfterEdges(calls);
            && Converse(e, r)
            && forall u, v :: v in Succ(e, u) <==> (u, v) in calls
  {
    if calls != [] {
      var front := calls[..|calls| - 1];
      var (from, to) := calls[|calls| - 1];
      EdgesStayConverse(front);
      var (e, r) := AfterEdges(front);
      ConverseWithEdge(e, r, from, to);
      forall u, v
        ensures v in Succ(WithEdge(e, from, to), u) <==> v in Succ(e, u) || (u, v) == (from, to)
        ensures (u, v) in calls <==> (u, v) in front || (u, v) == (from, to)
      {
        assert calls == front + [(from, to)];
      }
    }
  }

  // ---------- what an order and a reported cycle must satisfy ----------

  ghost predicate EdgesWithin(e: Edges, nodes: Nodes) {
    && e.Keys <= nodes.Keys
    && forall u, v :: v in Succ(e, u) ==> v in nodes
  }

  ghost predicate DistinctIndices(nodes: Nodes) {
    forall a, b :: a in nodes && b in nodes && nodes[a].fileIndex == nodes[b].fileIndex ==> a == b
  }

  function Indices(nodes: Nodes): set<nat> {
    set n | n in nodes :: nodes[n].fileIndex
  }

  function IndicesOf(nodes: Nodes, order: seq<Name>): (r: seq<nat>)
    requires Elems(order) <= nodes.Keys
    ensures |r| == |order|
  {
    seq(|order|, i requires 0 <= i < |order| => assert order[i] in Elems(order); nodes[order[i]].fileIndex)
  }

  ghost predicate Before<T(!new)>(s: seq<T>, a: T, b: T) {
    exists i, j :: 0 <= i < j < |s| && s[i] == a && s[j] == b
  }

  /** A complete order of the nodes' files in which a file comes after its dependencies unless it is on
      or behind a cycle, and the files on or behind a cycle come last. */
  ghost predicate IsCompilationOrder(nodes: Nodes, e: Edges, order: seq<nat>)
    requires EdgesWithin(e, nodes)
  {
    && NoDup(order)
    && Elems(order) == Indices(nodes)
    && (forall u, v :: v in Succ(e, u) && !Tainted(e, v) ==> Before(order, nodes[u].fileIndex, nodes[v].fileIndex))
    && (forall u, v :: u in nodes && v in nodes && !Tainted(e, u) && Tainted(e, v) ==>
          Before(order, nodes[u].fileIndex, nodes[v].fileIndex))
  }

  /** A closed walk along edges that repeats no node but its end, with the files on it. */
  ghost predicate IsReportedCycle(nodes: Nodes, e: Edges, c: CircularDependency) {
    && |c.cycle| >= 2
    && IsWalk(e, c.cycle)
    && c.cycle[|c.cycle| - 1] == c.cycle[0]
    && NoDup(c.cycle[..|c.cycle| - 1])
    && |c.filePaths| == |c.cycle| - 1
    && forall i :: 0 <= i < |c.filePaths| ==> c.cycle[i] in nodes && c.filePaths[i] == nodes[c.cycle[i]].filePath
  }

  /** The edge from `u` to `v` closes the cycle. */
  predicate Closes(c: CircularDependency, u: Name, v: Name) {
    |c.cycle| >= 2 && c.cycle[0] == v && c.cycle[|c.cycle| - 2] == u
  }

  ghost predicate EdgeReported(cycles: seq<CircularDependency>, u: Name, v: Name) {
    exists i :: 0 <= i < |cycles| && Closes(cycles[i], u, v)
  }

  /** Every edge of a listed node leads to a node listed before it or closes a reported cycle. */
  ghost predicate FinishedOrReported(e: Edges, order: seq<Name>, cycles: seq<CircularDependency>) {
    forall i, v :: 0 <= i < |order| && v in Succ(e, order[i]) ==> v in order[..i] || EdgeReported(cycles, order[i], v)
  }

  /** Every edge of `u` into `vs` leads to a finished node or closes a reported cycle. */
  ghost predicate Explored(vs: set<Name>, order: seq<Name>, cycles: seq<CircularDependency>, u: Name) {
    forall v :: v in vs ==> v in order || EdgeReported(cycles, u, v)
  }

  lemma ExploredStays(vs: set<Name>, order: seq<Name>, cycles: seq<CircularDependency>, u: Name,
                      order': seq<Name>, cycles': seq<CircularDependency>)
    requires Explored(vs, order, cycles, u) && Elems(order) <= Elems(order') && cycles <= cycles'
    ensures Explored(vs, order', cycles', u)
  {
    forall v | v in vs ensures v in order' || EdgeReported(cycles', u, v) {
      if v in order {
        assert v in Elems(order');
      } else {
        var i :| 0 <= i < |cycles| && Closes(cycles[i], u, v);
        assert Closes(cycles'[i], u, v);
      }
    }
  }

  /** Some reported cycle lies in the strongly connected component of `n`. */
  ghost predicate ComponentReported(e: Edges, cycles: seq<CircularDependency>, n: Name) {
    exists i :: 0 <= i < |cycles| && StartsInComponent(e, cycles[i], n)
  }

  ghost predicate StartsInComponent(e: Edges, c: CircularDependency, n: Name) {
    |c.cycle| > 0 && SameComponent(e, n, c.cycle[0])
  }

  lemma MoreReported(e: Edges, order: seq<Name>, cycles: seq<CircularDependency>, c: CircularDependency)
    requires FinishedOrReported(e, order, cycles)
    ensures FinishedOrReported(e, order, cycles + [c])
  {
    forall i, v | 0 <= i < |order| && v in Succ(e, order[i]) && v !in order[..i]
      ensures EdgeReported(cycles + [c], order[i], v)
    {
      EdgeStaysReported(cycles, c, order[i], v);
    }
  }

  lemma EdgeStaysReported(cycles: seq<CircularDependency>, c: CircularDependency, u: Name, v: Name)
    requires EdgeReported(cycles, u, v) || Closes(c, u, v)
    ensures EdgeReported(cycles + [c], u, v)
  {
    var more := cycles + [c];
    if EdgeReported(cycles, u, v) {
      var i :| 0 <= i < |cycles| && Closes(cycles[i], u, v);
      assert Closes(more[i], u, v);
    } else {
      assert Closes(more[|cycles|], u, v);
    }
  }

  /** After a complete search, every node on a cycle has a reported cycle in its own component: an edge inside
      the component that does not lead to an earlier node closes one, and without one the component could be
      ordered. */
  lemma CyclesAreReported(e: Edges, order: seq<Name>, cycles: seq<CircularDependency>, n: Name)
    requires FinishedOrReported(e, order, cycles) && NoDup(order) && e.Keys <= Elems(order)
    requires OnCycle(e, n)
    ensures ComponentReported(e, cycles, n)
  {
    var inner := Inside(e, n);
    CycleInside(e, n);
    if forall i, v :: 0 <= i < |order| && v in Succ(inner, order[i]) ==> v in order[..i] {
      FinishOrderAcyclic(inner, order);
    } else {
      var i, v :| 0 <= i < |order| && v in Succ(inner, order[i]) && v !in order[..i];
      var k :| 0 <= k < |cycles| && Closes(cycles[k], order[i], v);
      assert StartsInComponent(e, cycles[k], n);
    }
  }

  lemma ReportedCycleIsCycle(nodes: Nodes, e: Edges, c: CircularDependency)
    requires IsReportedCycle(nodes, e, c)
    ensures OnCycle(e, c.cycle[0])
  {
    assert WalkBetween(e, c.cycle, c.cycle[0], c.cycle[0]);
  }

  // ---------- depth-first cycle search ----------

  method Position(path: seq<Name>, name: Name) returns (k: nat)
    requires name in path
    ensures k < |path| && path[k] == name && name !in path[..k]
  {
    k := 0;
    while path[k] != name
      invariant k < |path| && name !in path[..k]
      decreases |path| - k
    {
      k := k + 1;
    }
  }

  /** The file paths of the listed names that have a node. */
  method FilePathsOf(nodes: Nodes, names: seq<Name>) returns (filePaths: seq<string>)
    requires Elems(names) <= nodes.Keys
    ensures |filePaths| == |names|
    ensures forall k :: 0 <= k < |names| ==> names[k] in nodes && filePaths[k] == nodes[names[k]].filePath
  {
    filePaths := [];
    for i := 0 to |names|
      invariant |filePaths| == i
      invariant forall k :: 0 <= k < i ==> names[k] in nodes && filePaths[k] == nodes[names[k]].filePath
    {
      assert names[i] in Elems(names);
      if names[i] in nodes {
        filePaths := filePaths + [nodes[names[i]].filePath];
      }
    }
  }

  /** The part of a path from a node on, closed by an edge from its end back to that node. */
  lemma ClosedPath(nodes: Nodes, e: Edges, path: seq<Name>, start: nat, filePaths: seq<string>)
    requires start < |path| && IsWalk(e, path) && NoDup(path) && path[start] in Succ(e, path[|path| - 1])
    requires |filePaths| == |path| - start
    requires forall k :: 0 <= k < |filePaths| ==>
      path[start..][k] in nodes && filePaths[k] == nodes[path[start..][k]].filePath
    ensures IsReportedCycle(nodes, e, CircularDependency(path[start..] + [path[start]], filePaths))
  {
  }

  /** The state that the recursive search threads through its calls. `finished` lists the nodes whose
      call has returned, in the order of return. */
  class CycleSearch {
    const nodes: Nodes
    const edges: Edges
    var visited: set<Name>
    var recStack: set<Name>
    var path: seq<Name>
    var cycles: seq<CircularDependency>
    ghost var finished: seq<Name>

    ghost predicate Valid()
      reads this
    {
      && EdgesWithin(edges, nodes)
      && recStack == Elems(path) && NoDup(path)
      && (path != [] ==> IsWalk(edges, path))
      && visited <= nodes.Keys && visited == recStack + Elems(finished)
      && recStack !! Elems(finished) && NoDup(finished)
      && FinishedOrReported(edges, finished, cycles)
      && forall i :: 0 <= i < |cycles| ==> IsReportedCycle(nodes, edges, cycles[i])
    }

    constructor (nodes: Nodes, edges: Edges)
      requires EdgesWithin(edges, nodes)
      ensures Valid() && this.nodes == nodes && this.edges == edges
      ensures visited == {} && path == [] && cycles == [] && finished == []
    {
      this.nodes, this.edges := nodes, edges;
      visited, recStack, path, cycles, finished := {}, {}, [], [], [];
    }

    /** Records the cycle that the edge from the top of the path back to `neighbor` closes. */
    method Report(neighbor: Name)
      requires Valid() && path != []
      requires neighbor in recStack && neighbor in Succ(edges, path[|path| - 1])
      modifies this`cycles
      ensures Valid() && |cycles| == |old(cycles)| + 1 && old(cycles) <= cycles
      ensures Closes(cycles[|cycles| - 1], path[|path| - 1], neighbor)
    {
      var cycleStart := Position(path, neighbor);
      var cyclePath := path[cycleStart..];
      assert Elems(cyclePath) <= nodes.Keys by {
        assert Elems(cyclePath) <= Elems(path);
      }
      var filePaths := FilePathsOf(nodes, cyclePath);
      MoreReported(edges, finished, cycles, CircularDependency(cyclePath + [neighbor], filePaths));
      cycles := cycles + [CircularDependency(cyclePath + [neighbor], filePaths)];
      ClosedPath(nodes, edges, path, cycleStart, filePaths);
    }

    /** The bookkeeping on entry to a call. */
    method Enter(node: Name)
      requires Valid() && node in nodes && node !in visited
      requires path != [] ==> node in Succ(edges, path[|path| - 1])
      modifies this`visited, this`recStack, this`path
      ensures Valid() && path == old(path) + [node] && visited == old(visited) + {node}
    {
      visited := visited + {node};
      recStack := recStack + {node};
      path := path + [node];
      assert Elems(path) == Elems(old(path)) + {node};
    }

    /** The bookkeeping on return from a call. */
    method Leave(node: Name)
      requires Valid() && path != [] && path[|path| - 1] == node
      requires Explored(Succ(edges, node), finished, cycles, node)
      modifies this`recStack, this`path, this`finished
      ensures Valid() && path == old(path)[..|old(path)| - 1] && finished == old(finished) + [node]
    {
      path := path[..|path| - 1];
      assert Elems(old(path)) == Elems(path) + {node};
      recStack := recStack - {node};
      finished := finished + [node];
      assert Elems(finished) == Elems(old(finished)) + {node};
      AppendFinished(edges, old(finished), cycles, node);
    }

    method Visit(node: Name)
      requires Valid() && node in nodes && node !in visited
      requires path != [] ==> node in Succ(edges, path[|path| - 1])
      modifies this
      ensures Valid()
      ensures path == old(path) && old(visited) + {node} <= visited && node in Elems(finished)
      ensures Elems(old(finished)) <= Elems(finished) && old(cycles) <= cycles
      decreases nodes.Keys - visited
    {
      Enter(node);
      var neighbors := Succ(edges, node);
      while neighbors != {}
        invariant neighbors <= Succ(edges, node)
        invariant Valid() && path == old(path) + [node] && old(visited) + {node} <= visited
        invariant Elems(old(finished)) <= Elems(finished) && old(cycles) <= cycles
        invariant Explored(Succ(edges, node) - neighbors, finished, cycles, node)
        decreases neighbors
      {
        var neighbor :| neighbor in neighbors;
        ghost var before, reported := finished, cycles;
        if neighbor !in visited {
          Visit(neighbor);
        } else if neighbor in recStack {
          Report(neighbor);
        }
        ExploredStays(Succ(edges, node) - neighbors, before, reported, node, finished, cycles);
        neighbors := neighbors - {neighbor};
      }
      Leave(node);
    }
  }

  lemma AppendFinished(e: Edges, order: seq<Name>, cycles: seq<CircularDependency>, node: Name)
    requires FinishedOrReported(e, order, cycles)
    requires Explored(Succ(e, node), order, cycles, node)
    ensures FinishedOrReported(e, order + [node], cycles)
  {
    var longer := order + [node];
    forall i, v | 0 <= i < |longer| && v in Succ(e, longer[i])
      ensures v in longer[..i] || EdgeReported(cycles, longer[i], v)
    {
      assert longer[..i] == order[..i];
    }
  }

  lemma AppendEmitted(e: Edges, order: seq<Name>, node: Name)
    requires PredsFirst(e, order) && forall u :: node in Succ(e, u) ==> u in order
    ensures PredsFirst(e, order + [node])
  {
    var longer := order + [node];
    forall i, u | 0 <= i < |longer| && longer[i] in Succ(e, u) ensures u in longer[..i] {
      assert longer[..i] == order[..i];
    }
  }

  // ---------- Kahn's algorithm ----------

  method Enumerate(s: set<Name>) returns (q: seq<Name>)
    ensures NoDup(q) && Elems(q) == s
  {
    q := [];
    var rest := s;
    while rest != {}
      invariant rest <= s && NoDup(q) && Elems(q) == s - rest
    {
      var x :| x in rest;
      q, rest := q + [x], rest - {x};
      assert Elems(q) == Elems(q[..|q| - 1]) + {x};
    }
  }

  /** Removing `u` from `dom` takes one predecessor away from each successor of `u`. */
  lemma PredsWithout(e: Edges, n: Name, dom: set<Name>, u: Name)
    requires u in dom
    ensures PredsIn(e, n, dom) == PredsIn(e, n, dom - {u}) + if n in Succ(e, u) then {u} else {}
    ensures |PredsIn(e, n, dom)| == |PredsIn(e, n, dom - {u})| + if n in Succ(e, u) then 1 else 0
  {
  }

  ghost predicate Degrees(nodes: Nodes, e: Edges, open: set<Name>, inDegree: map<Name, nat>) {
    && inDegree.Keys == nodes.Keys
    && forall n :: n in nodes ==> inDegree[n] == |PredsIn(e, n, open)|
  }

  /** Adds one to the count of each member of `neighbors`. */
  method Increment(inDegree0: map<Name, nat>, neighbors: set<Name>) returns (inDegree: map<Name, nat>)
    ensures inDegree.Keys == inDegree0.Keys + neighbors
    ensures forall n :: n in inDegree ==>
      inDegree[n] == (if n in inDegree0 then inDegree0[n] else 0) + if n in neighbors then 1 else 0
  {
    inDegree := inDegree0;
    var rest := neighbors;
    while rest != {}
      invariant rest <= neighbors && inDegree.Keys == inDegree0.Keys + (neighbors - rest)
      invariant forall n :: n in inDegree ==>
        inDegree[n] == (if n in inDegree0 then inDegree0[n] else 0) + if n in neighbors - rest then 1 else 0
    {
      var n :| n in rest;
      inDegree := inDegree[n := (if n in inDegree then inDegree[n] else 0) + 1];
      rest := rest - {n};
    }
  }

  method InDegrees(nodes: Nodes, edges: Edges) returns (inDegree: map<Name, nat>)
    requires EdgesWithin(edges, nodes)
    ensures Degrees(nodes, edges, edges.Keys, inDegree)
  {
    inDegree := map n | n in nodes :: 0;
    var rest := edges.Keys;
    while rest != {}
      invariant rest <= edges.Keys && Degrees(nodes, edges, edges.Keys - rest, inDegree)
    {
      var u :| u in rest;
      ghost var before := inDegree;
      inDegree := Increment(inDegree, edges[u]);
      CountStep(nodes, edges, u, rest, before, inDegree);
      rest := rest - {u};
    }
    assert edges.Keys - rest == edges.Keys;
  }

  /** Two counts that differ by one exactly at the successors of `u` are degrees with and without `u`. */
  lemma DegreesWithout(nodes: Nodes, e: Edges, open: set<Name>, u: Name, more: map<Name, nat>, less: map<Name, nat>)
    requires u in open && more.Keys == less.Keys == nodes.Keys
    requires forall n :: n in nodes ==> more[n] == less[n] + if n in Succ(e, u) then 1 else 0
    ensures Degrees(nodes, e, open, more) <==> Degrees(nodes, e, open - {u}, less)
  {
    forall n | n in nodes
      ensures more[n] == |PredsIn(e, n, open)| <==> less[n] == |PredsIn(e, n, open - {u})|
    {
      PredsWithout(e, n, open, u);
    }
  }

  lemma CountStep(nodes: Nodes, e: Edges, u: Name, rest: set<Name>, before: map<Name, nat>, after: map<Name, nat>)
    requires EdgesWithin(e, nodes) && u in rest && rest <= e.Keys && Degrees(nodes, e, e.Keys - rest, before)
    requires after.Keys == before.Keys + e[u]
    requires forall n :: n in after ==> after[n] == (if n in before then before[n] else 0) + if n in e[u] then 1 else 0
    ensures Degrees(nodes, e, e.Keys - (rest - {u}), after)
  {
    assert e[u] <= nodes.Keys by {
      forall n | n in e[u] ensures n in nodes {
        assert n in Succ(e, u);
      }
    }
    var open := e.Keys - (rest - {u});
    assert open - {u} == e.Keys - rest;
    DegreesWithout(nodes, e, open, u, after, before);
  }

  /** Takes one from the count of each member of `neighbors` and queues those that reach zero. */
  method Decrement(inDegree0: map<Name, nat>, neighbors: set<Name>, queue0: seq<Name>)
    returns (inDegree: map<Name, nat>, queue: seq<Name>, ghost added: seq<Name>)
    requires forall n :: n in neighbors ==> n in inDegree0 && inDegree0[n] > 0
    ensures inDegree.Keys == inDegree0.Keys
    ensures forall n :: n in inDegree ==> inDegree0[n] == inDegree[n] + if n in neighbors then 1 else 0
    ensures queue == queue0 + added && NoDup(added)
    ensures forall n :: n in added <==> n in neighbors && inDegree[n] == 0
  {
    inDegree, queue, added := inDegree0, queue0, [];
    var rest := neighbors;
    while rest != {}
      invariant rest <= neighbors && inDegree.Keys == inDegree0.Keys
      invariant forall n :: n in inDegree ==> inDegree0[n] == inDegree[n] + if n in neighbors - rest then 1 else 0
      invariant queue == queue0 + added && NoDup(added)
      invariant forall n :: n in added <==> n in neighbors - rest && inDegree[n] == 0
    {
      var n :| n in rest;
      if n in inDegree {
        inDegree := inDegree[n := inDegree[n] - 1];
        if inDegree[n] == 0 {
          queue := queue + [n];
          added := added + [n];
        }
      }
      rest := rest - {n};
    }
  }

  lemma ZeroInDegree(e: Edges, n: Name, order: seq<Name>)
    requires |PredsIn(e, n, e.Keys - Elems(order))| == 0
    ensures forall u :: n in Succ(e, u) ==> u in order
  {
    forall u | n in Succ(e, u) ensures u in order {
      assert u !in PredsIn(e, n, e.Keys - Elems(order));
    }
  }

  /** What the queue loop keeps: `order` names the emitted nodes, each after its predecessors, and the
      emitted and queued nodes are distinct and exactly those of in-degree zero. */
  ghost predicate KahnInvariant(nodes: Nodes, e: Edges, inDegree: map<Name, nat>, order: seq<Name>, queue: seq<Name>) {
    && EdgesWithin(e, nodes)
    && Degrees(nodes, e, e.Keys - Elems(order), inDegree)
    && NoDup(order + queue)
    && (forall n :: n in order + queue <==> n in nodes && inDegree[n] == 0)
    && Elems(order) <= nodes.Keys && PredsFirst(e, order)
  }

  lemma NextEmitted(nodes: Nodes, e: Edges, inDegree: map<Name, nat>, order: seq<Name>, queue: seq<Name>)
    requires queue != [] && KahnInvariant(nodes, e, inDegree, order, queue)
    ensures queue[0] in nodes && queue[0] !in order && inDegree.Keys == nodes.Keys
    ensures Elems(order) <= nodes.Keys && PredsFirst(e, order + [queue[0]])
    ensures forall n :: n in Succ(e, queue[0]) ==> n in nodes && inDegree[n] > 0
  {
    var node := queue[0];
    var all := order + queue;
    assert all[|order|] == node;
    assert node in all;
    assert forall k :: 0 <= k < |order| ==> all[k] == order[k];
    ZeroInDegree(e, node, order);
    AppendEmitted(e, order, node);
    forall n | n in Succ(e, node) ensures n in nodes && inDegree[n] > 0 {
      assert node in PredsIn(e, n, e.Keys - Elems(order));
    }
  }

  lemma KahnStep(nodes: Nodes, e: Edges, inDegree: map<Name, nat>, order: seq<Name>, queue: seq<Name>,
                 inDegree': map<Name, nat>, added: seq<Name>)
    requires queue != [] && KahnInvariant(nodes, e, inDegree, order, queue)
    requires inDegree'.Keys == inDegree.Keys
    requires forall n :: n in nodes ==> inDegree[n] == inDegree'[n] + if n in Succ(e, queue[0]) then 1 else 0
    requires NoDup(added) && forall n :: n in added <==> n in Succ(e, queue[0]) && inDegree'[n] == 0
    ensures KahnInvariant(nodes, e, inDegree', order + [queue[0]], queue[1..] + added)
  {
    NextEmitted(nodes, e, inDegree, order, queue);
    var node, open := queue[0], e.Keys - Elems(order);
    var order', queue' := order + [node], queue[1..] + added;
    assert Elems(order') == Elems(order) + {node};
    assert open - {node} == e.Keys - Elems(order');
    if node in e {
      DegreesWithout(nodes, e, open, node, inDegree, inDegree');
    } else {
      assert open - {node} == open;
    }
    AppendDistinct(order + queue, added);
    assert order' + queue' == (order + queue) + added;
  }

  lemma AppendDistinct(known: seq<Name>, added: seq<Name>)
    requires NoDup(known) && NoDup(added) && forall n :: n in added ==> n !in known
    ensures NoDup(known + added)
  {
    forall i, j | 0 <= i < j < |known + added| ensures (known + added)[i] != (known + added)[j] {
      if i < |known| <= j {
        assert (known + added)[j] in added;
      }
    }
  }

  lemma UnemittedIsTainted(nodes: Nodes, e: Edges, order: seq<Name>)
    requires EdgesWithin(e, nodes) && NoDup(order) && PredsFirst(e, order)
    requires forall n :: n in nodes && n !in order ==> |PredsIn(e, n, e.Keys - Elems(order))| != 0
    ensures forall n :: n in nodes ==> (n in order <==> !Tainted(e, n))
  {
    var left := nodes.Keys - Elems(order);
    forall n | n in left ensures PredsIn(e, n, left) != {} {
      var u :| u in PredsIn(e, n, e.Keys - Elems(order));
      assert u in PredsIn(e, n, left);
    }
    forall n | n in nodes ensures n in order <==> !Tainted(e, n) {
      if n in order {
        OrderedIsUntainted(e, order, n);
      } else {
        NoSourceMeansTainted(e, left, n);
      }
    }
  }

  lemma KahnStart(nodes: Nodes, e: Edges, inDegree: map<Name, nat>, queue: seq<Name>)
    requires EdgesWithin(e, nodes) && Degrees(nodes, e, e.Keys, inDegree)
    requires NoDup(queue) && Elems(queue) == set n | n in inDegree && inDegree[n] == 0
    ensures KahnInvariant(nodes, e, inDegree, [], queue)
  {
    assert [] + queue == queue && e.Keys - Elems([]) == e.Keys;
    forall n ensures n in queue <==> n in nodes && inDegree[n] == 0 {
      assert n in queue <==> n in Elems(queue);
    }
  }

  lemma KahnEnd(nodes: Nodes, e: Edges, inDegree: map<Name, nat>, order: seq<Name>)
    requires KahnInvariant(nodes, e, inDegree, order, [])
    ensures NoDup(order) && forall n :: n in nodes ==> (n in order <==> !Tainted(e, n))
  {
    assert order + [] == order;
    UnemittedIsTainted(nodes, e, order);
  }

  /** One turn of the queue loop: emits the front node and relaxes its successors. */
  method KahnRound(nodes: Nodes, edges: Edges, inDegree0: map<Name, nat>, queue0: seq<Name>, result0: seq<nat>,
                   ghost order0: seq<Name>)
    returns (inDegree: map<Name, nat>, queue: seq<Name>, result: seq<nat>, ghost order: seq<Name>)
    requires queue0 != [] && KahnInvariant(nodes, edges, inDegree0, order0, queue0)
    requires result0 == IndicesOf(nodes, order0)
    ensures KahnInvariant(nodes, edges, inDegree, order, queue)
    ensures order == order0 + [queue0[0]] && Elems(order) == Elems(order0) + {queue0[0]} && queue0[0] !in order0
    ensures result == IndicesOf(nodes, order)
  {
    hide KahnInvariant, PredsFirst;
    var node := queue0[0];
    NextEmitted(nodes, edges, inDegree0, order0, queue0);
    inDegree, queue, result, order := inDegree0, queue0[1..], result0, order0 + [node];
    if node in nodes {
      result := result + [nodes[node].fileIndex];
    }
    ghost var added := [];
    if node in edges {
      inDegree, queue, added := Decrement(inDegree, edges[node], queue);
    }
    assert queue == queue0[1..] + added;
    KahnStep(nodes, edges, inDegree0, order0, queue0, inDegree, added);
  }

  /** The queue loop. `order` names the emitted nodes: exactly those that are neither on a cycle nor
      behind one, each after all its dependencies. */
  method KahnPhase(nodes: Nodes, edges: Edges, inDegree0: map<Name, nat>)
    returns (result: seq<nat>, ghost order: seq<Name>)
    requires EdgesWithin(edges, nodes) && Degrees(nodes, edges, edges.Keys, inDegree0)
    ensures NoDup(order) && Elems(order) <= nodes.Keys && PredsFirst(edges, order)
    ensures result == IndicesOf(nodes, order)
    ensures forall n :: n in nodes ==> (n in order <==> !Tainted(edges, n))
  {
    var inDegree := inDegree0;
    var queue := Enumerate(set n | n in inDegree && inDegree[n] == 0);
    result, order := [], [];
    KahnStart(nodes, edges, inDegree, queue);
    while queue != []
      invariant KahnInvariant(nodes, edges, inDegree, order, queue)
      invariant result == IndicesOf(nodes, order)
      decreases nodes.Keys - Elems(order)
    {
      inDegree, queue, result, order := KahnRound(nodes, edges, inDegree, queue, result, order);
    }
    KahnEnd(nodes, edges, inDegree, order);
  }

  // ---------- completing the order ----------

  lemma {:induction false} DistinctCount<T(!new)>(s: seq<T>)
    requires NoDup(s)
    ensures |Elems(s)| == |s|
  {
    if s != [] {
      DistinctCount(s[1..]);
      assert Elems(s) == {s[0]} + Elems(s[1..]);
      assert s[0] !in s[1..];
    }
  }

  lemma EmittedAll(nodes: Nodes, order: seq<Name>)
    requires NoDup(order) && Elems(order) <= nodes.Keys && |order| >= |nodes|
    ensures Elems(order) == nodes.Keys
  {
    DistinctCount(order);
    assert |nodes.Keys - Elems(order)| == |nodes.Keys| - |Elems(order)|;
  }

  lemma IndexListed(nodes: Nodes, order: seq<Name>, n: Name)
    requires DistinctIndices(nodes) && Elems(order) <= nodes.Keys && n in nodes
    ensures nodes[n].fileIndex in IndicesOf(nodes, order) <==> n in order
  {
    var result := IndicesOf(nodes, order);
    if n in order {
      var i :| 0 <= i < |order| && order[i] == n;
      assert result[i] == nodes[n].fileIndex;
    }
    if nodes[n].fileIndex in result {
      var i :| 0 <= i < |result| && result[i] == nodes[n].fileIndex;
      assert order[i] in Elems(order);
    }
  }

  /** The fallback loop: lists the nodes that `order0` left out. */
  method AppendRemaining(nodes: Nodes, result0: seq<nat>, ghost order0: seq<Name>)
    returns (result: seq<nat>, ghost order: seq<Name>)
    requires DistinctIndices(nodes) && NoDup(order0) && Elems(order0) <= nodes.Keys
    requires result0 == IndicesOf(nodes, order0)
    ensures NoDup(order) && Elems(order) == nodes.Keys && order0 <= order
    ensures result == IndicesOf(nodes, order)
  {
    result, order := result0, order0;
    var rest := nodes.Keys;
    while rest != {}
      invariant rest <= nodes.Keys && NoDup(order) && order0 <= order
      invariant Elems(order) == Elems(order0) + (nodes.Keys - rest)
      invariant result == IndicesOf(nodes, order)
    {
      var n :| n in rest;
      IndexListed(nodes, order, n);
      if nodes[n].fileIndex !in result {
        ghost var longer := order + [n];
        assert Elems(longer) == Elems(order) + {n};
        result := result + [nodes[n].fileIndex];
        order := longer;
      } else {
        assert n in Elems(order);
      }
      rest := rest - {n};
    }
  }

  lemma IndicesComplete(nodes: Nodes, order: seq<Name>)
    requires DistinctIndices(nodes) && NoDup(order) && Elems(order) == nodes.Keys
    ensures NoDup(IndicesOf(nodes, order)) && Elems(IndicesOf(nodes, order)) == Indices(nodes)
  {
    var result := IndicesOf(nodes, order);
    assert forall i :: 0 <= i < |order| ==> order[i] in Elems(order);
    forall n | n in nodes ensures nodes[n].fileIndex in result {
      assert n in Elems(order);
      IndexListed(nodes, order, n);
    }
    forall k | k in result ensures k in Indices(nodes) {
      var i :| 0 <= i < |result| && result[i] == k;
      assert nodes[order[i]].fileIndex == k;
    }
  }

  lemma BeforeIndices(nodes: Nodes, order: seq<Name>, i: nat, j: nat)
    requires Elems(order) <= nodes.Keys && i < j < |order|
    ensures order[i] in nodes && order[j] in nodes
    ensures Before(IndicesOf(nodes, order), nodes[order[i]].fileIndex, nodes[order[j]].fileIndex)
  {
    assert order[i] in Elems(order) && order[j] in Elems(order);
    var result := IndicesOf(nodes, order);
    assert result[i] == nodes[order[i]].fileIndex && result[j] == nodes[order[j]].fileIndex;
  }

  lemma PositionBeyond(emitted: seq<Name>, order: seq<Name>, v: Name) returns (j: nat)
    requires emitted <= order && v in order && v !in emitted
    ensures |emitted| <= j < |order| && order[j] == v
  {
    var tail := order[|emitted|..];
    assert order == emitted + tail;
    var k :| 0 <= k < |tail| && tail[k] == v;
    j := |emitted| + k;
  }

  /** The emitted nodes, then all others, make a compilation order. */
  lemma CompletedOrder(nodes: Nodes, e: Edges, emitted: seq<Name>, order: seq<Name>)
    requires EdgesWithin(e, nodes) && DistinctIndices(nodes)
    requires PredsFirst(e, emitted) && forall n :: n in nodes ==> (n in emitted <==> !Tainted(e, n))
    requires emitted <= order && NoDup(order) && Elems(order) == nodes.Keys
    ensures IsCompilationOrder(nodes, e, IndicesOf(nodes, order))
  {
    IndicesComplete(nodes, order);
    var result := IndicesOf(nodes, order);
    forall u, v | v in Succ(e, u) && !Tainted(e, v)
      ensures Before(result, nodes[u].fileIndex, nodes[v].fileIndex)
    {
      var j :| 0 <= j < |emitted| && emitted[j] == v;
      var i :| 0 <= i < j && emitted[i] == u;
      BeforeIndices(nodes, order, i, j);
    }
    forall u, v | u in nodes && v in nodes && !Tainted(e, u) && Tainted(e, v)
      ensures Before(result, nodes[u].fileIndex, nodes[v].fileIndex)
    {
      var i :| 0 <= i < |emitted| && emitted[i] == u;
      assert v in Elems(order);
      var j := PositionBeyond(emitted, order, v);
      BeforeIndices(nodes, order, i, j);
    }
  }

  // ---------- transitive closure ----------

  method Discover(neighbors: set<Name>, found0: set<Name>, toVisit0: seq<Name>)
    returns (found: set<Name>, toVisit: seq<Name>, ghost added: seq<Name>)
    ensures found == found0 + neighbors
    ensures toVisit == toVisit0 + added && Elems(added) == neighbors - found0
  {
    found, toVisit, added := found0, toVisit0, [];
    var rest := neighbors;
    while rest != {}
      invariant rest <= neighbors && found == found0 + (neighbors - rest)
      invariant toVisit == toVisit0 + added && Elems(added) == (neighbors - rest) - found0
    {
      var n :| n in rest;
      if n !in found {
        found := found + {n};
        toVisit := toVisit + [n];
        added := added + [n];
        assert Elems(added) == Elems(added[..|added| - 1]) + {n};
      }
      rest := rest - {n};
    }
  }

  /** The worklist search behind both closure queries: the nodes reached from `start` in one or more steps. */
  method SearchFrom(edges: Edges, start: Name) returns (found: set<Name>)
    ensures forall v :: v in found <==> Reaches(edges, start, v)
  {
    found := {};
    var toVisit := [start];
    ghost var universe := set u, v | u in edges.Keys && v in edges[u] :: v;
    while toVisit != []
      invariant found <= universe
      invariant forall v :: v in found ==> Reaches(edges, start, v)
      invariant forall x :: x in toVisit ==> x == start || x in found
      invariant forall x :: (x == start || x in found) && x !in toVisit ==> Succ(edges, x) <= found
      decreases universe - found, |toVisit|
    {
      var current := toVisit[0];
      ghost var found0, toVisit0 := found, toVisit;
      ghost var added := [];
      toVisit := toVisit[1..];
      if current in edges {
        forall v | v in edges[current] ensures Reaches(edges, start, v) {
          StepReaches(edges, current, v);
          if current != start {
            ReachesTransitive(edges, start, current, v);
          }
        }
        found, toVisit, added := Discover(edges[current], found, toVisit);
        if added != [] {
          assert added[0] in Elems(added);
        }
      }
      forall x | x in toVisit ensures x == start || x in found {
        if x !in toVisit0 {
          assert x in Elems(added);
        }
      }
      forall x | (x == start || x in found) && x !in toVisit ensures Succ(edges, x) <= found {
        if x != current {
          assert x !in Elems(added);
          assert x !in toVisit0;
        }
      }
    }
    forall v | Reaches(edges, start, v) ensures v in found {
      var p :| WalkBetween(edges, p, start, v);
      ClosedSetCatchesWalk(edges, found, p);
    }
  }

  // ---------- the graph ----------

  /** File `v` imports the file named `u`. */
  ghost predicate Imports(files: seq<HaxeFile>, v: Name, u: Name) {
    exists i :: 0 <= i < |files| && files[i].qualifiedName == v && u in files[i].imports
  }

  /** File `i` is the last one of its name. */
  ghost predicate IsLast(files: seq<HaxeFile>, i: nat) {
    i < |files| && forall j :: i < j < |files| ==> files[j].qualifiedName != files[i].qualifiedName
  }

  /** Every name has the node of the last file so named. */
  ghost predicate NodesOf(files: seq<HaxeFile>, nodes: Nodes) {
    && (forall i :: 0 <= i < |files| ==> files[i].qualifiedName in nodes)
    && forall n :: n in nodes ==>
         && IsLast(files, nodes[n].fileIndex)
         && nodes[n].qualifiedName == n == files[nodes[n].fileIndex].qualifiedName
         && nodes[n].filePath == files[nodes[n].fileIndex].filename
  }

  ghost predicate EdgesOf(files: seq<HaxeFile>, nodes: Nodes, e: Edges) {
    forall u, v :: v in Succ(e, u) <==> u in nodes && Imports(files, v, u)
  }

  class DependencyGraph {
    var nodes: Nodes
    var edges: Edges
    var reverseEdges: Edges

    ghost predicate Valid()
      reads this
    {
      EdgesWithin(edges, nodes) && DistinctIndices(nodes) && Converse(edges, reverseEdges)
    }

    constructor ()
      ensures Valid() && nodes == map[] && edges == map[] && reverseEdges == map[]
    {
      nodes, edges, reverseEdges := map[], map[], map[];
    }

    method AddEdge(from: Name, to: Name)
      modifies this`edges, this`reverseEdges
      ensures edges == WithEdge(old(edges), from, to)
      ensures reverseEdges == WithEdge(old(reverseEdges), to, from)
      ensures old(Converse(edges, reverseEdges)) ==> Converse(edges, reverseEdges)
      ensures forall u, v :: v in Succ(edges, u) <==> v in Succ(old(edges), u) || (u, v) == (from, to)
    {
      edges := edges[from := (if from in edges then edges[from] else {}) + {to}];
      reverseEdges := reverseEdges[to := (if to in reverseEdges then reverseEdges[to] else {}) + {from}];
      if old(Converse(edges, reverseEdges)) {
        ConverseWithEdge(old(edges), old(reverseEdges), from, to);
      }
    }

    /** The first pass: later files replace earlier ones of the same name. */
    method RegisterFiles(files: seq<HaxeFile>)
      requires nodes == map[]
      modifies this`nodes
      ensures NodesOf(files, nodes)
    {
      for index := 0 to |files|
        invariant NodesOf(files[..index], nodes)
      {
        var name := files[index].qualifiedName;
        nodes := nodes[name := FileNode(name, files[index].filename, index)];
        assert files[..index + 1] == files[..index] + [files[index]];
      }
      assert files[..|files|] == files;
    }

    /** The second pass, for one file: edges from its imports that name a registered file. */
    method AddImports(file: HaxeFile)
      requires file.qualifiedName in nodes && Valid()
      modifies this`edges, this`reverseEdges
      ensures Valid()
      ensures forall u, v :: v in Succ(edges, u) <==>
        v in Succ(old(edges), u) || (v == file.qualifiedName && u in file.imports && u in nodes)
    {
      for i := 0 to |file.imports|
        invariant Valid()
        invariant forall u, v :: v in Succ(edges, u) <==>
          v in Succ(old(edges), u) || (v == file.qualifiedName && u in file.imports[..i] && u in nodes)
      {
        var imported := file.imports[i];
        if imported in nodes {
          AddEdge(imported, file.qualifiedName);
        }
        assert file.imports[..i + 1] == file.imports[..i] + [imported];
      }
      assert file.imports[..|file.imports|] == file.imports;
    }

    static method FromFiles(files: seq<HaxeFile>) returns (graph: DependencyGraph)
      ensures fresh(graph) && graph.Valid()
      ensures NodesOf(files, graph.nodes) && EdgesOf(files, graph.nodes, graph.edges)
    {
      graph := new DependencyGraph();
      graph.RegisterFiles(files);
      for index := 0 to |files|
        invariant fresh(graph) && graph.Valid() && NodesOf(files, graph.nodes)
        invariant EdgesOf(files[..index], graph.nodes, graph.edges)
      {
        ghost var before := graph.edges;
        graph.AddImports(files[index]);
        ImportsOneMore(files, index, graph.nodes, before, graph.edges);
      }
      assert files[..|files|] == files;
    }

    method TopologicalSort() returns (result: seq<nat>)
      requires Valid()
      ensures IsCompilationOrder(nodes, edges, result)
    {
      var inDegree := InDegrees(nodes, edges);
      ghost var emitted, order;
      result, emitted := KahnPhase(nodes, edges, inDegree);
      order := emitted;
      if |result| < |nodes| {
        result, order := AppendRemaining(nodes, result, emitted);
      } else {
        EmittedAll(nodes, emitted);
      }
      CompletedOrder(nodes, edges, emitted, order);
    }

    method DetectAllCycles() returns (cycles: seq<CircularDependency>)
      requires Valid()
      ensures cycles == [] <==> Acyclic(edges)
      ensures forall i :: 0 <= i < |cycles| ==> IsReportedCycle(nodes, edges, cycles[i])
      ensures forall n :: OnCycle(edges, n) ==> ComponentReported(edges, cycles, n)
    {
      var search := new CycleSearch(nodes, edges);
      var rest := nodes.Keys;
      while rest != {}
        invariant rest <= nodes.Keys && search.Valid() && search.nodes == nodes && search.edges == edges
        invariant search.path == [] && nodes.Keys - rest <= search.visited
        invariant fresh(search)
        decreases rest
      {
        var n :| n in rest;
        if n !in search.visited {
          search.Visit(n);
        }
        rest := rest - {n};
      }
      cycles := search.cycles;
      forall n | OnCycle(edges, n) ensures ComponentReported(edges, cycles, n) {
        CyclesAreReported(edges, search.finished, cycles, n);
      }
      if cycles != [] {
        ReportedCycleIsCycle(nodes, edges, cycles[0]);
      }
    }

    method Analyze() returns (analysis: DependencyAnalysis)
      requires Valid()
      ensures IsCompilationOrder(nodes, edges, analysis.compilationOrder)
      ensures analysis.circularDependencies == [] <==> Acyclic(edges)
      ensures forall i :: 0 <= i < |analysis.circularDependencies| ==>
        IsReportedCycle(nodes, edges, analysis.circularDependencies[i])
      ensures forall n :: OnCycle(edges, n) ==> ComponentReported(edges, analysis.circularDependencies, n)
    {
      var cycles := DetectAllCycles();
      var order := TopologicalSort();
      analysis := DependencyAnalysis(order, cycles);
    }

    method GetAllDependencies(package: Name) returns (deps: set<Name>)
      ensures forall v :: v in deps <==> Reaches(edges, package, v)
    {
      deps := SearchFrom(edges, package);
    }

    method GetAllDependents(package: Name) returns (dependents: set<Name>)
      requires Valid()
      ensures forall v :: v in dependents <==> Reaches(edges, v, package)
    {
      dependents := SearchFrom(reverseEdges, package);
      forall v ensures v in dependents <==> Reaches(edges, v, package) {
        ConverseReaches(edges, reverseEdges, v, package);
      }
    }
  }

  lemma ImportsOneMore(files: seq<HaxeFile>, index: nat, nodes: Nodes, before: Edges, after: Edges)
    requires index < |files| && EdgesOf(files[..index], nodes, before)
    requires forall u, v :: v in Succ(after, u) <==>
      v in Succ(before, u) || (v == files[index].qualifiedName && u in files[index].imports && u in nodes)
    ensures EdgesOf(files[..index + 1], nodes, after)
  {
  }

  // ---------- what the analysis says of the files ----------

  ghost predicate DistinctNames(files: seq<HaxeFile>) {
    forall i, j :: 0 <= i < j < |files| ==> files[i].qualifiedName != files[j].qualifiedName
  }

  /** The order lists every file exactly once if and only if no two files have the same name. */
  lemma OrderCoversFiles(files: seq<HaxeFile>, nodes: Nodes, e: Edges, order: seq<nat>)
    requires NodesOf(files, nodes) && EdgesWithin(e, nodes) && IsCompilationOrder(nodes, e, order)
    ensures (forall k: nat :: k in order <==> k < |files|) <==> DistinctNames(files)
  {
    assert forall k :: k in order <==> k in Elems(order);
    if DistinctNames(files) {
      forall k: nat ensures k in order <==> k < |files| {
        if k < |files| {
          var n := files[k].qualifiedName;
          assert nodes[n].fileIndex == k;
        }
      }
    } else {
      var i, j :| 0 <= i < j < |files| && files[i].qualifiedName == files[j].qualifiedName;
      assert i !in Indices(nodes);
    }
  }

  /** Of two files with one name, the first is never compiled. */
  lemma SameNameHidesFile(files: seq<HaxeFile>, nodes: Nodes, e: Edges, order: seq<nat>)
    requires files == [HaxeFile("a", "x/a.hx", []), HaxeFile("a", "y/a.hx", [])]
    requires NodesOf(files, nodes) && EdgesWithin(e, nodes) && IsCompilationOrder(nodes, e, order)
    ensures 0 !in order && 1 in order
  {
    assert files[0].qualifiedName == "a" && files[1].qualifiedName == "a";
    assert nodes["a"].fileIndex == 1;
    assert forall k :: k in order <==> k in Elems(order);
  }

  /** Depth-first search and Kahn's algorithm agree: with no cycle, the order puts every dependency
      before every dependent; with one, some dependency cannot come first. */
  lemma AcyclicIffFullyOrdered(nodes: Nodes, e: Edges, order: seq<nat>)
    requires EdgesWithin(e, nodes) && DistinctIndices(nodes) && IsCompilationOrder(nodes, e, order)
    ensures Acyclic(e) <==>
      forall u, v :: v in Succ(e, u) ==> Before(order, nodes[u].fileIndex, nodes[v].fileIndex)
  {
    if Acyclic(e) {
      AcyclicIffUntainted(e);
    } else {
      var n :| OnCycle(e, n);
      var p :| WalkBetween(e, p, n, n);
      if forall u, v :: v in Succ(e, u) ==> Before(order, nodes[u].fileIndex, nodes[v].fileIndex) {
        OrderedWalk(nodes, e, order, p);
      }
    }
  }

  lemma {:induction false} OrderedWalk(nodes: Nodes, e: Edges, order: seq<nat>, p: seq<Name>)
    requires EdgesWithin(e, nodes) && NoDup(order) && IsWalk(e, p) && |p| >= 2
    requires forall u, v :: v in Succ(e, u) ==> Before(order, nodes[u].fileIndex, nodes[v].fileIndex)
    ensures p[0] in nodes && p[|p| - 1] in nodes && p[0] != p[|p| - 1]
    ensures Before(order, nodes[p[0]].fileIndex, nodes[p[|p| - 1]].fileIndex)
  {
    var last := |p| - 1;
    assert p[last] in Succ(e, p[last - 1]);
    if last > 1 {
      OrderedWalk(nodes, e, order, p[..last]);
      var i, j :| 0 <= i < j < |order| && order[i] == nodes[p[0]].fileIndex && order[j] == nodes[p[last - 1]].fileIndex;
      assert Before(order, nodes[p[last - 1]].fileIndex, nodes[p[last]].fileIndex);
      var k, l :| 0 <= k < l < |order|
               && order[k] == nodes[p[last - 1]].fileIndex && order[l] == nodes[p[last]].fileIndex;
      assert j == k;
    }
  }

  // ---------- what the forward query returns ----------

  /** Of two files, the second importing the first, the importer has a dependency and an empty forward set. */
  lemma ImporterHasNoForwardSet(files: seq<HaxeFile>, nodes: Nodes, e: Edges)
    requires NodesOf(files, nodes) && EdgesOf(files, nodes, e)
    requires files == [HaxeFile("a", "a.hx", []), HaxeFile("b", "b.hx", ["a"])]
    ensures Reaches(e, "a", "b") && forall v :: !Reaches(e, "b", v)
  {
    assert files[0].qualifiedName == "a" && files[1].qualifiedName == "b" && files[1].imports == ["a"];
    assert "a" in files[1].imports && Imports(files, "b", "a");
    StepReaches(e, "a", "b");
    assert Succ(e, "b") == {};
    forall v ensures !Reaches(e, "b", v) {
      if Reaches(e, "b", v) {
        ReachesHasEdge(e, "b", v);
      }
    }
  }
}
