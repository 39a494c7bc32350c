/** Directed graphs over names, as adjacency maps: walks, reachability, cycles, and the two ordering
    arguments on which depth-first search and Kahn's algorithm rest. */
module Digraph {
  import opened Sequences

  type Name = string
  type Edges = map<Name, set<Name>>

  function Succ(e: Edges, u: Name): set<Name> {
    if u in e then e[u] else {}
  }

  /** The members of `dom` that have an edge to `n`. */
  function PredsIn(e: Edges, n: Name, dom: set<Name>): set<Name> {
    set u | u in dom && n in Succ(e, u)
  }

  /** Every step of `p` follows an edge. */
  ghost predicate IsWalk(e: Edges, p: seq<Name>) {
    |p| > 0 && forall i :: 0 < i < |p| ==> p[i] in Succ(e, p[i - 1])
  }

  ghost predicate WalkBetween(e: Edges, p: seq<Name>, u: Name, v: Name) {
    |p| >= 2 && IsWalk(e, p) && p[0] == u && p[|p| - 1] == v
  }

  /** `v` can be reached from `u` in one or more steps. */
  ghost predicate Reaches(e: Edges, u: Name, v: Name) {
    exists p :: WalkBetween(e, p, u, v)
  }

  ghost predicate OnCycle(e: Edges, n: Name) {
    Reaches(e, n, n)
  }

  ghost predicate Acyclic(e: Edges) {
    forall n :: !OnCycle(e, n)
  }

  /** `n` lies on a cycle or downstream of one. */
  ghost predicate Tainted(e: Edges, n: Name) {
    exists c :: OnCycle(e, c) && (c == n || Reaches(e, c, n))
  }

  /** `r` holds exactly the edges of `e`, turned around. */
  ghost predicate Converse(e: Edges, r: Edges) {
    forall u, v :: v in Succ(e, u) <==> u in Succ(r, v)
  }

  // ---------- reachability ----------

  lemma StepReaches(e: Edges, u: Name, v: Name)
    requires v in Succ(e, u)
    ensures Reaches(e, u, v)
  {
    assert WalkBetween(e, [u, v], u, v);
  }

  lemma ReachesTransitive(e: Edges, u: Name, v: Name, w: Name)
    requires Reaches(e, u, v) && Reaches(e, v, w)
    ensures Reaches(e, u, w)
  {
    var p :| WalkBetween(e, p, u, v);
    var q :| WalkBetween(e, q, v, w);
    var r := p + q[1..];
    forall i | 0 < i < |r| ensures r[i] in Succ(e, r[i - 1]) {
      if i >= |p| {
        assert r[i] == q[i - |p| + 1] && r[i - 1] == q[i - |p|];
      }
    }
    assert WalkBetween(e, r, u, w);
  }

  /** A set that contains the successors of `u` and of all its own members holds all that `u` reaches. */
  lemma {:induction false} ClosedSetCatchesWalk(e: Edges, s: set<Name>, p: seq<Name>)
    requires IsWalk(e, p) && |p| >= 2
    requires Succ(e, p[0]) <= s && forall x :: x in s ==> Succ(e, x) <= s
    ensures p[|p| - 1] in s
  {
    if |p| == 2 {
      assert p[1] in Succ(e, p[0]);
    } else {
      var q := p[..|p| - 1];
      ClosedSetCatchesWalk(e, s, q);
      assert p[|p| - 1] in Succ(e, p[|p| - 2]);
    }
  }

  lemma {:induction false} ReversedWalk(e: Edges, r: Edges, p: seq<Name>) returns (q: seq<Name>)
    requires Converse(e, r) && IsWalk(e, p)
    ensures IsWalk(r, q) && |q| == |p| && q[0] == p[|p| - 1] && q[|q| - 1] == p[0]
  {
    if |p| == 1 {
      q := p;
    } else {
      var front := p[..|p| - 1];
      var back := ReversedWalk(e, r, front);
      q := [p[|p| - 1]] + back;
      assert p[|p| - 1] in Succ(e, p[|p| - 2]);
    }
  }

  lemma ConverseReaches(e: Edges, r: Edges, u: Name, v: Name)
    requires Converse(e, r)
    ensures Reaches(e, u, v) <==> Reaches(r, v, u)
  {
    if Reaches(e, u, v) {
      var p :| WalkBetween(e, p, u, v);
      var q := ReversedWalk(e, r, p);
      assert WalkBetween(r, q, v, u);
    }
    if Reaches(r, v, u) {
      var p :| WalkBetween(r, p, v, u);
      var q := ReversedWalk(r, e, p);
      assert WalkBetween(e, q, u, v);
    }
  }

  // ---------- orders and cycles ----------

  /** Every listed node comes after all its predecessors. */
  ghost predicate PredsFirst(e: Edges, order: seq<Name>) {
    forall i, u :: 0 <= i < |order| && order[i] in Succ(e, u) ==> u in order[..i]
  }

  /** Every listed node comes after all its successors. */
  ghost predicate SuccsFirst(e: Edges, order: seq<Name>) {
    forall i, v :: 0 <= i < |order| && v in Succ(e, order[i]) ==> v in order[..i]
  }

  lemma {:induction false} WalkEntersEarlier(e: Edges, order: seq<Name>, p: seq<Name>, i: nat)
    requires PredsFirst(e, order) && IsWalk(e, p) && |p| >= 2
    requires i < |order| && order[i] == p[|p| - 1]
    ensures p[0] in order[..i]
  {
    var before := p[|p| - 2];
    assert p[|p| - 1] in Succ(e, before);
    assert before in order[..i];
    if |p| > 2 {
      var j :| 0 <= j < i && order[j] == before;
      WalkEntersEarlier(e, order, p[..|p| - 1], j);
    }
  }

  lemma {:induction false} WalkLeavesEarlier(e: Edges, order: seq<Name>, p: seq<Name>, i: nat)
    requires SuccsFirst(e, order) && IsWalk(e, p) && |p| >= 2
    requires i < |order| && order[i] == p[0]
    ensures p[|p| - 1] in order[..i]
  {
    assert p[1] in Succ(e, p[0]);
    assert p[1] in order[..i];
    if |p| > 2 {
      var j :| 0 <= j < i && order[j] == p[1];
      WalkLeavesEarlier(e, order, p[1..], j);
    }
  }

  /** A node that was listed after all its predecessors is neither on a cycle nor behind one. */
  lemma OrderedIsUntainted(e: Edges, order: seq<Name>, n: Name)
    requires PredsFirst(e, order) && NoDup(order) && n in order
    ensures !Tainted(e, n)
  {
    if Tainted(e, n) {
      var c :| OnCycle(e, c) && (c == n || Reaches(e, c, n));
      var i :| 0 <= i < |order| && order[i] == n;
      if c != n {
        var p :| WalkBetween(e, p, c, n);
        WalkEntersEarlier(e, order, p, i);
      }
      var k :| 0 <= k < |order| && order[k] == c;
      var q :| WalkBetween(e, q, c, c);
      WalkEntersEarlier(e, order, q, k);
      assert false;
    }
  }

  /** An order of all nodes in which successors come first leaves no room for a cycle. */
  lemma FinishOrderAcyclic(e: Edges, order: seq<Name>)
    requires SuccsFirst(e, order) && NoDup(order) && e.Keys <= Elems(order)
    ensures Acyclic(e)
  {
    forall n ensures !OnCycle(e, n) {
      if OnCycle(e, n) {
        var p :| WalkBetween(e, p, n, n);
        assert p[1] in Succ(e, p[0]);
        assert n in Elems(order);
        var i :| 0 <= i < |order| && order[i] == n;
        WalkLeavesEarlier(e, order, p, i);
        assert false;
      }
    }
  }

  /** In a finite set where every member has a predecessor inside the set, every member is tainted:
      walking backwards from it must revisit a node. `p` is the walk so far. */
  lemma {:induction false} BackwardWalkMeetsCycle(e: Edges, s: set<Name>, p: seq<Name>)
    requires forall n :: n in s ==> PredsIn(e, n, s) != {}
    requires IsWalk(e, p) && Elems(p) <= s
    ensures Tainted(e, p[|p| - 1])
    decreases s - Elems(p)
  {
    assert p[0] in Elems(p);
    var u :| u in PredsIn(e, p[0], s);
    var q := [u] + p;
    assert IsWalk(e, q);
    if u in p {
      var k :| 0 <= k < |p| && p[k] == u;
      assert WalkBetween(e, q[..k + 2], u, u);
      assert WalkBetween(e, q, u, p[|p| - 1]);
      assert OnCycle(e, u) && Reaches(e, u, p[|p| - 1]);
    } else {
      assert u in Elems(q) && u !in Elems(p);
      assert Elems(p) < Elems(q);
      BackwardWalkMeetsCycle(e, s, q);
      assert q[|q| - 1] == p[|p| - 1];
    }
  }

  lemma NoSourceMeansTainted(e: Edges, s: set<Name>, n: Name)
    requires forall x :: x in s ==> PredsIn(e, x, s) != {}
    requires n in s
    ensures Tainted(e, n)
  {
    assert Elems([n]) == {n};
    BackwardWalkMeetsCycle(e, s, [n]);
  }

  lemma AcyclicIffUntainted(e: Edges)
    ensures Acyclic(e) <==> forall n :: !Tainted(e, n)
  {
    if !Acyclic(e) {
      var n :| OnCycle(e, n);
      assert Tainted(e, n);
    }
  }

  // ---------- strongly connected components ----------

  ghost predicate SameComponent(e: Edges, u: Name, v: Name) {
    u == v || (Reaches(e, u, v) && Reaches(e, v, u))
  }

  /** The edges inside the component of `n`. */
  ghost function Inside(e: Edges, n: Name): Edges {
    map u | u in e && SameComponent(e, n, u) :: set v | v in e[u] && SameComponent(e, n, v)
  }

  /** Every node of a closed walk is in the component of its end. */
  lemma ClosedWalkInside(e: Edges, p: seq<Name>, n: Name, i: nat)
    requires WalkBetween(e, p, n, n) && i < |p|
    ensures SameComponent(e, n, p[i])
  {
    if 0 < i < |p| - 1 {
      assert WalkBetween(e, p[..i + 1], n, p[i]);
      assert WalkBetween(e, p[i..], p[i], n);
    }
  }

  /** A node on a cycle is on one inside its component. */
  lemma CycleInside(e: Edges, n: Name)
    requires OnCycle(e, n)
    ensures OnCycle(Inside(e, n), n)
  {
    var p :| WalkBetween(e, p, n, n);
    var inner := Inside(e, n);
    forall i | 0 < i < |p| ensures p[i] in Succ(inner, p[i - 1]) {
      ClosedWalkInside(e, p, n, i);
      ClosedWalkInside(e, p, n, i - 1);
    }
    assert WalkBetween(inner, p, n, n);
  }

  // ---------- forward and backward sets ----------

  /** The edges in both directions. */
  function Both(e: Edges, r: Edges): Edges {
    map u | u in e.Keys + r.Keys :: Succ(e, u) + Succ(r, u)
  }

  lemma ReachesInBoth(e: Edges, r: Edges, u: Name, v: Name)
    requires Reaches(e, u, v) || Reaches(r, u, v)
    ensures Reaches(Both(e, r), u, v)
  {
    if Reaches(e, u, v) {
      var p :| WalkBetween(e, p, u, v);
      assert WalkBetween(Both(e, r), p, u, v);
    } else {
      var p :| WalkBetween(r, p, u, v);
      assert WalkBetween(Both(e, r), p, u, v);
    }
  }

  /** What `p` reaches forwards is what reaches it. */
  ghost predicate ForwardIsBackward(e: Edges, p: Name) {
    forall v :: Reaches(e, p, v) <==> Reaches(e, v, p)
  }

  lemma ForwardSetClosed(e: Edges, r: Edges, p: Name, s: set<Name>)
    requires Converse(e, r) && ForwardIsBackward(e, p)
    requires forall v :: v in s <==> v == p || Reaches(e, p, v)
    ensures forall x :: x in s ==> Succ(Both(e, r), x) <= s
  {
    forall x, y | x in s && y in Succ(Both(e, r), x) ensures y in s {
      if y in Succ(e, x) {
        StepReaches(e, x, y);
        if x != p {
          ReachesTransitive(e, p, x, y);
        }
      } else {
        assert x in Succ(e, y);
        StepReaches(e, y, x);
        if x != p {
          ReachesTransitive(e, y, x, p);
        }
      }
    }
  }

  /** The forward and the backward set of `p` are one set exactly when every name that is linked to `p` by
      edges in whatever direction lies in one component with it. */
  lemma ForwardIsBackwardIff(e: Edges, r: Edges, p: Name)
    requires Converse(e, r)
    ensures ForwardIsBackward(e, p) <==> forall v :: Reaches(Both(e, r), p, v) ==> SameComponent(e, p, v)
  {
    if ForwardIsBackward(e, p) {
      var s := {p} + set u, v | u in e.Keys && v in e[u] && Reaches(e, p, v) :: v;
      forall v | Reaches(e, p, v) ensures v in s {
        var q :| WalkBetween(e, q, p, v);
        assert v in Succ(e, q[|q| - 2]);
      }
      ForwardSetClosed(e, r, p, s);
      forall v | Reaches(Both(e, r), p, v) ensures SameComponent(e, p, v) {
        var q :| WalkBetween(Both(e, r), q, p, v);
        ClosedSetCatchesWalk(Both(e, r), s, q);
      }
    }
    if forall v :: Reaches(Both(e, r), p, v) ==> SameComponent(e, p, v) {
      forall v ensures Reaches(e, p, v) <==> Reaches(e, v, p) {
        if Reaches(e, p, v) {
          ReachesInBoth(e, r, p, v);
        }
        if Reaches(e, v, p) {
          ConverseReaches(e, r, v, p);
          ReachesInBoth(e, r, p, v);
        }
      }
    }
  }

  lemma ReturnIsCycle(e: Edges, u: Name, v: Name)
    requires v in Succ(e, u) && Reaches(e, v, u)
    ensures OnCycle(e, u)
  {
    StepReaches(e, u, v);
    ReachesTransitive(e, u, v, u);
  }

  lemma ReachesHasEdge(e: Edges, u: Name, v: Name)
    requires Reaches(e, u, v)
    ensures Succ(e, u) != {}
  {
    var p :| WalkBetween(e, p, u, v);
    assert p[1] in Succ(e, u);
  }

  /** Without cycles, that takes a node that no edge touches. */
  lemma AcyclicForwardIsBackwardIff(e: Edges, r: Edges, p: Name)
    requires Converse(e, r) && Acyclic(e)
    ensures ForwardIsBackward(e, p) <==> Succ(e, p) == {} && Succ(r, p) == {}
  {
    if ForwardIsBackward(e, p) {
      if v :| v in Succ(e, p) {
        StepReaches(e, p, v);
        ReturnIsCycle(e, p, v);
      }
      if v :| v in Succ(r, p) {
        StepReaches(e, v, p);
        ReturnIsCycle(e, v, p);
      }
    }
    if Succ(e, p) == {} && Succ(r, p) == {} {
      forall v ensures !Reaches(e, p, v) && !Reaches(e, v, p) {
        if Reaches(e, p, v) {
          ReachesHasEdge(e, p, v);
        }
        if Reaches(e, v, p) {
          ConverseReaches(e, r, v, p);
          ReachesHasEdge(r, p, v);
        }
      }
    }
  }
}
