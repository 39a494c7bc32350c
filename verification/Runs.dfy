/** Runs of a step system: `step` gives the next state, or nothing when the action is not enabled. */
module Runs {
  import opened Wrappers

  /** The state after a run, if every action of the run is enabled when its turn comes. */
  function Exec<S, A>(step: (S, A) -> Option<S>, s: S, run: seq<A>): Option<S>
    decreases |run|
  {
    if run == [] then Some(s)
    else
      var next := step(s, run[0]);
      if next.Some? then Exec(step, next.value, run[1..]) else None
  }

  /** What every step keeps, every run keeps. */
  lemma {:induction false} ExecKeeps<S(!new), A(!new)>(
      step: (S, A) -> Option<S>, inv: S -> bool, s: S, run: seq<A>)
    requires forall x, a :: inv(x) && step(x, a).Some? ==> inv(step(x, a).value)
    requires inv(s)
    ensures Exec(step, s, run).Some? ==> inv(Exec(step, s, run).value)
    decreases |run|
  {
    if run != [] && step(s, run[0]).Some? {
      ExecKeeps(step, inv, step(s, run[0]).value, run[1..]);
    }
  }

  lemma {:induction false} ExecAppend<S, A>(step: (S, A) -> Option<S>, s: S, run: seq<A>, a: A)
    requires Exec(step, s, run).Some?
    ensures Exec(step, s, run + [a]) == step(Exec(step, s, run).value, a)
    decreases |run|
  {
    if run == [] {
      assert run + [a] == [a];
      assert [a][1..] == [];
    } else {
      assert (run + [a])[1..] == run[1..] + [a];
      ExecAppend(step, step(s, run[0]).value, run[1..], a);
    }
  }

  /** The last action of a run is taken in the state that the others lead to. */
  lemma ExecLast<S, A>(step: (S, A) -> Option<S>, s: S, run: seq<A>)
    requires run != [] && Exec(step, s, run).Some?
    ensures var before := Exec(step, s, run[..|run| - 1]);
            before.Some? && Exec(step, s, run) == step(before.value, run[|run| - 1])
    decreases |run|
  {
    if |run| == 1 {
      assert run[..0] == [] && run[1..] == [];
    } else {
      ExecLast(step, step(s, run[0]).value, run[1..]);
      assert run[..|run| - 1][1..] == run[1..][..|run| - 2];
    }
  }
}
