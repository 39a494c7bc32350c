/** Sequences seen as collections. */
module Sequences {
  ghost predicate NoDup<T(!new)>(s: seq<T>) {
    forall i, j :: 0 <= i < j < |s| ==> s[i] != s[j]
  }

  function Elems<T>(s: seq<T>): set<T> {
    set x | x in s
  }

  // ---------- texts that a terminator ends ----------

  /** Where the first `end` stands. */
  function EndAt<T(==)>(s: seq<T>, end: T): nat {
    if s == [] || s[0] == end then 0 else 1 + EndAt(s[1..], end)
  }

  lemma {:induction false} EndAfterText<T>(n: seq<T>, end: T, rest: seq<T>)
    requires end !in n
    ensures EndAt(n + [end] + rest, end) == |n|
  {
    var s := n + [end] + rest;
    if n != [] {
      assert s[0] == n[0];
      assert s[1..] == n[1..] + [end] + rest;
      EndAfterText(n[1..], end, rest);
    }
  }

  lemma Cancel<T>(head: seq<T>, x: seq<T>, y: seq<T>)
    requires head + x == head + y
    ensures x == y
  {
    assert x == (head + x)[|head|..] && y == (head + y)[|head|..];
  }

  /** A terminated text is read back alone, whatever follows it. */
  lemma TerminatedPrefix<T>(n: seq<T>, m: seq<T>, end: T, x: seq<T>, y: seq<T>)
    requires end !in n && end !in m
    requires n + [end] + x == m + [end] + y
    ensures n == m && x == y
  {
    EndAfterText(n, end, x);
    EndAfterText(m, end, y);
    var whole := n + [end] + x;
    assert n == whole[..|n|] && m == whole[..|n|];
    assert x == whole[|n| + 1..] && y == whole[|n| + 1..];
  }

  // ---------- sorting ----------

  ghost predicate TotalPreorder<T(!new)>(le: (T, T) -> bool) {
    && (forall p, q :: le(p, q) || le(q, p))
    && (forall p, q, r :: le(p, q) && le(q, r) ==> le(p, r))
  }

  ghost predicate Ordered<T(!new)>(le: (T, T) -> bool, s: seq<T>) {
    forall i, j :: 0 <= i < j < |s| ==> le(s[i], s[j])
  }

  /** Puts `p` in front of the first member that it is not after. */
  function Insert<T>(le: (T, T) -> bool, p: T, s: seq<T>): (r: seq<T>)
    ensures multiset(r) == multiset([p]) + multiset(s)
  {
    if s == [] then [p]
    else if le(p, s[0]) then [p] + s
    else
      assert s == [s[0]] + s[1..];
      [s[0]] + Insert(le, p, s[1..])
  }

  /** The stable sort. */
  function Sort<T>(le: (T, T) -> bool, s: seq<T>): (r: seq<T>)
    ensures multiset(r) == multiset(s)
  {
    if s == [] then []
    else
      assert s == [s[0]] + s[1..];
      Insert(le, s[0], Sort(le, s[1..]))
  }

  lemma {:induction false} InsertOrdered<T(!new)>(le: (T, T) -> bool, p: T, s: seq<T>)
    requires TotalPreorder(le) && Ordered(le, s)
    ensures Ordered(le, Insert(le, p, s))
    decreases |s|
  {
    if s != [] && !le(p, s[0]) {
      InsertOrdered(le, p, s[1..]);
      var t := Insert(le, p, s[1..]);
      forall q | q in t ensures le(s[0], q) {
        assert q in multiset(t);
        assert q == p || q in s[1..];
      }
    }
  }

  lemma {:induction false} SortOrdered<T(!new)>(le: (T, T) -> bool, s: seq<T>)
    requires TotalPreorder(le)
    ensures Ordered(le, Sort(le, s))
    decreases |s|
  {
    if s != [] {
      SortOrdered(le, s[1..]);
      InsertOrdered(le, s[0], Sort(le, s[1..]));
    }
  }
}
