/** Build files: splitting the arguments at `--each` and `--next`, and applying them to configurations. */
module HxmlBuilds {
  import opened HxmlArgs
  import opened Wrappers

  // ---------- splitting ----------

  predicate IsEach(a: Arg) {
    a.flag == "--each"
  }

  predicate IsNext(a: Arg) {
    a.flag == "--next"
  }

  predicate IsSeparator(a: Arg) {
    IsEach(a) || IsNext(a)
  }

  /** The first separator after `i` is an `--each`. */
  ghost predicate SharedAt(args: seq<Arg>, i: int)
    requires 0 <= i
  {
    exists j :: i < j < |args| && IsEach(args[j]) && NoneBetween(args, i, j)
  }

  ghost predicate NoneBetween(args: seq<Arg>, i: int, j: int)
    requires 0 <= i && j <= |args|
  {
    forall k :: i < k < j ==> !IsSeparator(args[k])
  }

  /** How many `--next` come before place `n`. */
  function NextsBefore(args: seq<Arg>, n: nat): (k: nat)
    requires n <= |args|
  {
    if n == 0 then 0 else NextsBefore(args, n - 1) + if IsNext(args[n - 1]) then 1 else 0
  }

  ghost predicate Increasing(places: seq<int>) {
    forall a, b :: 0 <= a < b < |places| ==> places[a] < places[b]
  }

  ghost predicate InShared(args: seq<Arg>, i: int) {
    0 <= i < |args| && !IsSeparator(args[i]) && SharedAt(args, i)
  }

  ghost predicate InSection(args: seq<Arg>, k: int, i: int) {
    0 <= i < |args| && !IsSeparator(args[i]) && !SharedAt(args, i) && NextsBefore(args, i) == k
  }

  /** The split of the arguments, by their places: the shared ones are those whose next separator is an
      `--each`, and the rest are divided at the `--next`s; each group keeps their order. */
  ghost predicate IsSplit(args: seq<Arg>, shared: seq<int>, sections: seq<seq<int>>) {
    && Increasing(shared) && (forall i :: i in shared <==> InShared(args, i))
    && |sections| == NextsBefore(args, |args|) + 1
    && forall k :: 0 <= k < |sections| ==> IsSection(args, k, sections[k])
  }

  ghost predicate IsSection(args: seq<Arg>, k: int, places: seq<int>) {
    Increasing(places) && forall i :: i in places <==> InSection(args, k, i)
  }

  ghost predicate Places(args: seq<Arg>, places: seq<int>) {
    forall i :: i in places ==> 0 <= i < |args|
  }

  ghost function Pick(args: seq<Arg>, places: seq<int>): (picked: seq<Arg>)
    requires Places(args, places)
    ensures |picked| == |places|
  {
    seq(|places|, k requires 0 <= k < |places| => assert places[k] in places; args[places[k]])
  }

  ghost predicate SameMembers(s: seq<int>, t: seq<int>) {
    forall i :: i in s <==> i in t
  }

  /** Increasing places with given members are those members in order, so the split is unique. */
  lemma {:induction false} IncreasingUnique(s: seq<int>, t: seq<int>)
    requires Increasing(s) && Increasing(t) && SameMembers(s, t)
    ensures s == t
    decreases |s|
  {
    EmptyIff(t);
    if s == [] {
      forall i ensures i !in t {
        assert i in s <==> i in t;
      }
    } else {
      hide Increasing;
      LastMatches(s, t);
      var n, m := |s| - 1, |t| - 1;
      assert s == s[..n] + [s[n]] && t == t[..m] + [t[m]];
      SameInit(s, t);
      IncreasingUnique(s[..n], t[..m]);
    }
  }

  lemma SameInit(s: seq<int>, t: seq<int>)
    requires Increasing(s) && Increasing(t) && s != [] && t != [] && s[|s| - 1] == t[|t| - 1]
    requires SameMembers(s, t)
    ensures Increasing(s[..|s| - 1]) && Increasing(t[..|t| - 1])
    ensures SameMembers(s[..|s| - 1], t[..|t| - 1])
  {
    hide Increasing;
    var init, other := s[..|s| - 1], t[..|t| - 1];
    forall i ensures i in init <==> i in other {
      WithoutLast(s, i);
      WithoutLast(t, i);
    }
    WithoutLast(s, 0);
    WithoutLast(t, 0);
  }

  lemma WithoutLast(s: seq<int>, i: int)
    requires Increasing(s) && s != []
    ensures i in s[..|s| - 1] <==> i in s && i != s[|s| - 1]
    ensures Increasing(s[..|s| - 1])
  {
  }

  lemma EmptyIff(s: seq<int>)
    ensures s == [] <==> forall i :: i !in s
  {
    if |s| > 0 {
      var i := s[0];
      assert i in s;
    }
  }

  lemma LastMatches(s: seq<int>, t: seq<int>)
    requires Increasing(s) && Increasing(t) && s != [] && SameMembers(s, t)
    ensures t != [] && s[|s| - 1] == t[|t| - 1]
  {
    assert s[|s| - 1] in s;
    assert s[|s| - 1] in t;
    assert t[|t| - 1] in t;
    assert t[|t| - 1] in s;
  }

  lemma SplitUnique(args: seq<Arg>, shared: seq<int>, sections: seq<seq<int>>, other: seq<int>, others: seq<seq<int>>)
    requires IsSplit(args, shared, sections) && IsSplit(args, other, others)
    ensures shared == other && sections == others
  {
    IncreasingUnique(shared, other);
    forall k | 0 <= k < |sections| ensures sections[k] == others[k] {
      assert IsSection(args, k, sections[k]) && IsSection(args, k, others[k]);
      IncreasingUnique(sections[k], others[k]);
    }
  }

  /** Nothing is lost or duplicated: every place that is not a separator is in exactly one group. */
  lemma SplitCovers(args: seq<Arg>, shared: seq<int>, sections: seq<seq<int>>, i: nat)
    requires IsSplit(args, shared, sections) && i < |args|
    ensures IsSeparator(args[i]) ==> i !in shared && forall k :: 0 <= k < |sections| ==> i !in sections[k]
    ensures !IsSeparator(args[i]) ==>
              (i in shared && forall k :: 0 <= k < |sections| ==> i !in sections[k]) ||
              (i !in shared && NextsBefore(args, i) < |sections| &&
               forall k :: 0 <= k < |sections| ==> (i in sections[k] <==> k == NextsBefore(args, i)))
  {
    NextsGrow(args, i, |args|);
    forall k | 0 <= k < |sections| ensures i in sections[k] <==> InSection(args, k, i) {
      assert IsSection(args, k, sections[k]);
    }
  }

  lemma {:induction false} NextsGrow(args: seq<Arg>, i: nat, n: nat)
    requires i <= n <= |args|
    ensures NextsBefore(args, i) <= NextsBefore(args, n)
    decreases n
  {
    if i < n {
      NextsGrow(args, i, n - 1);
    }
  }

  // ---------- the splitting loop ----------

  lemma {:induction false} NextsOfPrefix(args: seq<Arg>, m: nat, n: nat)
    requires n <= m <= |args|
    ensures NextsBefore(args[..m], n) == NextsBefore(args, n)
    decreases n
  {
    if n > 0 {
      NextsOfPrefix(args, m, n - 1);
    }
  }

  /** What one more argument does to the sharing of the places before it: an `--each` shares the places that
      no separator has closed yet, anything else leaves sharing alone. */
  lemma SharedOneMore(args: seq<Arg>, a: Arg, i: nat)
    requires i < |args|
    ensures SharedAt(args + [a], i) <==> SharedAt(args, i) || (IsEach(a) && NoneBetween(args, i, |args|))
  {
    var more := args + [a];
    if SharedAt(args, i) {
      var j :| i < j < |args| && IsEach(args[j]) && NoneBetween(args, i, j);
      assert more[j] == args[j] && NoneBetween(more, i, j);
    }
    if IsEach(a) && NoneBetween(args, i, |args|) {
      assert IsEach(more[|args|]) && NoneBetween(more, i, |args|);
    }
    if SharedAt(more, i) {
      var j :| i < j < |more| && IsEach(more[j]) && NoneBetween(more, i, j);
      forall k | i < k < j ensures !IsSeparator(args[k]) {
        assert more[k] == args[k];
      }
      if j < |args| {
        assert args[j] == more[j] && NoneBetween(args, i, j);
      }
    }
  }

  /** The places after the last separator are those of the last section. */
  ghost predicate LastIsOpen(args: seq<Arg>, sections: seq<seq<int>>) {
    |sections| > 0 && forall i :: i in sections[|sections| - 1] <==>
                                  0 <= i < |args| && !IsSeparator(args[i]) && NoneBetween(args, i, |args|)
  }

  ghost predicate SplitSoFar(args: seq<Arg>, shared: seq<int>, sections: seq<seq<int>>) {
    IsSplit(args, shared, sections) && LastIsOpen(args, sections)
  }

  lemma NextsSnoc(args: seq<Arg>, a: Arg)
    ensures NextsBefore(args + [a], |args| + 1) == NextsBefore(args, |args|) + if IsNext(a) then 1 else 0
    ensures forall i :: 0 <= i <= |args| ==> NextsBefore(args + [a], i) == NextsBefore(args, i)
  {
    assert (args + [a])[..|args|] == args;
    forall i | 0 <= i <= |args| ensures NextsBefore(args + [a], i) == NextsBefore(args, i) {
      NextsOfPrefix(args + [a], |args|, i);
    }
  }

  lemma PlainKeepsShared(args: seq<Arg>, a: Arg, i: int)
    requires !IsEach(a)
    ensures InShared(args + [a], i) <==> InShared(args, i)
  {
    if 0 <= i < |args| {
      SharedOneMore(args, a, i);
    } else if i == |args| {
      assert !SharedAt(args + [a], i);
    }
  }

  lemma SectionOneMore(args: seq<Arg>, a: Arg, k: int, i: int)
    requires !IsEach(a)
    ensures InSection(args + [a], k, i) <==>
            InSection(args, k, i) || (i == |args| && !IsNext(a) && k == NextsBefore(args, |args|))
  {
    NextsSnoc(args, a);
    if 0 <= i < |args| {
      SharedOneMore(args, a, i);
    } else if i == |args| {
      assert !SharedAt(args + [a], i);
    }
  }

  lemma AppendIncreasing(places: seq<int>, n: int)
    requires Increasing(places) && forall i :: i in places ==> i < n
    ensures Increasing(places + [n])
  {
    forall a | 0 <= a < |places| ensures places[a] < n {
      assert places[a] in places;
    }
  }

  lemma PlainKeepsSplit(args: seq<Arg>, a: Arg, shared: seq<int>, sections: seq<seq<int>>)
    requires SplitSoFar(args, shared, sections) && !IsSeparator(a)
    ensures var last := |sections| - 1;
            SplitSoFar(args + [a], shared, sections[last := sections[last] + [|args|]])
  {
    var more, last := args + [a], |sections| - 1;
    var after := sections[last := sections[last] + [|args|]];
    NextsSnoc(args, a);
    forall i ensures i in shared <==> InShared(more, i) {
      PlainKeepsShared(args, a, i);
    }
    AppendIncreasing(sections[last], |args|);
    forall k | 0 <= k < |after| ensures IsSection(more, k, after[k]) {
      assert IsSection(args, k, sections[k]);
      forall i ensures i in after[k] <==> InSection(more, k, i) {
        SectionOneMore(args, a, k, i);
      }
    }
    forall i ensures i in after[last] <==> 0 <= i < |more| && !IsSeparator(more[i]) && NoneBetween(more, i, |more|) {
      if 0 <= i < |args| {
        OpenOneMore(args, a, i);
      }
    }
  }

  lemma OpenOneMore(args: seq<Arg>, a: Arg, i: nat)
    requires i < |args|
    ensures NoneBetween(args + [a], i, |args| + 1) <==> NoneBetween(args, i, |args|) && !IsSeparator(a)
  {
    var more := args + [a];
    if NoneBetween(more, i, |args| + 1) {
      forall k | i < k < |args| ensures !IsSeparator(args[k]) {
        assert more[k] == args[k];
      }
      assert more[|args|] == a;
    }
  }

  lemma NextKeepsSplit(args: seq<Arg>, a: Arg, shared: seq<int>, sections: seq<seq<int>>)
    requires SplitSoFar(args, shared, sections) && IsNext(a)
    ensures SplitSoFar(args + [a], shared, sections + [[]])
  {
    var more, after := args + [a], sections + [[]];
    NextsSnoc(args, a);
    forall i ensures i in shared <==> InShared(more, i) {
      PlainKeepsShared(args, a, i);
    }
    forall k | 0 <= k < |after| ensures IsSection(more, k, after[k]) {
      if k < |sections| {
        assert IsSection(args, k, sections[k]);
      }
      forall i ensures i in after[k] <==> InSection(more, k, i) {
        SectionOneMore(args, a, k, i);
        if k == |sections| {
          NoneLater(args, i, k);
        }
      }
    }
    forall i | 0 <= i < |args| ensures !NoneBetween(more, i, |more|) {
      OpenOneMore(args, a, i);
    }
  }

  lemma NoneLater(args: seq<Arg>, i: int, k: int)
    requires k > NextsBefore(args, |args|)
    ensures !InSection(args, k, i)
  {
    if 0 <= i < |args| {
      NextsGrow(args, i, |args|);
    }
  }

  lemma EachShares(args: seq<Arg>, a: Arg, i: int)
    requires IsEach(a)
    ensures InShared(args + [a], i) <==>
            InShared(args, i) || (0 <= i < |args| && !IsSeparator(args[i]) && NoneBetween(args, i, |args|))
  {
    if 0 <= i < |args| {
      SharedOneMore(args, a, i);
    }
  }

  lemma EachTakesFromLast(args: seq<Arg>, a: Arg, k: int, i: int)
    requires IsEach(a)
    ensures InSection(args + [a], k, i) <==>
            InSection(args, k, i) && !NoneBetween(args, i, |args|)
  {
    NextsSnoc(args, a);
    if 0 <= i < |args| {
      SharedOneMore(args, a, i);
    }
  }

  /** A place that no separator has closed lies in the last section. */
  lemma OpenIsLast(args: seq<Arg>, i: int)
    requires 0 <= i < |args| && NoneBetween(args, i, |args|) && !IsSeparator(args[i])
    ensures NextsBefore(args, i) == NextsBefore(args, |args|)
    ensures !SharedAt(args, i)
  {
    NoNextsBetween(args, i, |args|);
  }

  lemma {:induction false} NoNextsBetween(args: seq<Arg>, i: int, n: int)
    requires 0 <= i < n <= |args| && NoneBetween(args, i, n) && !IsSeparator(args[i])
    ensures NextsBefore(args, i) == NextsBefore(args, n)
    decreases n
  {
    if i < n - 1 {
      NoNextsBetween(args, i, n - 1);
    }
  }

  lemma EachKeepsSplit(args: seq<Arg>, a: Arg, shared: seq<int>, sections: seq<seq<int>>)
    requires SplitSoFar(args, shared, sections) && IsEach(a)
    ensures var last := |sections| - 1;
            SplitSoFar(args + [a], shared + sections[last], sections[last := []])
  {
    var more, last := args + [a], |sections| - 1;
    var all, after := shared + sections[last], sections[last := []];
    NextsSnoc(args, a);
    assert IsSection(args, last, sections[last]);
    SharedBeforeOpen(args, shared, sections[last]);
    forall i ensures i in all <==> InShared(more, i) {
      EachShares(args, a, i);
    }
    forall k | 0 <= k < |after| ensures IsSection(more, k, after[k]) {
      assert IsSection(args, k, sections[k]);
      forall i ensures i in after[k] <==> InSection(more, k, i) {
        EachTakesFromLast(args, a, k, i);
        if 0 <= i < |args| && NoneBetween(args, i, |args|) && !IsSeparator(args[i]) {
          OpenIsLast(args, i);
        }
      }
    }
    forall i | 0 <= i < |args| ensures !NoneBetween(more, i, |more|) {
      OpenOneMore(args, a, i);
    }
  }

  /** What is shared already comes before what no separator has closed. */
  lemma SharedBeforeOpen(args: seq<Arg>, shared: seq<int>, open: seq<int>)
    requires Increasing(shared) && Increasing(open)
    requires forall i :: i in shared <==> InShared(args, i)
    requires forall i :: i in open <==> 0 <= i < |args| && !IsSeparator(args[i]) && NoneBetween(args, i, |args|)
    ensures Increasing(shared + open)
  {
    forall a, b | 0 <= a < |shared| && 0 <= b < |open| ensures shared[a] < open[b] {
      var i, m := shared[a], open[b];
      assert i in shared && m in open;
      assert InShared(args, i);
      var j :| i < j < |args| && IsEach(args[j]) && NoneBetween(args, i, j);
      assert !(m < j);
    }
    var all := shared + open;
    forall x, y | 0 <= x < y < |all| ensures all[x] < all[y] {
      if x < |shared| <= y {
        assert all[x] == shared[x] && all[y] == open[y - |shared|];
      }
    }
  }

  lemma PickMore(args: seq<Arg>, places: seq<int>, n: nat)
    requires n < |args| && Places(args, places)
    ensures Places(args, places + [n]) && Pick(args, places + [n]) == Pick(args, places) + [args[n]]
  {
  }

  lemma PickJoined(args: seq<Arg>, s: seq<int>, t: seq<int>)
    requires Places(args, s) && Places(args, t)
    ensures Places(args, s + t) && Pick(args, s + t) == Pick(args, s) + Pick(args, t)
  {
  }

  ghost predicate AllPicked(args: seq<Arg>, sections: seq<seq<Arg>>, places: seq<seq<int>>) {
    |sections| == |places| &&
    forall k :: 0 <= k < |places| ==> Places(args, places[k]) && sections[k] == Pick(args, places[k])
  }

  /** The groups hold the arguments that a split assigns to them. */
  ghost predicate SplitInto(args: seq<Arg>, shared: seq<Arg>, sections: seq<seq<Arg>>) {
    exists sharedAt, sectionsAt :: SplitAt(args, shared, sections, sharedAt, sectionsAt)
  }

  ghost predicate SplitAt(args: seq<Arg>, shared: seq<Arg>, sections: seq<seq<Arg>>,
                          sharedAt: seq<int>, sectionsAt: seq<seq<int>>)
  {
    && IsSplit(args, sharedAt, sectionsAt)
    && Places(args, sharedAt) && shared == Pick(args, sharedAt)
    && AllPicked(args, sections, sectionsAt)
  }

  method SplitArgs(args: seq<Arg>)
    returns (shared: seq<Arg>, sections: seq<seq<Arg>>, ghost sharedAt: seq<int>, ghost sectionsAt: seq<seq<int>>)
    ensures SplitAt(args, shared, sections, sharedAt, sectionsAt) && SplitInto(args, shared, sections)
  {
    shared, sections, sharedAt, sectionsAt := [], [[]], [], [[]];
    SplitOfNothing();
    assert args[..0] == [];
    for n := 0 to |args|
      invariant SplitPicked(args, n, shared, sections, sharedAt, sectionsAt)
    {
      hide SplitPicked;
      shared, sections, sharedAt, sectionsAt := SplitOne(args, n, shared, sections, sharedAt, sectionsAt);
    }
    assert args[..|args|] == args;
  }

  /** The arguments before place `n` are split, and the groups hold them. */
  ghost predicate SplitPicked(args: seq<Arg>, n: nat, shared: seq<Arg>, sections: seq<seq<Arg>>,
                              sharedAt: seq<int>, sectionsAt: seq<seq<int>>)
    requires n <= |args|
  {
    && SplitSoFar(args[..n], sharedAt, sectionsAt)
    && Places(args, sharedAt) && shared == Pick(args, sharedAt)
    && AllPicked(args, sections, sectionsAt)
  }

  /** One turn of the splitting loop. */
  method SplitOne(args: seq<Arg>, n: nat, shared: seq<Arg>, sections: seq<seq<Arg>>,
                  ghost sharedAt: seq<int>, ghost sectionsAt: seq<seq<int>>)
    returns (shared': seq<Arg>, sections': seq<seq<Arg>>, ghost sharedAt': seq<int>, ghost sectionsAt': seq<seq<int>>)
    requires n < |args| && SplitPicked(args, n, shared, sections, sharedAt, sectionsAt)
    ensures SplitPicked(args, n + 1, shared', sections', sharedAt', sectionsAt')
  {
    hide SplitSoFar, Pick, Places, AllPicked;
    assert args[..n + 1] == args[..n] + [args[n]];
    LastExists(args, args[..n], sharedAt, sections, sectionsAt);
    var last := |sections| - 1;
    PickNothing(args);
    if IsEach(args[n]) {
      EachKeepsSplit(args[..n], args[n], sharedAt, sectionsAt);
      PickJoined(args, sharedAt, sectionsAt[last]);
      PickedSet(args, sections, sectionsAt, last, [], []);
      shared', sections' := shared + sections[last], sections[last := []];
      sharedAt', sectionsAt' := sharedAt + sectionsAt[last], sectionsAt[last := []];
    } else if IsNext(args[n]) {
      NextKeepsSplit(args[..n], args[n], sharedAt, sectionsAt);
      PickedAppend(args, sections, sectionsAt, [], []);
      shared', sections' := shared, sections + [[]];
      sharedAt', sectionsAt' := sharedAt, sectionsAt + [[]];
    } else {
      PlainKeepsSplit(args[..n], args[n], sharedAt, sectionsAt);
      PickMore(args, sectionsAt[last], n);
      PickedSet(args, sections, sectionsAt, last, sections[last] + [args[n]], sectionsAt[last] + [n]);
      shared', sections' := shared, sections[last := sections[last] + [args[n]]];
      sharedAt', sectionsAt' := sharedAt, sectionsAt[last := sectionsAt[last] + [n]];
    }
  }

  lemma PickedSet(args: seq<Arg>, sections: seq<seq<Arg>>, places: seq<seq<int>>, k: nat, s: seq<Arg>, p: seq<int>)
    requires AllPicked(args, sections, places) && k < |sections| && Places(args, p) && s == Pick(args, p)
    ensures |sections| == |places| && AllPicked(args, sections[k := s], places[k := p])
  {
  }

  lemma PickedAppend(args: seq<Arg>, sections: seq<seq<Arg>>, places: seq<seq<int>>, s: seq<Arg>, p: seq<int>)
    requires AllPicked(args, sections, places) && Places(args, p) && s == Pick(args, p)
    ensures AllPicked(args, sections + [s], places + [p])
  {
  }

  lemma SplitOfNothing()
    ensures SplitSoFar([], [], [[]])
  {
    assert IsSection([], 0, []);
  }

  lemma LastExists(
      all: seq<Arg>, args: seq<Arg>, shared: seq<int>, sections: seq<seq<Arg>>, places: seq<seq<int>>)
    requires SplitSoFar(args, shared, places) && AllPicked(all, sections, places)
    ensures |sections| == |places| > 0
    ensures var last := |places| - 1; Places(all, places[last]) && sections[last] == Pick(all, places[last])
  {
  }

  lemma PickNothing(args: seq<Arg>)
    ensures Places(args, []) && Pick(args, []) == []
  {
  }

  // ---------- the sections that become builds ----------

  function NonEmpty<T>(sections: seq<seq<T>>): (kept: seq<seq<T>>)
    ensures forall s :: s in kept ==> |s| > 0
  {
    if sections == [] then []
    else NonEmpty(sections[..|sections| - 1]) +
         if |sections[|sections| - 1]| > 0 then [sections[|sections| - 1]] else []
  }

  /** Empty sections are dropped unless there is only one section, and there is always a section left. */
  function Retained<T>(sections: seq<seq<T>>): (kept: seq<seq<T>>)
    ensures |kept| > 0
  {
    var kept := if |sections| > 1 then NonEmpty(sections) else sections;
    if kept == [] then [[]] else kept
  }

  function Flat<T>(sections: seq<seq<T>>): seq<T> {
    if sections == [] then [] else Flat(sections[..|sections| - 1]) + sections[|sections| - 1]
  }

  lemma FlatSnoc<T>(sections: seq<seq<T>>, s: seq<T>)
    ensures Flat(sections + [s]) == Flat(sections) + s
  {
  }

  lemma {:induction false} NonEmptyFlat<T>(sections: seq<seq<T>>)
    ensures Flat(NonEmpty(sections)) == Flat(sections)
    decreases |sections|
  {
    if sections != [] {
      hide Flat;
      var n := |sections| - 1;
      var before, last := NonEmpty(sections[..n]), sections[n];
      NonEmptyFlat(sections[..n]);
      assert sections == sections[..n] + [last];
      FlatSnoc(sections[..n], last);
      if |last| > 0 {
        FlatSnoc(before, last);
      } else {
        assert Flat(before) + last == Flat(before);
        assert before + [] == before;
      }
    }
  }

  /** The sections kept hold every argument in its order, whatever was dropped. */
  lemma RetainedKeepsAll<T>(sections: seq<seq<T>>)
    ensures Flat(Retained(sections)) == Flat(sections)
    ensures |Retained(sections)| > 1 ==> forall s :: s in Retained(sections) ==> |s| > 0
  {
    NonEmptyFlat(sections);
    if |sections| > 1 && NonEmpty(sections) == [] {
      var none: seq<seq<T>> := [];
      assert (none + [[]])[..0] == none;
    }
  }

  /** Places in order, below `n`. */
  ghost predicate Rising(at: seq<int>, n: nat) {
    && (forall k :: 0 <= k < |at| ==> 0 <= at[k] < n)
    && forall j, k :: 0 <= j < k < |at| ==> at[j] < at[k]
  }

  function SectionsAt<T>(sections: seq<seq<T>>, at: seq<int>): seq<seq<T>>
    requires forall k :: 0 <= k < |at| ==> 0 <= at[k] < |sections|
  {
    seq(|at|, k requires 0 <= k < |at| => sections[at[k]])
  }

  lemma {:induction false} NonEmptyExact<T>(sections: seq<seq<T>>) returns (at: seq<int>)
    ensures Rising(at, |sections|)
    ensures forall i :: 0 <= i < |sections| ==> (i in at <==> sections[i] != [])
    ensures NonEmpty(sections) == SectionsAt(sections, at)
    decreases |sections|
  {
    at := [];
    if sections != [] {
      var n := |sections| - 1;
      at := NonEmptyExact(sections[..n]);
      assert SectionsAt(sections[..n], at) == SectionsAt(sections, at);
      if sections[n] != [] {
        assert SectionsAt(sections, at + [n]) == SectionsAt(sections, at) + [sections[n]];
        at := at + [n];
      }
    }
  }

  /** The sections kept are exactly those that are not empty, each as it is and in their order; if all are empty,
      there is one empty one. */
  lemma RetainedExact<T>(sections: seq<seq<T>>) returns (at: seq<int>)
    ensures Rising(at, |sections|)
    ensures forall i :: 0 <= i < |sections| ==> (i in at <==> sections[i] != [])
    ensures Retained(sections) == if at == [] then [[]] else SectionsAt(sections, at)
  {
    at := NonEmptyExact(sections);
    if |sections| == 1 {
      assert sections[..0] == [] && NonEmpty(sections) == if sections[0] != [] then sections else [];
      assert sections == [sections[0]];
    }
  }

  // ---------- one build ----------

  datatype Mode = Jit | Compile

  /** A configuration, but for the list of files read, which every build of a file shares. */
  datatype Config = Config(
    classPaths: seq<Path>,
    mainClass: Option<string>,
    output: Option<Path>,
    mode: Mode,
    libraries: seq<string>,
    defines: seq<(string, Option<string>)>,
    resources: seq<(Path, Option<string>)>,
    debug: bool,
    verbose: bool,
    compilerFlags: seq<string>,
    sourceFiles: seq<Path>,
    classes: seq<string>,
    target: Option<string>,
    macros: seq<string>,
    warnings: seq<(Path, nat, string)>)

  const DEFAULT := Config([], None, None, Jit, [], [], [], false, false, [], [], [], None, [], [])

  /** The target flags and the targets they name. */
  const TARGETS :=
    [("--js", "js"), ("--swf", "flash"), ("--neko", "neko"), ("--php", "php"), ("--cpp", "cpp"),
     ("--cppia", "cppia"), ("--cs", "cs"), ("--java", "java"), ("--jvm", "jvm"), ("--python", "python"),
     ("--lua", "lua"), ("--hl", "hl"), ("--interp", "eval"), ("--run", "eval")]

  const VALUED_FLAGS :=
    {"--dce", "-dce", "--cwd", "-C", "--connect", "--wait", "--server-connect", "--server-listen", "--display",
     "--remap", "--xml", "--json", "--times", "--cmd", "-w", "--debug-port", "--undefine", "--resource-path"}

  const BARE_FLAGS :=
    {"--no-inline", "--no-opt", "--no-output", "--no-traces", "--times", "--prompt", "--interp-mode", "--each",
     "--next", "--help", "--version"}

  /** The first entry that the flag names, with both dashes or with one. */
  function TargetOf(flag: string, n: nat): Option<(string, string)>
    requires n <= |TARGETS|
    decreases |TARGETS| - n
  {
    if n == |TARGETS| then None
    else if TARGETS[n].0 == flag || TARGETS[n].0 == "-" + flag then Some(TARGETS[n])
    else TargetOf(flag, n + 1)
  }

  function CharAt(s: string, c: char): (i: nat)
    ensures i <= |s|
  {
    if s == "" || s[0] == c then 0 else 1 + CharAt(s[1..], c)
  }

  /** Splits at the first `c`. */
  function SplitOnce(s: string, c: char): (string, Option<string>) {
    var i := CharAt(s, c);
    if i < |s| then (s[..i], Some(s[i + 1..])) else (s, None)
  }

  function FirstWord(s: string): string {
    var t := TrimStart(s);
    t[..SpaceAt(t)]
  }

  function Text(a: Arg): string {
    if a.value.None? then a.flag
    else if a.flag != "" then a.flag + " " + a.value.value
    else a.value.value
  }

  /** What one argument does to a configuration. */
  datatype Effect =
    | ClassPath(path: Path)
    | Main(name: string)
    | Library(name: string)
    | Define(define: (string, Option<string>))
    | Resource(resource: (Path, Option<string>))
    | Debug
    | Verbose
    | Macro(call: string)
    | Run(mode: Mode, output: Option<Path>)
    | Output(path: Path)
    | Source(path: Path)
    | Class(name: string)
    | Target(name: string, main: Option<string>)
    | Recorded(text: string)
    | Unknown(text: string, file: Path, line: nat)

  predicate IsRecorded(flag: string) {
    flag in VALUED_FLAGS || flag in BARE_FLAGS
  }

  /** A target, a flag that is only recorded, or an unknown one, which is recorded with a warning. */
  function OtherEffect(flag: string, value: string, a: Arg): (e: Effect)
    ensures e.Target? || e.Recorded? || e.Unknown?
  {
    var known := TargetOf(flag, 0);
    if known.Some? then Target(known.value.1, if known.value.0 == "--run" then Some(FirstWord(value)) else None)
    else if IsRecorded(flag) then Recorded(Text(a))
    else Unknown(Text(a), a.file, a.line)
  }

  /** Reads an argument; relative paths resolve against `dir`. */
  function EffectOf(dir: string, a: Arg): Effect {
    var value := if a.value.Some? then a.value.value else "";
    var path := Under(dir, value);
    var flag := a.flag;
    if flag in {"-cp", "-p", "--class-path"} then ClassPath(path)
    else if flag in {"-main", "-m", "--main"} then Main(value)
    else if flag in {"-lib", "-L", "--library"} then Library(value)
    else if flag in {"-D", "--define"} then Define(SplitOnce(value, '='))
    else if flag in {"-resource", "-r", "--resource"} then
      var (file, name) := SplitOnce(value, '@');
      Resource((Under(dir, file), name))
    else SwitchEffect(flag, value, path, a)
  }

  function SwitchEffect(flag: string, value: string, path: Path, a: Arg): (e: Effect)
    ensures e.Run? ==> flag == "--rayzor-jit" || flag == "--rayzor-compile"
  {
    if flag in {"-debug", "--debug"} then Debug
    else if flag in {"-v", "--verbose"} then Verbose
    else if flag == "--macro" then Macro(value)
    else if flag == "--rayzor-jit" then Run(Jit, if value != "" then Some(path) else None)
    else if flag == "--rayzor-compile" then Run(Compile, if value != "" then Some(path) else None)
    else if flag in {"-output", "--output"} then Output(path)
    else if flag == "" then if EndsWith(value, ".hx") then Source(path) else Class(value)
    else OtherEffect(flag, value, a)
  }

  function Over<T>(first: Option<T>, second: Option<T>): Option<T> {
    if second.Some? then second else first
  }

  function Update(c: Config, e: Effect): Config {
    match e
    case ClassPath(path) => c.(classPaths := c.classPaths + [path])
    case Main(name) => c.(mainClass := Some(name))
    case Library(name) => c.(libraries := c.libraries + [name])
    case Define(define) => c.(defines := c.defines + [define])
    case Resource(resource) => c.(resources := c.resources + [resource])
    case Debug => c.(debug := true)
    case Verbose => c.(verbose := true)
    case Macro(call) => c.(macros := c.macros + [call])
    case Run(mode, output) => c.(mode := mode, output := Over(c.output, output))
    case Output(path) => c.(output := Some(path))
    case Source(path) => c.(sourceFiles := c.sourceFiles + [path])
    case Class(name) => c.(classes := c.classes + [name])
    case Target(name, main) => c.(target := Some(name), mainClass := Over(c.mainClass, main))
    case Recorded(text) => c.(compilerFlags := c.compilerFlags + [text])
    case Unknown(text, file, line) =>
      c.(warnings := c.warnings + [(file, line, "unknown flag `" + text + "`")],
         compilerFlags := c.compilerFlags + [text])
  }

  function ApplyTo(dir: string, c: Config, a: Arg): Config {
    Update(c, EffectOf(dir, a))
  }

  /** The configuration that the arguments, applied in order, make of `c`. */
  function Applied(dir: string, c: Config, args: seq<Arg>): Config {
    if args == [] then c
    else ApplyTo(dir, Applied(dir, c, args[..|args| - 1]), args[|args| - 1])
  }

  ghost predicate SetsMode(args: seq<Arg>) {
    exists a :: a in args && (a.flag == "--rayzor-jit" || a.flag == "--rayzor-compile")
  }

  /** One configuration laid over another: lists are joined, single values are replaced where the second sets
      them, and switches stay on. */
  function Joined(c: Config, d: Config, mode: Mode): Config {
    Config(
      c.classPaths + d.classPaths, Over(c.mainClass, d.mainClass), Over(c.output, d.output), mode,
      c.libraries + d.libraries, c.defines + d.defines, c.resources + d.resources,
      c.debug || d.debug, c.verbose || d.verbose,
      c.compilerFlags + d.compilerFlags, c.sourceFiles + d.sourceFiles, c.classes + d.classes,
      Over(c.target, d.target), c.macros + d.macros, c.warnings + d.warnings)
  }

  lemma OneSetsMode(dir: string, c: Config, a: Arg)
    ensures ApplyTo(dir, c, a).mode == if SetsMode([a]) then ApplyTo(dir, DEFAULT, a).mode else c.mode
  {
    hide EffectOf;
    assert a in [a];
    RunSetsMode(dir, a);
  }

  lemma RunSetsMode(dir: string, a: Arg)
    ensures EffectOf(dir, a).Run? <==> a.flag == "--rayzor-jit" || a.flag == "--rayzor-compile"
  {
  }

  lemma AppendJoins<T>(a: seq<T>, b: seq<T>, x: T)
    ensures a + b + [x] == a + (b + [x])
  {
  }

  ghost predicate UpdateJoins(c: Config, d: Config, m: Mode, e: Effect) {
    Update(Joined(c, d, m), e) == Joined(c, Update(d, e), Update(Joined(c, d, m), e).mode)
  }

  lemma OptionJoins(c: Config, d: Config, m: Mode, e: Effect)
    requires e.ClassPath? || e.Library? || e.Define? || e.Resource? || e.Macro?
    ensures UpdateJoins(c, d, m, e)
  {
    match e
    case ClassPath(x) => AppendJoins(c.classPaths, d.classPaths, x);
    case Library(x) => AppendJoins(c.libraries, d.libraries, x);
    case Define(x) => AppendJoins(c.defines, d.defines, x);
    case Resource(x) => AppendJoins(c.resources, d.resources, x);
    case Macro(x) => AppendJoins(c.macros, d.macros, x);
  }

  lemma ListingJoins(c: Config, d: Config, m: Mode, e: Effect)
    requires e.Source? || e.Class? || e.Recorded? || e.Unknown?
    ensures UpdateJoins(c, d, m, e)
  {
    match e
    case Source(x) => AppendJoins(c.sourceFiles, d.sourceFiles, x);
    case Class(x) => AppendJoins(c.classes, d.classes, x);
    case Recorded(x) => AppendJoins(c.compilerFlags, d.compilerFlags, x);
    case Unknown(x, file, line) =>
      AppendJoins(c.warnings, d.warnings, (file, line, "unknown flag `" + x + "`"));
      AppendJoins(c.compilerFlags, d.compilerFlags, x);
  }

  lemma ValueJoins(c: Config, d: Config, m: Mode, e: Effect)
    requires e.Main? || e.Debug? || e.Verbose? || e.Run? || e.Output? || e.Target?
    ensures UpdateJoins(c, d, m, e)
  {
  }

  /** Applying one argument only appends to lists, only replaces single values, and never looks at what is
      there. */
  lemma ApplyJoins(c: Config, d: Config, m: Mode, e: Effect)
    ensures Update(Joined(c, d, m), e) == Joined(c, Update(d, e), Update(Joined(c, d, m), e).mode)
  {
    hide Update, Joined;
    if e.ClassPath? || e.Library? || e.Define? || e.Resource? || e.Macro? {
      OptionJoins(c, d, m, e);
    } else if e.Source? || e.Class? || e.Recorded? || e.Unknown? {
      ListingJoins(c, d, m, e);
    } else {
      ValueJoins(c, d, m, e);
    }
  }

  lemma {:induction false} AppliedJoins(dir: string, c: Config, args: seq<Arg>)
    ensures Applied(dir, c, args) == Joined(c, Applied(dir, DEFAULT, args), Applied(dir, c, args).mode)
    decreases |args|
  {
    if args != [] {
      hide EffectOf, Update, Joined;
      var n := |args| - 1;
      AppliedJoins(dir, c, args[..n]);
      ApplyJoins(c, Applied(dir, DEFAULT, args[..n]), Applied(dir, c, args[..n]).mode, EffectOf(dir, args[n]));
    }
  }

  lemma {:induction false} AppliedMode(dir: string, c: Config, args: seq<Arg>)
    ensures Applied(dir, c, args).mode == if SetsMode(args) then Applied(dir, DEFAULT, args).mode else c.mode
    decreases |args|
  {
    if args != [] {
      hide ApplyTo;
      var n := |args| - 1;
      AppliedMode(dir, c, args[..n]);
      OneSetsMode(dir, Applied(dir, c, args[..n]), args[n]);
      OneSetsMode(dir, Applied(dir, DEFAULT, args[..n]), args[n]);
      SetsModeSnoc(args[..n], args[n]);
      assert args == args[..n] + [args[n]];
    }
  }

  lemma SetsModeSnoc(args: seq<Arg>, a: Arg)
    ensures SetsMode(args + [a]) <==> SetsMode(args) || SetsMode([a])
  {
  }

  lemma AppliedSnoc(dir: string, c: Config, args: seq<Arg>, a: Arg)
    ensures Applied(dir, c, args + [a]) == ApplyTo(dir, Applied(dir, c, args), a)
  {
  }

  lemma {:induction false} AppliedAppend(dir: string, c: Config, s: seq<Arg>, t: seq<Arg>)
    ensures Applied(dir, c, s + t) == Applied(dir, Applied(dir, c, s), t)
    decreases |t|
  {
    hide ApplyTo;
    if t == [] {
      assert s + t == s;
    } else {
      hide Applied;
      var n := |t| - 1;
      assert s + t == s + t[..n] + [t[n]] && t == t[..n] + [t[n]];
      AppliedAppend(dir, c, s, t[..n]);
      AppliedSnoc(dir, c, s + t[..n], t[n]);
      AppliedSnoc(dir, Applied(dir, c, s), t[..n], t[n]);
    }
  }

  /** A build is its shared arguments' configuration with its section's laid over it: every list is the shared
      list followed by the section's, and what the section sets once replaces what the shared part sets. */
  lemma BuildIsSharedThenSection(dir: string, shared: seq<Arg>, section: seq<Arg>)
    ensures var s, t := Applied(dir, DEFAULT, shared), Applied(dir, DEFAULT, section);
            Applied(dir, DEFAULT, shared + section) == Joined(s, t, if SetsMode(section) then t.mode else s.mode)
  {
    var s := Applied(dir, DEFAULT, shared);
    AppliedAppend(dir, DEFAULT, shared, section);
    AppliedJoins(dir, s, section);
    AppliedMode(dir, s, section);
  }

  // ---------- the builds ----------

  /** A configuration that arguments are applied to in place. */
  class HxmlConfig {
    var classPaths: seq<Path>
    var mainClass: Option<string>
    var output: Option<Path>
    var mode: Mode
    var libraries: seq<string>
    var defines: seq<(string, Option<string>)>
    var resources: seq<(Path, Option<string>)>
    var debug: bool
    var verbose: bool
    var compilerFlags: seq<string>
    var sourceFiles: seq<Path>
    var classes: seq<string>
    var target: Option<string>
    var macros: seq<string>
    var warnings: seq<(Path, nat, string)>

    function View(): Config
      reads this
    {
      Config(classPaths, mainClass, output, mode, libraries, defines, resources, debug, verbose, compilerFlags,
             sourceFiles, classes, target, macros, warnings)
    }

    constructor ()
      ensures View() == DEFAULT
    {
      classPaths, mainClass, output, mode := [], None, None, Jit;
      libraries, defines, resources, debug, verbose := [], [], [], false, false;
      compilerFlags, sourceFiles, classes, target, macros, warnings := [], [], [], None, [], [];
    }

    method Apply(dir: string, arg: Arg)
      modifies this
      ensures View() == ApplyTo(dir, old(View()), arg)
    {
      hide SplitOnce, SwitchEffect;
      var value := if arg.value.Some? then arg.value.value else "";
      var path := Under(dir, value);
      var flag := arg.flag;
      if flag in {"-cp", "-p", "--class-path"} {
        classPaths := classPaths + [path];
      } else if flag in {"-main", "-m", "--main"} {
        mainClass := Some(value);
      } else if flag in {"-lib", "-L", "--library"} {
        libraries := libraries + [value];
      } else if flag in {"-D", "--define"} {
        defines := defines + [SplitOnce(value, '=')];
      } else if flag in {"-resource", "-r", "--resource"} {
        var (file, name) := SplitOnce(value, '@');
        resources := resources + [(Under(dir, file), name)];
      } else {
        ApplySwitch(flag, value, path, arg);
      }
    }

    method ApplySwitch(flag: string, value: string, path: Path, arg: Arg)
      modifies this
      ensures View() == Update(old(View()), SwitchEffect(flag, value, path, arg))
    {
      hide EndsWith, OtherEffect;
      if flag in {"-debug", "--debug"} {
        debug := true;
      } else if flag in {"-v", "--verbose"} {
        verbose := true;
      } else if flag == "--macro" {
        macros := macros + [value];
      } else if flag == "--rayzor-jit" {
        mode := Jit;
        if value != "" {
          output := Some(path);
        }
      } else if flag == "--rayzor-compile" {
        mode := Compile;
        if value != "" {
          output := Some(path);
        }
      } else if flag in {"-output", "--output"} {
        output := Some(path);
      } else if flag == "" {
        if EndsWith(value, ".hx") {
          sourceFiles := sourceFiles + [path];
        } else {
          classes := classes + [value];
        }
      } else {
        ApplyOther(flag, value, arg);
      }
    }

    method ApplyOther(flag: string, value: string, arg: Arg)
      modifies this
      ensures View() == Update(old(View()), OtherEffect(flag, value, arg))
    {
      hide TargetOf, IsRecorded, Text, FirstWord;
      var known := TargetOf(flag, 0);
      if known.Some? {
        target := Some(known.value.1);
        if known.value.0 == "--run" {
          mainClass := Some(FirstWord(value));
        }
      } else if IsRecorded(flag) {
        compilerFlags := compilerFlags + [Text(arg)];
      } else {
        warnings := warnings + [(arg.file, arg.line, "unknown flag `" + Text(arg) + "`")];
        compilerFlags := compilerFlags + [Text(arg)];
      }
    }
  }

  method BuildOf(dir: string, args: seq<Arg>) returns (c: HxmlConfig)
    ensures fresh(c) && c.View() == Applied(dir, DEFAULT, args)
  {
    c := new HxmlConfig();
    for n := 0 to |args|
      invariant fresh(c) && c.View() == Applied(dir, DEFAULT, args[..n])
    {
      hide ApplyTo, c.View;
      assert args[..n + 1][..n] == args[..n];
      c.Apply(dir, args[n]);
    }
    assert args[..|args|] == args;
  }

  /** One build for each section kept: the shared arguments, then the section's own. */
  method FromArgs(dir: string, args: seq<Arg>)
    returns (builds: seq<HxmlConfig>, ghost sharedAt: seq<int>, ghost sectionsAt: seq<seq<int>>)
    ensures IsSplit(args, sharedAt, sectionsAt)
    ensures Places(args, sharedAt) && forall k :: 0 <= k < |sectionsAt| ==> Places(args, sectionsAt[k])
    ensures var shared, sections := Pick(args, sharedAt), Retained(PickEach(args, sectionsAt));
            && |builds| == |sections| > 0
            && forall k :: 0 <= k < |builds| ==>
                 fresh(builds[k]) && builds[k].View() == Applied(dir, DEFAULT, shared + sections[k])
  {
    hide IsSplit, Pick, PickEach, Places, AllPicked, Applied;
    var shared, sections;
    shared, sections, sharedAt, sectionsAt := SplitArgs(args);
    PickedEach(args, sections, sectionsAt);
    sections := Retained(sections);
    builds := [];
    for k := 0 to |sections|
      invariant |builds| == k
      invariant forall i :: 0 <= i < k ==>
                  fresh(builds[i]) && builds[i].View() == Applied(dir, DEFAULT, shared + sections[i])
    {
      var c := BuildOf(dir, shared + sections[k]);
      builds := builds + [c];
    }
  }

  ghost function PickEach(args: seq<Arg>, places: seq<seq<int>>): (picked: seq<seq<Arg>>)
    requires forall k :: 0 <= k < |places| ==> Places(args, places[k])
    ensures |picked| == |places|
  {
    seq(|places|, k requires 0 <= k < |places| => Pick(args, places[k]))
  }

  lemma PickedEach(args: seq<Arg>, sections: seq<seq<Arg>>, places: seq<seq<int>>)
    requires AllPicked(args, sections, places)
    ensures forall k :: 0 <= k < |places| ==> Places(args, places[k])
    ensures sections == PickEach(args, places)
  {
  }
}
