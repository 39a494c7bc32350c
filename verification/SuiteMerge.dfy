/** Merging a benchmark run into the results already kept for the day. */
module SuiteMerge {
  import opened Sequences
  import opened Wrappers

  /** One measurement; `figures` stands for all its numbers. */
  datatype Row = Row(target: string, figures: int)
  datatype Bench = Bench(name: string, results: seq<Row>)
  datatype Suite = Suite(systemInfo: Option<string>, benchmarks: seq<Bench>)

  // ---------- rows and benchmarks by key ----------

  function RowAt(rows: seq<Row>, target: string): (i: nat)
    ensures i <= |rows|
    ensures i < |rows| ==> rows[i].target == target
    ensures forall j :: 0 <= j < i ==> rows[j].target != target
  {
    if rows == [] || rows[0].target == target then 0 else 1 + RowAt(rows[1..], target)
  }

  function BenchAt(benches: seq<Bench>, name: string): (i: nat)
    ensures i <= |benches|
    ensures i < |benches| ==> benches[i].name == name
    ensures forall j :: 0 <= j < i ==> benches[j].name != name
  {
    if benches == [] || benches[0].name == name then 0 else 1 + BenchAt(benches[1..], name)
  }

  predicate HasName(benches: seq<Bench>, name: string) {
    BenchAt(benches, name) < |benches|
  }

  function FindRow(rows: seq<Row>, target: string): Option<Row> {
    var i := RowAt(rows, target);
    if i < |rows| then Some(rows[i]) else None
  }

  /** What a suite says about a benchmark on a target. */
  function Find(benches: seq<Bench>, name: string, target: string): Option<Row> {
    var i := BenchAt(benches, name);
    if i < |benches| then FindRow(benches[i].results, target) else None
  }

  predicate UniqueTargets(rows: seq<Row>) {
    forall i, j :: 0 <= i < j < |rows| ==> rows[i].target != rows[j].target
  }

  predicate UniqueNames(benches: seq<Bench>) {
    forall i, j :: 0 <= i < j < |benches| ==> benches[i].name != benches[j].name
  }

  predicate UniqueKeys(benches: seq<Bench>) {
    UniqueNames(benches) && forall i :: 0 <= i < |benches| ==> UniqueTargets(benches[i].results)
  }

  // ---------- the merge ----------

  /** The order of target names. */
  type NameOrder = (string, string) -> bool

  function ByTarget(le: NameOrder): (Row, Row) -> bool {
    (a: Row, b: Row) => le(a.target, b.target)
  }

  function PutRow(rows: seq<Row>, r: Row): seq<Row> {
    var i := RowAt(rows, r.target);
    if i < |rows| then rows[i := r] else rows + [r]
  }

  function PutRows(rows: seq<Row>, news: seq<Row>): seq<Row> {
    if news == [] then rows else PutRow(PutRows(rows, news[..|news| - 1]), news[|news| - 1])
  }

  function PutBench(le: NameOrder, benches: seq<Bench>, b: Bench): seq<Bench> {
    var i := BenchAt(benches, b.name);
    if i < |benches| then
      benches[i := Bench(benches[i].name, Sort(ByTarget(le), PutRows(benches[i].results, b.results)))]
    else benches + [b]
  }

  function PutBenches(le: NameOrder, benches: seq<Bench>, news: seq<Bench>): seq<Bench> {
    if news == [] then benches else PutBench(le, PutBenches(le, benches, news[..|news| - 1]), news[|news| - 1])
  }

  /** Without a file for the day, the run is kept as it is. */
  function Merged(le: NameOrder, kept: Option<Suite>, suite: Suite): Suite {
    match kept
    case None => suite
    case Some(existing) =>
      Suite(if suite.systemInfo.Some? then suite.systemInfo else existing.systemInfo,
            PutBenches(le, existing.benchmarks, suite.benchmarks))
  }

  method MergeRows(rows: seq<Row>, news: seq<Row>) returns (merged: seq<Row>)
    ensures merged == PutRows(rows, news)
  {
    merged := rows;
    for n := 0 to |news|
      invariant merged == PutRows(rows, news[..n])
    {
      assert news[..n + 1][..n] == news[..n];
      var i := RowAt(merged, news[n].target);
      if i < |merged| {
        merged := merged[i := news[n]];
      } else {
        merged := merged + [news[n]];
      }
    }
    assert news[..|news|] == news;
  }

  method Merge(le: NameOrder, kept: Option<Suite>, suite: Suite) returns (merged: Suite)
    ensures merged == Merged(le, kept, suite)
  {
    if kept.None? {
      return suite;
    }
    var existing := kept.value;
    var benches, news := existing.benchmarks, suite.benchmarks;
    for n := 0 to |news|
      invariant benches == PutBenches(le, existing.benchmarks, news[..n])
    {
      hide PutRows, Sort;
      assert news[..n + 1][..n] == news[..n];
      var i := BenchAt(benches, news[n].name);
      if i < |benches| {
        var rows := MergeRows(benches[i].results, news[n].results);
        benches := benches[i := Bench(benches[i].name, Sort(ByTarget(le), rows))];
      } else {
        benches := benches + [news[n]];
      }
    }
    assert news[..|news|] == news;
    merged := Suite(if suite.systemInfo.Some? then suite.systemInfo else existing.systemInfo, benches);
  }

  // ---------- what one row sees ----------

  lemma FirstRowIs(rows: seq<Row>, t: string, i: nat)
    requires i <= |rows| && (i < |rows| ==> rows[i].target == t)
    requires forall j :: 0 <= j < i ==> rows[j].target != t
    ensures RowAt(rows, t) == i
  {
  }

  lemma PutRowFinds(rows: seq<Row>, r: Row, t: string)
    ensures FindRow(PutRow(rows, r), t) == if r.target == t then Some(r) else FindRow(rows, t)
  {
    var i, k := RowAt(rows, r.target), RowAt(rows, t);
    var after := PutRow(rows, r);
    if r.target == t {
      FirstRowIs(after, t, i);
    } else if k < |rows| {
      FirstRowIs(after, t, k);
    } else {
      FirstRowIs(after, t, |after|);
    }
  }

  /** The last of the new rows for a target wins over the ones before it and over the old one. */
  function LastRow(rows: seq<Row>, t: string): Option<Row> {
    if rows == [] then None
    else if rows[|rows| - 1].target == t then Some(rows[|rows| - 1])
    else LastRow(rows[..|rows| - 1], t)
  }

  function Over(first: Option<Row>, second: Option<Row>): Option<Row> {
    if second.Some? then second else first
  }

  lemma {:induction false} PutRowsFinds(rows: seq<Row>, news: seq<Row>, t: string)
    ensures FindRow(PutRows(rows, news), t) == Over(FindRow(rows, t), LastRow(news, t))
    decreases |news|
  {
    if news != [] {
      hide FindRow, PutRow;
      var n := |news| - 1;
      PutRowsFinds(rows, news[..n], t);
      PutRowFinds(PutRows(rows, news[..n]), news[n], t);
    }
  }

  lemma {:induction false} UniqueLastIsFirst(rows: seq<Row>, t: string)
    requires UniqueTargets(rows)
    ensures LastRow(rows, t) == FindRow(rows, t)
    decreases |rows|
  {
    var i := RowAt(rows, t);
    if rows != [] {
      var n := |rows| - 1;
      if rows[n].target != t {
        UniqueLastIsFirst(rows[..n], t);
        FirstRowIs(rows[..n], t, if i < |rows| then i else n);
      }
    }
  }

  lemma FindInsert(le: NameOrder, r: Row, s: seq<Row>, t: string)
    requires TotalPreorder(le)
    ensures FindRow(Insert(ByTarget(le), r, s), t) == if r.target == t then Some(r) else FindRow(s, t)
    decreases |s|
  {
    if s == [] {
    } else if le(r.target, s[0].target) {
      FindCons(r, s, t);
    } else {
      FindInsert(le, r, s[1..], t);
      FindCons(s[0], Insert(ByTarget(le), r, s[1..]), t);
      FindCons(s[0], s[1..], t);
      assert s == [s[0]] + s[1..];
      assert le(r.target, r.target);
    }
  }

  lemma FindCons(r: Row, s: seq<Row>, t: string)
    ensures FindRow([r] + s, t) == if r.target == t then Some(r) else FindRow(s, t)
  {
  }

  /** Sorting by target is stable, so it changes no answer. */
  lemma {:induction false} FindSorted(le: NameOrder, s: seq<Row>, t: string)
    requires TotalPreorder(le)
    ensures FindRow(Sort(ByTarget(le), s), t) == FindRow(s, t)
    decreases |s|
  {
    if s != [] {
      FindSorted(le, s[1..], t);
      FindInsert(le, s[0], Sort(ByTarget(le), s[1..]), t);
      FindCons(s[0], s[1..], t);
      assert s == [s[0]] + s[1..];
    }
  }

  // ---------- what a whole merge does ----------

  lemma FirstBenchIs(benches: seq<Bench>, name: string, i: nat)
    requires i <= |benches| && (i < |benches| ==> benches[i].name == name)
    requires forall j :: 0 <= j < i ==> benches[j].name != name
    ensures BenchAt(benches, name) == i
  {
  }

  function RowsOf(benches: seq<Bench>, name: string): Option<seq<Row>> {
    var i := BenchAt(benches, name);
    if i < |benches| then Some(benches[i].results) else None
  }

  lemma PutBenchRows(le: NameOrder, benches: seq<Bench>, b: Bench, name: string)
    ensures RowsOf(PutBench(le, benches, b), name) ==
            if b.name != name then RowsOf(benches, name)
            else if RowsOf(benches, name).None? then Some(b.results)
            else Some(Sort(ByTarget(le), PutRows(RowsOf(benches, name).value, b.results)))
  {
    hide Sort, PutRows;
    var i, k := BenchAt(benches, b.name), BenchAt(benches, name);
    var after := PutBench(le, benches, b);
    if b.name == name {
      FirstBenchIs(after, name, i);
    } else if k < |benches| {
      FirstBenchIs(after, name, k);
    } else {
      FirstBenchIs(after, name, |after|);
    }
  }

  lemma PutBenchFinds(le: NameOrder, benches: seq<Bench>, b: Bench, name: string, t: string)
    requires TotalPreorder(le)
    ensures Find(PutBench(le, benches, b), name, t) ==
            if b.name != name then Find(benches, name, t)
            else if HasName(benches, name) then Over(Find(benches, name, t), LastRow(b.results, t))
            else FindRow(b.results, t)
  {
    hide PutBench, FindRow, Sort, PutRows, LastRow;
    PutBenchRows(le, benches, b, name);
    var earlier := RowsOf(benches, name);
    if b.name == name && earlier.Some? {
      FindSorted(le, PutRows(earlier.value, b.results), t);
      PutRowsFinds(earlier.value, b.results, t);
    }
  }

  /** The last row of a run for a benchmark and a target, over all benchmarks of that name. */
  function LastMeasured(news: seq<Bench>, name: string, t: string): Option<Row> {
    if news == [] then None
    else
      var b := news[|news| - 1];
      Over(LastMeasured(news[..|news| - 1], name, t), if b.name == name then LastRow(b.results, t) else None)
  }

  /** What a run says about a benchmark that the file does not have: its first entry is appended as it is and
      answers with its first row for the target, and later entries of that name are merged into it. */
  function AnswerOfNew(news: seq<Bench>, name: string, t: string): Option<Row> {
    var i := BenchAt(news, name);
    if i == |news| then None else Over(FindRow(news[i].results, t), LastMeasured(news[i + 1..], name, t))
  }

  lemma AnswerOfMore(news: seq<Bench>, b: Bench, name: string, t: string)
    ensures AnswerOfNew(news + [b], name, t) ==
            if b.name != name then AnswerOfNew(news, name, t)
            else if HasName(news, name) then Over(AnswerOfNew(news, name, t), LastRow(b.results, t))
            else FindRow(b.results, t)
  {
    hide FindRow, LastRow;
    var i, all := BenchAt(news, name), news + [b];
    if i < |news| {
      FirstBenchIs(all, name, i);
      assert all[i + 1..] == news[i + 1..] + [b];
      assert all[i + 1..][..|news| - i - 1] == news[i + 1..];
    } else if b.name == name {
      FirstBenchIs(all, name, |news|);
    } else {
      FirstBenchIs(all, name, |all|);
    }
  }

  /** What the merge answers, for every run: new rows for a benchmark of the file win, the last one first, and
      a benchmark that is new to the file answers as the run alone does. */
  lemma {:induction false} MergeAnswers(le: NameOrder, benches: seq<Bench>, news: seq<Bench>, name: string, t: string)
    requires TotalPreorder(le)
    ensures Find(PutBenches(le, benches, news), name, t) ==
            if HasName(benches, name) then Over(Find(benches, name, t), LastMeasured(news, name, t))
            else AnswerOfNew(news, name, t)
    decreases |news|
  {
    if news == [] {
      NotFound(benches, name, t);
    } else {
      hide Find, PutBench, FindRow, LastRow, TotalPreorder, AnswerOfNew;
      var n := |news| - 1;
      var before, b := news[..n], news[n];
      assert news == before + [b];
      MergeAnswers(le, benches, before, name, t);
      PutBenchFinds(le, PutBenches(le, benches, before), b, name, t);
      NamesAfter(le, benches, before, name);
      AnswerOfMore(before, b, name, t);
    }
  }

  lemma FindSnoc(benches: seq<Bench>, b: Bench, name: string, t: string)
    ensures Find(benches + [b], name, t) ==
            if BenchAt(benches, name) < |benches| then Find(benches, name, t)
            else if b.name == name then FindRow(b.results, t)
            else None
  {
    hide FindRow;
    var all := benches + [b];
    var i := BenchAt(benches, name);
    if i < |benches| {
      FirstBenchIs(all, name, i);
    } else if b.name == name {
      FirstBenchIs(all, name, |benches|);
    } else {
      FirstBenchIs(all, name, |all|);
    }
  }

  lemma {:induction false} LastOfUnique(news: seq<Bench>, name: string, t: string)
    requires UniqueKeys(news)
    ensures LastMeasured(news, name, t) == Find(news, name, t) == AnswerOfNew(news, name, t)
    decreases |news|
  {
    if news != [] {
      var n := |news| - 1;
      var before, b := news[..n], news[n];
      assert UniqueKeys(before);
      assert news == before + [b];
      LastOfUnique(before, name, t);
      FindSnoc(before, b, name, t);
      AnswerOfMore(before, b, name, t);
      UniqueLastIsFirst(b.results, t);
      NotFound(before, name, t);
      assert BenchAt(before, name) < n ==> b.name != name;
    }
  }

  /** The merge of a run with unique keys is the right-biased union by (benchmark, target): every new row wins,
      and every old row that was not measured again survives. */
  lemma MergeIsUnion(le: NameOrder, benches: seq<Bench>, news: seq<Bench>, name: string, t: string)
    requires TotalPreorder(le) && UniqueKeys(news)
    ensures Find(PutBenches(le, benches, news), name, t) == Over(Find(benches, name, t), Find(news, name, t))
  {
    hide Find, PutBenches, UniqueKeys, LastMeasured, AnswerOfNew, TotalPreorder;
    MergeAnswers(le, benches, news, name, t);
    LastOfUnique(news, name, t);
    NotFound(benches, name, t);
  }

  lemma NotFound(benches: seq<Bench>, name: string, t: string)
    ensures BenchAt(benches, name) == |benches| ==> Find(benches, name, t) == None
  {
  }

  lemma ByTargetTotal(le: NameOrder)
    requires TotalPreorder(le)
    ensures TotalPreorder(ByTarget(le))
  {
    var before := ByTarget(le);
    forall a, b ensures before(a, b) || before(b, a) {
      assert le(a.target, b.target) || le(b.target, a.target);
    }
    forall a, b, c | before(a, b) && before(b, c) ensures before(a, c) {
      assert le(a.target, b.target) && le(b.target, c.target);
    }
  }

  lemma HasRows(benches: seq<Bench>, name: string)
    ensures HasName(benches, name) <==> RowsOf(benches, name).Some?
  {
  }

  /** A benchmark that was in the file and was run again comes out with its rows in order of target. */
  lemma {:induction false} RemeasuredIsOrdered(le: NameOrder, benches: seq<Bench>, news: seq<Bench>, name: string)
    requires TotalPreorder(le) && HasName(benches, name) && HasName(news, name)
    ensures var rows := RowsOf(PutBenches(le, benches, news), name);
            rows.Some? && Ordered(ByTarget(le), rows.value)
    decreases |news|
  {
    hide PutBench, BenchAt, RowsOf, Ordered, Sort, PutRows, TotalPreorder;
    var n := |news| - 1;
    BenchPrefix(news, n, name);
    var before := PutBenches(le, benches, news[..n]);
    PutBenchRows(le, before, news[n], name);
    NamesAfter(le, benches, news[..n], name);
    HasRows(before, name);
    HasRows(benches, name);
    assert PutBenches(le, benches, news) == PutBench(le, before, news[n]);
    if news[n].name == name {
      ByTargetTotal(le);
      SortOrdered(ByTarget(le), PutRows(RowsOf(before, name).value, news[n].results));
    } else {
      RemeasuredIsOrdered(le, benches, news[..n], name);
    }
  }

  /** What the merged suite says: the system information of the run if it has any, else that of the file, and about
      each key the run's row where it measured one, else the file's. */
  lemma MergedSays(le: NameOrder, kept: Option<Suite>, suite: Suite, name: string, t: string)
    requires TotalPreorder(le) && UniqueKeys(suite.benchmarks)
    ensures var m := Merged(le, kept, suite);
            && (suite.systemInfo.Some? ==> m.systemInfo == suite.systemInfo)
            && (suite.systemInfo.None? ==> m.systemInfo == if kept.Some? then kept.value.systemInfo else None)
            && (Find(suite.benchmarks, name, t).Some? ==>
                  Find(m.benchmarks, name, t) == Find(suite.benchmarks, name, t))
            && (Find(suite.benchmarks, name, t).None? ==>
                  Find(m.benchmarks, name, t) == if kept.Some? then Find(kept.value.benchmarks, name, t) else None)
  {
    hide Find, PutBenches, UniqueKeys, TotalPreorder;
    if kept.Some? {
      MergeIsUnion(le, kept.value.benchmarks, suite.benchmarks, name, t);
    }
  }

  /** The run alone answers with the row that it also ends on: a later entry of the benchmark has the target,
      or the first and last row for it in the first entry are the same. */
  predicate AnswersWithLast(news: seq<Bench>, name: string, t: string) {
    var i := BenchAt(news, name);
    i < |news| ==>
      LastMeasured(news[i + 1..], name, t).Some? || FindRow(news[i].results, t) == LastRow(news[i].results, t)
  }

  lemma {:induction false} LastRowExists(rows: seq<Row>, t: string)
    ensures LastRow(rows, t).Some? <==> FindRow(rows, t).Some?
    decreases |rows|
  {
    if rows != [] {
      var n := |rows| - 1;
      LastRowExists(rows[..n], t);
      var i := RowAt(rows, t);
      if rows[n].target != t {
        FirstRowIs(rows[..n], t, if i < |rows| then i else n);
      }
    }
  }

  lemma {:induction false} LastAppend(a: seq<Bench>, b: seq<Bench>, name: string, t: string)
    ensures LastMeasured(a + b, name, t) == Over(LastMeasured(a, name, t), LastMeasured(b, name, t))
    decreases |b|
  {
    hide LastRow;
    if b == [] {
      assert a + b == a;
    } else {
      var n := |b| - 1;
      LastAppend(a, b[..n], name, t);
      assert (a + b)[..|a + b| - 1] == a + b[..n] && (a + b)[|a + b| - 1] == b[n];
    }
  }

  lemma {:induction false} LastAbsent(news: seq<Bench>, name: string, t: string)
    requires forall i :: 0 <= i < |news| ==> news[i].name != name
    ensures LastMeasured(news, name, t) == None
    decreases |news|
  {
    if news != [] {
      LastAbsent(news[..|news| - 1], name, t);
    }
  }

  lemma LastOfOne(b: Bench, name: string, t: string)
    ensures LastMeasured([b], name, t) == if b.name == name then LastRow(b.results, t) else None
  {
    hide LastRow;
    assert [b][..0] == [];
  }

  /** From its first entry on, the run's last row is the last of that entry or of a later one. */
  lemma LastFromFirst(news: seq<Bench>, name: string, t: string)
    ensures var i := BenchAt(news, name);
            LastMeasured(news, name, t) ==
            if i == |news| then None else Over(LastRow(news[i].results, t), LastMeasured(news[i + 1..], name, t))
  {
    var i := BenchAt(news, name);
    hide BenchAt, LastMeasured, LastRow;
    LastAbsent(news[..i], name, t);
    if i < |news| {
      var more := news[i + 1..];
      assert news == news[..i] + ([news[i]] + more);
      LastAppend(news[..i], [news[i]] + more, name, t);
      LastAppend([news[i]], more, name, t);
      LastOfOne(news[i], name, t);
    } else {
      assert news[..i] == news;
    }
  }

  /** Merging the same run again changes no answer about a benchmark exactly when the file had it before, or
      the run ends on the row that it answers with. */
  lemma MergeTwiceIsOnce(le: NameOrder, benches: seq<Bench>, news: seq<Bench>, name: string, t: string)
    requires TotalPreorder(le)
    ensures (Find(PutBenches(le, PutBenches(le, benches, news), news), name, t) ==
             Find(PutBenches(le, benches, news), name, t))
            <==> HasName(benches, name) || AnswersWithLast(news, name, t)
  {
    hide Find, PutBenches, LastMeasured, FindRow, LastRow, BenchAt, TotalPreorder;
    MergeAnswers(le, PutBenches(le, benches, news), news, name, t);
    MergeAnswers(le, benches, news, name, t);
    NamesAfter(le, benches, news, name);
    LastFromFirst(news, name, t);
    if HasName(news, name) {
      LastRowExists(news[BenchAt(news, name)].results, t);
    }
  }

  /** A run with unique keys always does. */
  lemma UniqueAnswersWithLast(news: seq<Bench>, name: string, t: string)
    requires UniqueKeys(news)
    ensures AnswersWithLast(news, name, t)
  {
    var i := BenchAt(news, name);
    if i < |news| {
      UniqueLastIsFirst(news[i].results, t);
    }
  }

  /** A benchmark that is new to the file and lists a target twice: the key is there twice after the merge, which
      answers with the first row, and merging the run again makes it answer with the second. */
  lemma TargetListedTwice(le: NameOrder)
    requires TotalPreorder(le)
    ensures var news := [Bench("b", [Row("t", 1), Row("t", 2)])];
            var once := PutBenches(le, [], news);
            && UniqueKeys([]) && !UniqueKeys(once)
            && Find(once, "b", "t") == Some(Row("t", 1))
            && Find(PutBenches(le, once, news), "b", "t") == Some(Row("t", 2))
  {
    var rows := [Row("t", 1), Row("t", 2)];
    var b := Bench("b", rows);
    MergeIntoNothing(le, b);
    TwoRows(rows, "t");
    assert !UniqueTargets([b][0].results) && BenchAt([b], "b") == 0;
    LastOfOne(b, "b", "t");
    hide PutBenches, BenchAt, LastMeasured, LastRow, FindRow;
    MergeAnswers(le, [b], [b], "b", "t");
  }

  lemma MergeIntoNothing(le: NameOrder, b: Bench)
    ensures PutBenches(le, [], [b]) == [b]
  {
    assert [b][..0] == [] && BenchAt([], b.name) == 0;
    assert PutBench(le, [], b) == [b];
  }

  lemma TwoRows(rows: seq<Row>, t: string)
    requires |rows| == 2 && rows[0].target == t == rows[1].target
    ensures FindRow(rows, t) == Some(rows[0]) && LastRow(rows, t) == Some(rows[1]) && !UniqueTargets(rows)
  {
  }

  // ---------- uniqueness ----------

  lemma {:induction false} PutRowsUnique(rows: seq<Row>, news: seq<Row>)
    requires UniqueTargets(rows)
    ensures UniqueTargets(PutRows(rows, news))
    decreases |news|
  {
    if news != [] {
      PutRowsUnique(rows, news[..|news| - 1]);
    }
  }

  lemma {:induction false} PutRowsDuplicated(rows: seq<Row>, news: seq<Row>)
    requires !UniqueTargets(rows)
    ensures !UniqueTargets(PutRows(rows, news))
    decreases |news|
  {
    if news != [] {
      var n := |news| - 1;
      PutRowsDuplicated(rows, news[..n]);
      var mid := PutRows(rows, news[..n]);
      var i, j :| 0 <= i < j < |mid| && mid[i].target == mid[j].target;
      var after := PutRow(mid, news[n]);
      assert after[i].target == mid[i].target && after[j].target == mid[j].target;
    }
  }

  /** Sorting keeps the targets as they are, duplicates included. */
  lemma {:induction false} InsertUnique(le: NameOrder, r: Row, s: seq<Row>)
    ensures UniqueTargets(Insert(ByTarget(le), r, s)) <==> UniqueTargets([r] + s)
    decreases |s|
  {
    hide UniqueTargets, HasTarget;
    if s != [] && !le(r.target, s[0].target) {
      var rest := Insert(ByTarget(le), r, s[1..]);
      InsertUnique(le, r, s[1..]);
      InsertedTargets(le, r, s[1..], s[0].target);
      UniqueCons(s[0], rest);
      UniqueCons(s[0], s[1..]);
      UniqueCons(r, s);
      UniqueCons(r, s[1..]);
      assert s == [s[0]] + s[1..];
      HasCons(s[0], s[1..], r.target);
    } else {
      assert Insert(ByTarget(le), r, s) == [r] + s;
    }
  }

  predicate HasTarget(rows: seq<Row>, t: string) {
    exists i :: 0 <= i < |rows| && rows[i].target == t
  }

  lemma UniqueCons(r: Row, s: seq<Row>)
    ensures UniqueTargets([r] + s) <==> UniqueTargets(s) && !HasTarget(s, r.target)
  {
    var all := [r] + s;
    if UniqueTargets(all) {
      forall i | 0 <= i < |s| ensures s[i].target != r.target {
        assert all[0].target != all[i + 1].target;
      }
      forall i, j | 0 <= i < j < |s| ensures s[i].target != s[j].target {
        assert all[i + 1].target != all[j + 1].target;
      }
    }
  }

  lemma HasCons(r: Row, s: seq<Row>, t: string)
    ensures HasTarget([r] + s, t) <==> r.target == t || HasTarget(s, t)
  {
    var all := [r] + s;
    if HasTarget(s, t) {
      var i :| 0 <= i < |s| && s[i].target == t;
      assert all[i + 1].target == t;
    }
    assert all[0] == r;
  }

  lemma {:induction false} InsertedTargets(le: NameOrder, r: Row, s: seq<Row>, t: string)
    ensures HasTarget(Insert(ByTarget(le), r, s), t) <==> r.target == t || HasTarget(s, t)
    decreases |s|
  {
    HasCons(r, s, t);
    if s != [] && !le(r.target, s[0].target) {
      InsertedTargets(le, r, s[1..], t);
      HasCons(s[0], Insert(ByTarget(le), r, s[1..]), t);
      HasCons(s[0], s[1..], t);
      assert s == [s[0]] + s[1..];
    } else {
      assert Insert(ByTarget(le), r, s) == [r] + s;
    }
  }

  lemma {:induction false} SortTargets(le: NameOrder, s: seq<Row>, t: string)
    ensures HasTarget(Sort(ByTarget(le), s), t) <==> HasTarget(s, t)
    decreases |s|
  {
    if s != [] {
      SortTargets(le, s[1..], t);
      InsertedTargets(le, s[0], Sort(ByTarget(le), s[1..]), t);
      HasCons(s[0], s[1..], t);
      assert s == [s[0]] + s[1..];
    }
  }

  lemma {:induction false} SortUnique(le: NameOrder, s: seq<Row>)
    ensures UniqueTargets(Sort(ByTarget(le), s)) <==> UniqueTargets(s)
    decreases |s|
  {
    if s != [] {
      var rest := Sort(ByTarget(le), s[1..]);
      SortUnique(le, s[1..]);
      InsertUnique(le, s[0], rest);
      UniqueCons(s[0], rest);
      UniqueCons(s[0], s[1..]);
      SortTargets(le, s[1..], s[0].target);
      assert s == [s[0]] + s[1..];
    }
  }

  lemma PutBenchUnique(le: NameOrder, benches: seq<Bench>, b: Bench)
    ensures UniqueKeys(PutBench(le, benches, b)) <==>
            UniqueKeys(benches) && (HasName(benches, b.name) || UniqueTargets(b.results))
  {
    hide UniqueTargets, Sort, PutRows;
    var i := BenchAt(benches, b.name);
    var after := PutBench(le, benches, b);
    if i < |benches| {
      var rows := benches[i].results;
      SortUnique(le, PutRows(rows, b.results));
      if UniqueTargets(rows) {
        PutRowsUnique(rows, b.results);
      } else {
        PutRowsDuplicated(rows, b.results);
      }
      assert forall k :: 0 <= k < |benches| ==> after[k].name == benches[k].name;
      assert forall k :: 0 <= k < |benches| && k != i ==> after[k] == benches[k];
      assert UniqueTargets(after[i].results) <==> UniqueTargets(benches[i].results);
      assert UniqueNames(after) <==> UniqueNames(benches);
    } else {
      assert after == benches + [b];
      assert forall k :: 0 <= k < |benches| ==> after[k] == benches[k];
      assert after[|benches|] == b;
      assert UniqueNames(after) <==> UniqueNames(benches);
    }
  }

  /** The benchmarks that the merge appends as they stand have no target twice. */
  ghost predicate AppendedUnique(benches: seq<Bench>, news: seq<Bench>) {
    forall n :: 0 <= n < |news| ==> AppendedOnce(benches, news, n)
  }

  ghost predicate AppendedOnce(benches: seq<Bench>, news: seq<Bench>, n: nat)
    requires n < |news|
  {
    HasName(benches, news[n].name) || BenchAt(news, news[n].name) < n || UniqueTargets(news[n].results)
  }

  lemma PutBenchNames(le: NameOrder, benches: seq<Bench>, b: Bench, name: string)
    ensures HasName(PutBench(le, benches, b), name) <==> HasName(benches, name) || b.name == name
  {
    hide PutBench;
    PutBenchRows(le, benches, b, name);
    assert HasName(benches, name) <==> RowsOf(benches, name).Some?;
    assert HasName(PutBench(le, benches, b), name) <==> RowsOf(PutBench(le, benches, b), name).Some?;
  }

  lemma {:induction false} NamesAfter(le: NameOrder, benches: seq<Bench>, news: seq<Bench>, name: string)
    ensures HasName(PutBenches(le, benches, news), name) <==> HasName(benches, name) || HasName(news, name)
    decreases |news|
  {
    if news != [] {
      hide PutBench;
      var n := |news| - 1;
      NamesAfter(le, benches, news[..n], name);
      PutBenchNames(le, PutBenches(le, benches, news[..n]), news[n], name);
      BenchPrefix(news, n, name);
    }
  }

  lemma BenchPrefix(news: seq<Bench>, n: nat, name: string)
    requires n <= |news|
    ensures BenchAt(news[..n], name) < n <==> BenchAt(news, name) < n
    ensures BenchAt(news, name) < n ==> BenchAt(news[..n], name) == BenchAt(news, name)
  {
  }

  /** Exactly when keys stay unique: the old keys are, and no benchmark that is appended whole, being new to
      the file and the first of its name in the run, lists a target twice. Duplicates anywhere else in the run
      are merged away. */
  lemma {:induction false} UniqueKeptIff(le: NameOrder, benches: seq<Bench>, news: seq<Bench>)
    ensures UniqueKeys(PutBenches(le, benches, news)) <==> UniqueKeys(benches) && AppendedUnique(benches, news)
    decreases |news|
  {
    if news != [] {
      hide PutBench, UniqueKeys, UniqueTargets, BenchAt, HasName, AppendedUnique;
      var n := |news| - 1;
      var before := PutBenches(le, benches, news[..n]);
      UniqueKeptIff(le, benches, news[..n]);
      PutBenchUnique(le, before, news[n]);
      NamesAfter(le, benches, news[..n], news[n].name);
      LastName(news, n);
      AppendedSplit(benches, news, n);
    } else {
      assert AppendedUnique(benches, []);
    }
  }

  lemma LastName(news: seq<Bench>, n: nat)
    requires n < |news|
    ensures HasName(news[..n], news[n].name) <==> BenchAt(news, news[n].name) < n
  {
    BenchPrefix(news, n, news[n].name);
  }

  lemma AppendedPrefix(benches: seq<Bench>, news: seq<Bench>, n: nat, k: nat)
    requires k < n <= |news|
    ensures AppendedOnce(benches, news[..n], k) <==> AppendedOnce(benches, news, k)
  {
  }

  lemma AppendedSplit(benches: seq<Bench>, news: seq<Bench>, n: nat)
    requires |news| == n + 1
    ensures AppendedUnique(benches, news) <==>
            AppendedUnique(benches, news[..n]) && AppendedOnce(benches, news, n)
  {
    hide AppendedOnce;
    forall k | 0 <= k < n ensures AppendedOnce(benches, news[..n], k) <==> AppendedOnce(benches, news, k) {
      AppendedPrefix(benches, news, n, k);
    }
  }
}
