/** Build files: reading lines into arguments and expanding included files, each once. */
module HxmlArgs {
  import opened Digraph
  import opened Sequences
  import opened Wrappers

  /** A path is a directory and what is joined to it. */
  datatype Path = Under(dir: string, rel: string)
  /** A flag with its value, or a bare value with an empty flag. */
  datatype Arg = Arg(flag: string, value: Option<string>, file: Path, line: nat)

  /** The readable build files by path, the canonical name of a path, and the message for a path that cannot
      be read. All relative paths resolve against `dir`. */
  datatype World = World(dir: string, texts: map<Path, seq<string>>, canon: Path -> Name, unreadable: Path -> string)

  // ---------- one line ----------

  predicate IsSpace(c: char) {
    c == ' ' || '\t' <= c <= '\r'
  }

  function TrimStart(s: string): string {
    if s != "" && IsSpace(s[0]) then TrimStart(s[1..]) else s
  }

  function TrimEnd(s: string): string {
    if s != "" && IsSpace(s[|s| - 1]) then TrimEnd(s[..|s| - 1]) else s
  }

  function Trim(s: string): string {
    TrimEnd(TrimStart(s))
  }

  /** Where the first white space stands, or the length. */
  function SpaceAt(s: string): (i: nat)
    ensures i <= |s|
  {
    if s == "" || IsSpace(s[0]) then 0 else 1 + SpaceAt(s[1..])
  }

  function Unquote(text: string): string {
    var v := Trim(text);
    if |v| >= 2 && v[0] == v[|v| - 1] && (v[0] == '"' || v[0] == '\'') then v[1..|v| - 1] else v
  }

  /** The flag and value of a line, or nothing for a blank line or a comment. */
  function Lex(raw: string): Option<(string, Option<string>)> {
    var line := Trim(raw);
    if line == "" || line[0] == '#' then None
    else if line[0] == '-' then
      var i := SpaceAt(line);
      if i < |line| then Some((line[..i], Some(Unquote(Trim(line[i + 1..])))))
      else Some((line, None))
    else Some(("", Some(Unquote(line))))
  }

  predicate EndsWith(s: string, suffix: string) {
    |suffix| <= |s| && s[|s| - |suffix|..] == suffix
  }

  /** What a line stands for. */
  datatype Item = Nothing | Include(path: Path) | Plain(flag: string, value: Option<string>)

  function ItemOf(w: World, raw: string): Item {
    match Lex(raw)
    case None => Nothing
    case Some((flag, value)) =>
      if flag == "" && value.Some? && EndsWith(value.value, ".hxml") then Include(Under(w.dir, value.value))
      else Plain(flag, value)
  }

  // ---------- expansion ----------

  function Readable(w: World): set<Name> {
    set p | p in w.texts :: w.canon(p)
  }

  /** The canonical names of the readable files that have not been met. */
  function Unmet(w: World, seen: seq<Name>): set<Name> {
    Readable(w) - Elems(seen)
  }

  lemma MetShrinks(w: World, seen: seq<Name>, path: Path, more: seq<Name>)
    requires path in w.texts && w.canon(path) !in seen && seen + [w.canon(path)] <= more
    ensures |Unmet(w, more)| < |Unmet(w, seen)|
  {
    var k := w.canon(path);
    assert k in Readable(w);
    assert (seen + [k])[|seen|] == k && more[|seen|] == k;
    forall x | x in seen ensures x in more {
      var i :| 0 <= i < |seen| && seen[i] == x;
      assert (seen + [k])[i] == x && more[i] == x;
    }
    SmallerSet(Unmet(w, more), Unmet(w, seen), k);
  }

  lemma MetNoMore(w: World, seen: seq<Name>, more: seq<Name>)
    requires seen <= more
    ensures |Unmet(w, more)| <= |Unmet(w, seen)|
  {
    assert forall x :: x in seen ==> x in more;
    if Unmet(w, more) != Unmet(w, seen) {
      var k :| k in Unmet(w, seen) && k !in Unmet(w, more);
      SmallerSet(Unmet(w, more), Unmet(w, seen), k);
    }
  }

  lemma SmallerSet(a: set<Name>, b: set<Name>, k: Name)
    requires a <= b && k in b && k !in a
    ensures |a| < |b|
  {
    SubsetSize(a, b - {k});
  }

  lemma SubsetSize(a: set<Name>, b: set<Name>)
    requires a <= b
    ensures |a| <= |b|
    decreases |a|
  {
    if a != {} {
      var x :| x in a;
      SubsetSize(a - {x}, b - {x});
    }
  }

  function Missing(w: World, file: Path, n: nat, path: Path): Arg {
    Arg("--missing-include", Some(w.unreadable(path)), file, n + 1)
  }

  /** The arguments of lines `n` on, where the first reference to a file is replaced by that file's own
      arguments and later ones by nothing; and the files met by then. */
  function Expand(w: World, file: Path, lines: seq<string>, n: nat, seen: seq<Name>): (r: (seq<Arg>, seq<Name>))
    requires n <= |lines|
    ensures seen <= r.1
    decreases |Unmet(w, seen)|, |lines| - n
  {
    if n == |lines| then ([], seen)
    else
      match ItemOf(w, lines[n])
      case Nothing => Expand(w, file, lines, n + 1, seen)
      case Plain(flag, value) =>
        var rest := Expand(w, file, lines, n + 1, seen);
        ([Arg(flag, value, file, n + 1)] + rest.0, rest.1)
      case Include(path) =>
        var key := w.canon(path);
        if key in seen then Expand(w, file, lines, n + 1, seen)
        else if path in w.texts then
          MetShrinks(w, seen, path, seen + [key]);
          var inner := Expand(w, path, w.texts[path], 0, seen + [key]);
          MetShrinks(w, seen, path, inner.1);
          var rest := Expand(w, file, lines, n + 1, inner.1);
          (inner.0 + rest.0, rest.1)
        else
          MetNoMore(w, seen, seen + [key]);
          var rest := Expand(w, file, lines, n + 1, seen + [key]);
          ([Missing(w, file, n, path)] + rest.0, rest.1)
  }

  lemma ExpandLine(w: World, file: Path, lines: seq<string>, n: nat, seen: seq<Name>)
    requires n < |lines|
    ensures var item := ItemOf(w, lines[n]);
            var r := Expand(w, file, lines, n, seen);
            if item.Include? && w.canon(item.path) !in seen then
              var met := seen + [w.canon(item.path)];
              if item.path in w.texts then
                var inner := Expand(w, item.path, w.texts[item.path], 0, met);
                r == (inner.0 + Expand(w, file, lines, n + 1, inner.1).0, Expand(w, file, lines, n + 1, inner.1).1)
              else
                r == ([Missing(w, file, n, item.path)] + Expand(w, file, lines, n + 1, met).0,
                      Expand(w, file, lines, n + 1, met).1)
            else if item.Plain? then
              r == ([Arg(item.flag, item.value, file, n + 1)] + Expand(w, file, lines, n + 1, seen).0,
                    Expand(w, file, lines, n + 1, seen).1)
            else
              r == Expand(w, file, lines, n + 1, seen)
  {
  }

  method CollectArgs(w: World, lines: seq<string>, file: Path, out: seq<Arg>, seen: seq<Name>)
    returns (args: seq<Arg>, met: seq<Name>)
    ensures args == out + Expand(w, file, lines, 0, seen).0
    ensures met == Expand(w, file, lines, 0, seen).1
    decreases |Unmet(w, seen)|
  {
    args, met := out, seen;
    ghost var goal := Expand(w, file, lines, 0, seen);
    for n := 0 to |lines|
      invariant seen <= met
      invariant args + Expand(w, file, lines, n, met).0 == out + goal.0
      invariant Expand(w, file, lines, n, met).1 == goal.1
    {
      hide Unmet, ItemOf, Expand;
      ExpandLine(w, file, lines, n, met);
      ghost var before := args;
      ghost var own: seq<Arg> := [];
      match ItemOf(w, lines[n]) {
        case Nothing =>
        case Plain(flag, value) =>
          own := [Arg(flag, value, file, n + 1)];
          args := args + [Arg(flag, value, file, n + 1)];
        case Include(path) =>
          var key := w.canon(path);
          if key !in met {
            if path in w.texts {
              MetNoMore(w, seen, met);
              MetShrinks(w, met, path, met + [key]);
              own := Expand(w, path, w.texts[path], 0, met + [key]).0;
              args, met := CollectArgs(w, w.texts[path], path, args, met + [key]);
            } else {
              own := [Missing(w, file, n, path)];
              args, met := args + [Missing(w, file, n, path)], met + [key];
            }
          }
      }
      assert args == before + own;
      Regroup(before, own, Expand(w, file, lines, n + 1, met).0);
    }
    assert args + [] == args;
  }

  lemma Regroup(a: seq<Arg>, b: seq<Arg>, c: seq<Arg>)
    ensures a + (b + c) == a + b + c
    ensures [] + c == c
  {
  }

  // ---------- which files are read ----------

  /** Paths with one canonical name lead to one text. */
  ghost predicate CanonFits(w: World) {
    forall p, q :: w.canon(p) == w.canon(q) ==>
      (p in w.texts <==> q in w.texts) && (p in w.texts ==> w.texts[p] == w.texts[q])
  }

  /** The files that lines `n` on refer to. */
  function Refs(w: World, lines: seq<string>, n: nat): set<Name>
    requires n <= |lines|
  {
    set i | n <= i < |lines| && ItemOf(w, lines[i]).Include? :: w.canon(ItemOf(w, lines[i]).path)
  }

  /** Which file refers to which, by canonical name. */
  function IncludeEdges(w: World): Edges {
    map p | p in w.texts :: w.canon(p) := RefsOf(w, w.canon(p))
  }

  function RefsOf(w: World, k: Name): set<Name> {
    set p, i | p in w.texts && w.canon(p) == k && 0 <= i < |w.texts[p]| && ItemOf(w, w.texts[p][i]).Include? ::
      w.canon(ItemOf(w, w.texts[p][i]).path)
  }

  lemma EdgesAreRefs(w: World, p: Path)
    requires CanonFits(w) && p in w.texts
    ensures Succ(IncludeEdges(w), w.canon(p)) == Refs(w, w.texts[p], 0)
  {
  }

  lemma RefsLine(w: World, lines: seq<string>, n: nat)
    requires n < |lines|
    ensures var item := ItemOf(w, lines[n]);
            Refs(w, lines, n) == (if item.Include? then {w.canon(item.path)} else {}) + Refs(w, lines, n + 1)
  {
  }

  lemma PrefixElems(a: seq<Name>, b: seq<Name>)
    requires a <= b
    ensures Elems(a) <= Elems(b)
  {
  }

  /** The files that `met` adds to `seen`. */
  function New(seen: seq<Name>, met: seq<Name>): set<Name> {
    Elems(met) - Elems(seen)
  }

  ghost predicate ClosedUnder(e: Edges, files: set<Name>, met: seq<Name>) {
    forall k :: k in files ==> Succ(e, k) <= Elems(met)
  }

  /** No reference is left out: what the lines and the newly read files refer to has been met. */
  lemma {:induction false} ExpansionCloses(w: World, file: Path, lines: seq<string>, n: nat, seen: seq<Name>)
    requires CanonFits(w) && n <= |lines|
    ensures var met := Expand(w, file, lines, n, seen).1;
            Refs(w, lines, n) <= Elems(met) && ClosedUnder(IncludeEdges(w), New(seen, met), met)
    decreases |Unmet(w, seen)|, |lines| - n
  {
    if n < |lines| {
      hide ItemOf, Unmet, Expand, Refs, IncludeEdges, CanonFits;
      ExpandLine(w, file, lines, n, seen);
      RefsLine(w, lines, n);
      var item, e := ItemOf(w, lines[n]), IncludeEdges(w);
      var met := Expand(w, file, lines, n, seen).1;
      PrefixElems(seen, met);
      if item.Include? && w.canon(item.path) !in seen {
        var key := w.canon(item.path);
        var start := seen + [key];
        var mid := start;
        if item.path in w.texts {
          MetShrinks(w, seen, item.path, start);
          ExpansionCloses(w, item.path, w.texts[item.path], 0, start);
          mid := Expand(w, item.path, w.texts[item.path], 0, start).1;
          MetShrinks(w, seen, item.path, mid);
          EdgesAreRefs(w, item.path);
        } else {
          MetNoMore(w, seen, start);
          NoEdges(w, item.path);
        }
        ExpansionCloses(w, file, lines, n + 1, mid);
        CloseBoth(e, seen, key, mid, met);
      } else {
        ExpansionCloses(w, file, lines, n + 1, seen);
      }
    }
  }

  lemma NoEdges(w: World, p: Path)
    requires CanonFits(w) && p !in w.texts
    ensures Succ(IncludeEdges(w), w.canon(p)) == {}
  {
  }

  lemma CloseBoth(e: Edges, seen: seq<Name>, key: Name, mid: seq<Name>, met: seq<Name>)
    requires seen + [key] <= mid <= met
    requires Succ(e, key) <= Elems(mid)
    requires ClosedUnder(e, New(seen + [key], mid), mid) && ClosedUnder(e, New(mid, met), met)
    ensures key in met && ClosedUnder(e, New(seen, met), met)
  {
    PrefixElems(mid, met);
    PrefixElems(seen + [key], mid);
    assert key in seen + [key];
    forall k | k in New(seen, met) ensures Succ(e, k) <= Elems(met) {
      if k in mid && k != key {
        assert k !in seen + [key];
        assert k in New(seen + [key], mid);
      }
    }
  }

  ghost predicate ReferredFrom(e: Edges, refs: set<Name>, k: Name) {
    k in refs || exists r :: r in refs && Reaches(e, r, k)
  }

  lemma ReferredOnward(e: Edges, refs: set<Name>, key: Name, k: Name)
    requires key in refs && ReferredFrom(e, Succ(e, key), k)
    ensures ReferredFrom(e, refs, k)
  {
    if k in Succ(e, key) {
      StepReaches(e, key, k);
    } else {
      var r :| r in Succ(e, key) && Reaches(e, r, k);
      StepReaches(e, key, r);
      ReachesTransitive(e, key, r, k);
    }
  }

  lemma ReferredMore(e: Edges, refs: set<Name>, more: set<Name>, k: Name)
    requires refs <= more && ReferredFrom(e, refs, k)
    ensures ReferredFrom(e, more, k)
  {
  }

  /** Nothing is read that the lines do not lead to, and nothing is read twice. */
  lemma {:induction false} ExpansionSound(w: World, file: Path, lines: seq<string>, n: nat, seen: seq<Name>)
    requires CanonFits(w) && n <= |lines|
    ensures var met := Expand(w, file, lines, n, seen).1;
            forall k :: k in New(seen, met) ==> ReferredFrom(IncludeEdges(w), Refs(w, lines, n), k)
    decreases |Unmet(w, seen)|, |lines| - n
  {
    if n < |lines| {
      hide ItemOf, Unmet, Expand, Refs, IncludeEdges, CanonFits, ReferredFrom;
      ExpandLine(w, file, lines, n, seen);
      RefsLine(w, lines, n);
      var item, e, refs := ItemOf(w, lines[n]), IncludeEdges(w), Refs(w, lines, n);
      var met := Expand(w, file, lines, n, seen).1;
      if item.Include? && w.canon(item.path) !in seen {
        var key := w.canon(item.path);
        var start := seen + [key];
        var mid := start;
        if item.path in w.texts {
          MetShrinks(w, seen, item.path, start);
          ExpansionSound(w, item.path, w.texts[item.path], 0, start);
          mid := Expand(w, item.path, w.texts[item.path], 0, start).1;
          MetShrinks(w, seen, item.path, mid);
          EdgesAreRefs(w, item.path);
        } else {
          MetNoMore(w, seen, start);
        }
        ExpansionSound(w, file, lines, n + 1, mid);
        forall k | k in New(seen, met) ensures ReferredFrom(e, refs, k) {
          NewIsFrom(seen, key, mid, met, k);
          if k == key {
            ReferredDirectly(e, refs, key);
          } else if k in New(start, mid) {
            ReferredOnward(e, refs, key, k);
          } else {
            ReferredMore(e, Refs(w, lines, n + 1), refs, k);
          }
        }
      } else {
        ExpansionSound(w, file, lines, n + 1, seen);
        forall k | k in New(seen, met) ensures ReferredFrom(e, refs, k) {
          ReferredMore(e, Refs(w, lines, n + 1), refs, k);
        }
      }
    }
  }

  lemma ReferredDirectly(e: Edges, refs: set<Name>, k: Name)
    requires k in refs
    ensures ReferredFrom(e, refs, k)
  {
  }

  lemma NewIsFrom(seen: seq<Name>, key: Name, mid: seq<Name>, met: seq<Name>, k: Name)
    requires k in New(seen, met)
    ensures k == key || k in New(seen + [key], mid) || k in New(mid, met)
  {
  }

  lemma {:induction false} ReadOnce(w: World, file: Path, lines: seq<string>, n: nat, seen: seq<Name>)
    requires n <= |lines| && NoDup(seen)
    ensures NoDup(Expand(w, file, lines, n, seen).1)
    decreases |Unmet(w, seen)|, |lines| - n
  {
    if n < |lines| {
      hide ItemOf, Unmet, Expand;
      ExpandLine(w, file, lines, n, seen);
      var item := ItemOf(w, lines[n]);
      if item.Include? && w.canon(item.path) !in seen {
        var start := seen + [w.canon(item.path)];
        assert NoDup(start);
        if item.path in w.texts {
          MetShrinks(w, seen, item.path, start);
          ReadOnce(w, item.path, w.texts[item.path], 0, start);
          var mid := Expand(w, item.path, w.texts[item.path], 0, start).1;
          MetShrinks(w, seen, item.path, mid);
          ReadOnce(w, file, lines, n + 1, mid);
        } else {
          MetNoMore(w, seen, start);
          ReadOnce(w, file, lines, n + 1, start);
        }
      } else {
        ReadOnce(w, file, lines, n + 1, seen);
      }
    }
  }

  /** Starting from a file, the files read are that file and exactly those its references lead to, cyclic
      references included, each once. */
  lemma InputFilesExact(w: World, root: Path, k: Name)
    requires CanonFits(w) && root in w.texts
    ensures var met := Expand(w, root, w.texts[root], 0, [w.canon(root)]).1;
            && NoDup(met)
            && (k in met <==> k == w.canon(root) || Reaches(IncludeEdges(w), w.canon(root), k))
  {
    hide Expand, Refs, IncludeEdges, CanonFits;
    var lines, r, e := w.texts[root], w.canon(root), IncludeEdges(w);
    var met := Expand(w, root, lines, 0, [r]).1;
    ReadOnce(w, root, lines, 0, [r]);
    ExpansionCloses(w, root, lines, 0, [r]);
    ExpansionSound(w, root, lines, 0, [r]);
    EdgesAreRefs(w, root);
    PrefixElems([r], met);
    assert r in [r];
    if k in met && k != r {
      assert k in New([r], met);
      RootRefers(e, r, k);
    }
    if Reaches(e, r, k) {
      var p :| WalkBetween(e, p, r, k);
      forall x | x in Elems(met) ensures Succ(e, x) <= Elems(met) {
        if x != r {
          assert x in New([r], met);
        }
      }
      ClosedSetCatchesWalk(e, Elems(met), p);
    }
  }

  lemma RootRefers(e: Edges, r: Name, k: Name)
    requires ReferredFrom(e, Succ(e, r), k)
    ensures Reaches(e, r, k)
  {
    if k in Succ(e, r) {
      StepReaches(e, r, k);
    } else {
      var x :| x in Succ(e, r) && Reaches(e, x, k);
      StepReaches(e, r, x);
      ReachesTransitive(e, r, x, k);
    }
  }

  // ---------- which arguments come out ----------

  /** `a` is an argument of lines `n` on of `file`, or of a file among `files`. */
  ghost predicate ArgOf(w: World, a: Arg, file: Path, n: nat, files: set<Name>) {
    (a.file == file && a.line > n) || (a.file in w.texts && w.canon(a.file) in files)
  }

  lemma {:induction false} ArgFiles(w: World, file: Path, lines: seq<string>, n: nat, seen: seq<Name>)
    requires n <= |lines|
    ensures var (out, met) := Expand(w, file, lines, n, seen);
            forall a :: a in out ==> ArgOf(w, a, file, n, New(seen, met))
    decreases |Unmet(w, seen)|, |lines| - n
  {
    if n < |lines| {
      hide ItemOf, Unmet, Expand;
      ExpandLine(w, file, lines, n, seen);
      var item := ItemOf(w, lines[n]);
      var (out, met) := Expand(w, file, lines, n, seen);
      if item.Include? && w.canon(item.path) !in seen {
        var key := w.canon(item.path);
        var start := seen + [key];
        if item.path in w.texts {
          MetShrinks(w, seen, item.path, start);
          ArgFiles(w, item.path, w.texts[item.path], 0, start);
          var mid := Expand(w, item.path, w.texts[item.path], 0, start).1;
          MetShrinks(w, seen, item.path, mid);
          ArgFiles(w, file, lines, n + 1, mid);
          NewParts(seen, key, mid, met);
        } else {
          MetNoMore(w, seen, start);
          ArgFiles(w, file, lines, n + 1, start);
          NewParts(seen, key, start, met);
        }
      } else {
        ArgFiles(w, file, lines, n + 1, seen);
      }
    }
  }

  lemma NewParts(seen: seq<Name>, key: Name, mid: seq<Name>, met: seq<Name>)
    requires key !in seen && seen + [key] <= mid <= met
    ensures key in New(seen, met)
    ensures New(seen + [key], mid) <= New(seen, met)
    ensures New(mid, met) <= New(seen, met)
    ensures New(seen + [key], mid) !! New(mid, met) && key !in New(mid, met)
  {
    PrefixElems(seen + [key], mid);
    PrefixElems(mid, met);
    assert key in seen + [key];
  }

  /** Arguments of one file stand in the order of its lines, and no line gives two. */
  ghost predicate InLineOrder(w: World, out: seq<Arg>) {
    forall i, j :: 0 <= i < j < |out| && w.canon(out[i].file) == w.canon(out[j].file) ==> out[i].line < out[j].line
  }

  lemma {:induction false} ExpansionInOrder(w: World, file: Path, lines: seq<string>, n: nat, seen: seq<Name>)
    requires n <= |lines| && w.canon(file) in seen
    ensures InLineOrder(w, Expand(w, file, lines, n, seen).0)
    decreases |Unmet(w, seen)|, |lines| - n
  {
    if n < |lines| {
      hide ItemOf, Unmet, Expand, InLineOrder;
      ExpandLine(w, file, lines, n, seen);
      var item := ItemOf(w, lines[n]);
      var met := Expand(w, file, lines, n, seen).1;
      if item.Include? && w.canon(item.path) !in seen {
        var key := w.canon(item.path);
        var start := seen + [key];
        if item.path in w.texts {
          MetShrinks(w, seen, item.path, start);
          ExpansionInOrder(w, item.path, w.texts[item.path], 0, start);
          ArgFiles(w, item.path, w.texts[item.path], 0, start);
          var inner := Expand(w, item.path, w.texts[item.path], 0, start);
          MetShrinks(w, seen, item.path, inner.1);
          PrefixElems(start, inner.1);
          ExpansionInOrder(w, file, lines, n + 1, inner.1);
          ArgFiles(w, file, lines, n + 1, inner.1);
          NewParts(seen, key, inner.1, met);
          InnerThenRest(w, file, item.path, n, seen, inner.0, inner.1, Expand(w, file, lines, n + 1, inner.1).0, met);
        } else {
          MetNoMore(w, seen, start);
          ExpansionInOrder(w, file, lines, n + 1, start);
          ArgFiles(w, file, lines, n + 1, start);
          NewParts(seen, key, start, met);
          OwnFirst(w, Missing(w, file, n, item.path), Expand(w, file, lines, n + 1, start).0, n, start, met);
        }
      } else {
        ExpansionInOrder(w, file, lines, n + 1, seen);
        ArgFiles(w, file, lines, n + 1, seen);
        if item.Plain? {
          OwnFirst(w, Arg(item.flag, item.value, file, n + 1), Expand(w, file, lines, n + 1, seen).0, n, seen, met);
        }
      }
    }
  }

  lemma OwnFirst(w: World, own: Arg, rest: seq<Arg>, n: nat, seen: seq<Name>, met: seq<Name>)
    requires own.line == n + 1 && w.canon(own.file) in seen && InLineOrder(w, rest)
    requires forall a :: a in rest ==> ArgOf(w, a, own.file, n + 1, New(seen, met))
    ensures InLineOrder(w, [own] + rest)
  {
    var out := [own] + rest;
    forall i, j | 0 <= i < j < |out| && w.canon(out[i].file) == w.canon(out[j].file)
      ensures out[i].line < out[j].line
    {
      assert out[j] in rest;
    }
  }

  lemma InnerThenRest(w: World, file: Path, path: Path, n: nat, seen: seq<Name>, inner: seq<Arg>, mid: seq<Name>,
                      rest: seq<Arg>, met: seq<Name>)
    requires w.canon(file) in seen && w.canon(path) !in seen && seen + [w.canon(path)] <= mid <= met
    requires InLineOrder(w, inner) && InLineOrder(w, rest)
    requires forall a :: a in inner ==> ArgOf(w, a, path, 0, New(seen + [w.canon(path)], mid))
    requires forall a :: a in rest ==> ArgOf(w, a, file, n + 1, New(mid, met))
    ensures InLineOrder(w, inner + rest)
  {
    var out := inner + rest;
    NewParts(seen, w.canon(path), mid, met);
    PrefixElems(seen + [w.canon(path)], mid);
    assert Elems(seen + [w.canon(path)]) == Elems(seen) + {w.canon(path)};
    forall i, j | 0 <= i < |inner| <= j < |out| ensures w.canon(out[i].file) != w.canon(out[j].file) {
      assert out[i] in inner && out[j] in rest;
      assert w.canon(out[i].file) in Elems(mid) - Elems(seen);
      assert w.canon(out[j].file) !in Elems(mid) - Elems(seen);
    }
  }

  /** `a` is what some line of its file says, or reports an include on that line that cannot be read. */
  ghost predicate SaidBy(w: World, a: Arg, lines: seq<string>) {
    && 0 < a.line <= |lines|
    && var item := ItemOf(w, lines[a.line - 1]);
       || (item.Plain? && a.flag == item.flag && a.value == item.value)
       || (item.Include? && item.path !in w.texts && a == Missing(w, a.file, a.line - 1, item.path))
  }

  lemma {:induction false} ArgsAreSaid(w: World, file: Path, lines: seq<string>, n: nat, seen: seq<Name>)
    requires n <= |lines|
    ensures forall a :: a in Expand(w, file, lines, n, seen).0 ==>
              (a.file == file && SaidBy(w, a, lines)) || (a.file in w.texts && SaidBy(w, a, w.texts[a.file]))
    decreases |Unmet(w, seen)|, |lines| - n
  {
    if n < |lines| {
      hide ItemOf, Unmet, Expand;
      ExpandLine(w, file, lines, n, seen);
      var item := ItemOf(w, lines[n]);
      if item.Include? && w.canon(item.path) !in seen {
        var start := seen + [w.canon(item.path)];
        if item.path in w.texts {
          MetShrinks(w, seen, item.path, start);
          ArgsAreSaid(w, item.path, w.texts[item.path], 0, start);
          var mid := Expand(w, item.path, w.texts[item.path], 0, start).1;
          MetShrinks(w, seen, item.path, mid);
          ArgsAreSaid(w, file, lines, n + 1, mid);
        } else {
          MetNoMore(w, seen, start);
          ArgsAreSaid(w, file, lines, n + 1, start);
        }
      } else {
        ArgsAreSaid(w, file, lines, n + 1, seen);
      }
    }
  }

  /** Every argument line of `lines` from `n` on is in `out`, as an argument of `file`. */
  ghost predicate AllSaid(w: World, file: Path, lines: seq<string>, n: nat, out: seq<Arg>) {
    forall i :: n <= i < |lines| ==> LineIsOut(w, file, lines[i], i, out)
  }

  ghost predicate LineIsOut(w: World, file: Path, line: string, i: nat, out: seq<Arg>) {
    var item := ItemOf(w, line);
    item.Plain? ==> Arg(item.flag, item.value, file, i + 1) in out
  }

  ghost predicate FileIsOut(w: World, k: Name, out: seq<Arg>) {
    exists p :: p in w.texts && w.canon(p) == k && AllSaid(w, p, w.texts[p], 0, out)
  }

  ghost predicate FilesAreOut(w: World, files: set<Name>, out: seq<Arg>) {
    forall k :: k in files && k in Readable(w) ==> FileIsOut(w, k, out)
  }

  lemma FilesStillOut(w: World, files: set<Name>, a: seq<Arg>, b: seq<Arg>, c: seq<Arg>)
    requires FilesAreOut(w, files, b)
    ensures FilesAreOut(w, files, a + b + c)
  {
    forall k | k in files && k in Readable(w) ensures FileIsOut(w, k, a + b + c) {
      var p :| p in w.texts && w.canon(p) == k && AllSaid(w, p, w.texts[p], 0, b);
      StillSaid(w, p, w.texts[p], 0, a, b, c);
    }
  }

  lemma StillSaid(w: World, p: Path, lines: seq<string>, n: nat, a: seq<Arg>, b: seq<Arg>, c: seq<Arg>)
    requires AllSaid(w, p, lines, n, b)
    ensures AllSaid(w, p, lines, n, a + b + c)
  {
  }

  /** No argument is lost: every argument line of the lines given comes out. */
  lemma {:induction false} LinesComplete(w: World, file: Path, lines: seq<string>, n: nat, seen: seq<Name>)
    requires n <= |lines|
    ensures AllSaid(w, file, lines, n, Expand(w, file, lines, n, seen).0)
    decreases |Unmet(w, seen)|, |lines| - n
  {
    if n < |lines| {
      hide ItemOf, Unmet, Expand, AllSaid;
      ExpandLine(w, file, lines, n, seen);
      var item := ItemOf(w, lines[n]);
      var own, met := [], seen;
      if item.Plain? {
        own := [Arg(item.flag, item.value, file, n + 1)];
      } else if item.Include? && w.canon(item.path) !in seen {
        met := seen + [w.canon(item.path)];
        if item.path in w.texts {
          MetShrinks(w, seen, item.path, met);
          var inner := Expand(w, item.path, w.texts[item.path], 0, met);
          own, met := inner.0, inner.1;
        } else {
          own := [Missing(w, file, n, item.path)];
        }
      }
      MetNoMore(w, seen, met);
      LinesComplete(w, file, lines, n + 1, met);
      var rest := Expand(w, file, lines, n + 1, met).0;
      OwnOut(w, file, lines, n, own, rest);
      assert Expand(w, file, lines, n, seen).0 == own + rest;
    }
  }

  /** And so does every argument line of every file newly read. */
  lemma {:induction false} FilesComplete(w: World, file: Path, lines: seq<string>, n: nat, seen: seq<Name>)
    requires CanonFits(w) && n <= |lines|
    ensures var (out, met) := Expand(w, file, lines, n, seen);
            FilesAreOut(w, New(seen, met), out)
    decreases |Unmet(w, seen)|, |lines| - n
  {
    if n < |lines| {
      hide ItemOf, Unmet, Expand, FilesAreOut, AllSaid, CanonFits, New;
      ExpandLine(w, file, lines, n, seen);
      var item := ItemOf(w, lines[n]);
      var met := Expand(w, file, lines, n, seen).1;
      if item.Include? && w.canon(item.path) !in seen {
        var start := seen + [w.canon(item.path)];
        if item.path in w.texts {
          MetShrinks(w, seen, item.path, start);
          FilesComplete(w, item.path, w.texts[item.path], 0, start);
          LinesComplete(w, item.path, w.texts[item.path], 0, start);
          var inner := Expand(w, item.path, w.texts[item.path], 0, start);
          MetShrinks(w, seen, item.path, inner.1);
          FilesComplete(w, file, lines, n + 1, inner.1);
          BothOut(w, seen, item.path, inner.0, inner.1, Expand(w, file, lines, n + 1, inner.1).0, met);
        } else {
          MetNoMore(w, seen, start);
          FilesComplete(w, file, lines, n + 1, start);
          MissingOut(w, seen, item.path, Missing(w, file, n, item.path), Expand(w, file, lines, n + 1, start).0, met);
        }
      } else {
        FilesComplete(w, file, lines, n + 1, seen);
        var own := if item.Plain? then [Arg(item.flag, item.value, file, n + 1)] else [];
        var rest := Expand(w, file, lines, n + 1, seen).0;
        FilesStillOut(w, New(seen, met), own, rest, []);
        assert own + rest + [] == Expand(w, file, lines, n, seen).0;
      }
    }
  }

  lemma MissingOut(w: World, seen: seq<Name>, path: Path, own: Arg, rest: seq<Arg>, met: seq<Name>)
    requires CanonFits(w) && path !in w.texts
    requires FilesAreOut(w, New(seen + [w.canon(path)], met), rest)
    ensures FilesAreOut(w, New(seen, met), [own] + rest)
  {
  }

  lemma OwnOut(w: World, file: Path, lines: seq<string>, n: nat, own: seq<Arg>, rest: seq<Arg>)
    requires n < |lines| && AllSaid(w, file, lines, n + 1, rest) && LineIsOut(w, file, lines[n], n, own)
    ensures AllSaid(w, file, lines, n, own + rest)
  {
  }

  lemma BothOut(w: World, seen: seq<Name>, path: Path, inner: seq<Arg>, mid: seq<Name>, rest: seq<Arg>, met: seq<Name>)
    requires path in w.texts && AllSaid(w, path, w.texts[path], 0, inner)
    requires FilesAreOut(w, New(seen + [w.canon(path)], mid), inner) && FilesAreOut(w, New(mid, met), rest)
    ensures FilesAreOut(w, New(seen, met), inner + rest)
  {
  }

  /** Reading from a file: every argument line of every file read comes out as exactly one argument, and the
      arguments of one file in the order of its lines. */
  lemma ArgumentsExact(w: World, root: Path, p: Path, i: nat) returns (j: nat)
    requires CanonFits(w) && root in w.texts && p in w.texts && i < |w.texts[p]|
    requires w.canon(p) in Expand(w, root, w.texts[root], 0, [w.canon(root)]).1
    requires ItemOf(w, w.texts[p][i]).Plain?
    ensures var out, item := Expand(w, root, w.texts[root], 0, [w.canon(root)]).0, ItemOf(w, w.texts[p][i]);
            && InLineOrder(w, out)
            && j < |out| && out[j].flag == item.flag && out[j].value == item.value
            && (forall k :: 0 <= k < |out| ==>
                 (w.canon(out[k].file) == w.canon(p) && out[k].line == i + 1 <==> k == j))
  {
    hide Expand, ItemOf;
    var r := w.canon(root);
    var (out, met) := Expand(w, root, w.texts[root], 0, [r]);
    assert r in [r];
    ExpansionInOrder(w, root, w.texts[root], 0, [r]);
    LinesComplete(w, root, w.texts[root], 0, [r]);
    FilesComplete(w, root, w.texts[root], 0, [r]);
    var q := root;
    if w.canon(p) != r {
      assert w.canon(p) in New([r], met) && w.canon(p) in Readable(w);
      assert FileIsOut(w, w.canon(p), out);
      q :| q in w.texts && w.canon(q) == w.canon(p) && AllSaid(w, q, w.texts[q], 0, out);
    }
    assert w.texts[q] == w.texts[p];
    assert LineIsOut(w, q, w.texts[q][i], i, out);
    var item := ItemOf(w, w.texts[p][i]);
    j :| 0 <= j < |out| && out[j] == Arg(item.flag, item.value, q, i + 1);
  }
}
