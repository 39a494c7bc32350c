/** Library resolution: the breadth-first search from the requested libraries through their declared
    dependencies. */
module Haxelib {
  import opened Digraph
  import opened Sequences
  import opened Wrappers

  datatype Dependency = Dependency(name: Name, version: Option<string>, path: Option<string>)
  datatype Library = Library(name: Name, version: Option<string>, root: string)
  datatype Answer = Found(lib: Library, dependencies: seq<Dependency>) | Failed(error: string)

  /** A library directory: the dependencies that its manifest and parameter file declare, or why the manifest
      cannot be read. */
  datatype Package = Declares(dependencies: seq<Dependency>) | Malformed(error: string)

  /** A library's folder in the repository: what its `.dev` and `.current` files say, without outer white
      space, if they can be read. */
  datatype Folder = Folder(dev: Option<string>, current: Option<string>)
  datatype Repository = Repository(path: string, folders: map<string, Folder>)

  /** What is installed: the library directories with what they declare, and the repository, if there is one.
      `lower` is the platform's lower case. */
  datatype World = World(packages: map<string, Package>, repository: Option<Repository>, lower: string -> string)

  /** Directory names have commas where names and versions have dots. */
  function Commas(s: string): string {
    seq(|s|, i requires 0 <= i < |s| => if s[i] == '.' then ',' else s[i])
  }

  /** The folder of a library: under its own name, or else under that in lower case. */
  function FolderOf(w: World, repo: Repository, name: Name): Option<string> {
    var folder := Commas(name);
    if folder in repo.folders then Some(folder)
    else if w.lower(folder) in repo.folders then Some(w.lower(folder))
    else None
  }

  function VersionRoot(repo: Repository, folder: string, version: string): string {
    repo.path + "/" + folder + "/" + Commas(version)
  }

  function LibraryAt(w: World, root: string, name: Name, version: Option<string>): Answer {
    if root !in w.packages then Failed("local library directory does not exist: " + root)
    else
      match w.packages[root]
      case Declares(dependencies) => Found(Library(name, version, root), dependencies)
      case Malformed(error) => Failed(error)
  }

  /** A library of the repository: the development directory if no version is asked for, else the version asked
      for or the current one. */
  function LibraryIn(w: World, repo: Repository, name: Name, version: Option<string>): Answer {
    match FolderOf(w, repo, name)
    case None => Failed("not installed in " + repo.path)
    case Some(folder) =>
      var Folder(dev, current) := repo.folders[folder];
      if version.None? && dev.Some? && dev.value in w.packages then LibraryAt(w, dev.value, name, None)
      else
        match if version.Some? then version else current
        case None => Failed("no current version set")
        case Some(v) =>
          var root := VersionRoot(repo, folder, v);
          if root in w.packages then LibraryAt(w, root, name, Some(v))
          else Failed("version " + v + " is not installed")
  }

  /** A path is taken as it stands; anything else is looked up in the repository. */
  function LookUp(w: World, d: Dependency): Answer {
    match d.path
    case Some(root) => LibraryAt(w, root, d.name, None)
    case None =>
      match w.repository
      case None => Failed("no haxelib repository found")
      case Some(repo) => LibraryIn(w, repo, d.name, d.version)
  }

  function Declared(w: World, d: Dependency): seq<Dependency> {
    match LookUp(w, d)
    case Found(_, dependencies) => dependencies
    case Failed(_) => []
  }

  // ---------- the specification ----------

  function Names(ds: seq<Dependency>): set<Name> {
    set d | d in ds :: d.name
  }

  /** The members of `ds` whose name is neither provided nor that of an earlier member. */
  function FirstNamed(ds: seq<Dependency>, provided: set<Name>): (first: seq<Dependency>) {
    if ds == [] then []
    else
      var before := FirstNamed(ds[..|ds| - 1], provided);
      var last := ds[|ds| - 1];
      if last.name in provided || last.name in Names(before) then before else before + [last]
  }

  /** All dependencies that the attempts declare, in order. */
  function AllDeclared(w: World, attempts: seq<Dependency>): seq<Dependency> {
    if attempts == [] then []
    else AllDeclared(w, attempts[..|attempts| - 1]) + Declared(w, attempts[|attempts| - 1])
  }

  /** The attempts are the first of each name among the requests followed by what the attempts themselves
      declare, and each is called for by the requests and the attempts before it. */
  ghost predicate IsResolution(
      w: World, requested: seq<Dependency>, provided: set<Name>, attempts: seq<Dependency>)
  {
    && attempts == FirstNamed(requested + AllDeclared(w, attempts), provided)
    && Grounded(w, requested, provided, attempts)
  }

  ghost predicate Grounded(w: World, requested: seq<Dependency>, provided: set<Name>, attempts: seq<Dependency>) {
    forall i :: 0 <= i < |attempts| ==> CalledFor(w, requested, provided, attempts, i)
  }

  ghost predicate CalledFor(
      w: World, requested: seq<Dependency>, provided: set<Name>, attempts: seq<Dependency>, i: nat)
    requires i < |attempts|
  {
    attempts[..i + 1] <= FirstNamed(requested + AllDeclared(w, attempts[..i]), provided)
  }

  function Libraries(w: World, attempts: seq<Dependency>): seq<Library> {
    if attempts == [] then []
    else
      var last := LookUp(w, attempts[|attempts| - 1]);
      Libraries(w, attempts[..|attempts| - 1]) + if last.Found? then [last.lib] else []
  }

  function Problems(w: World, attempts: seq<Dependency>): seq<string> {
    if attempts == [] then []
    else
      var last := attempts[|attempts| - 1];
      Problems(w, attempts[..|attempts| - 1]) +
      if LookUp(w, last).Failed? then ["-lib " + last.name + ": " + LookUp(w, last).error] else []
  }

  /** Libraries and problems are those of the resolution. */
  ghost predicate IsAnswer(w: World, requested: seq<Dependency>, provided: set<Name>,
                           libraries: seq<Library>, problems: seq<string>)
  {
    exists attempts :: IsResolution(w, requested, provided, attempts) &&
                       libraries == Libraries(w, attempts) && problems == Problems(w, attempts)
  }

  // ---------- the search ----------

  lemma FirstNamedSnoc(ds: seq<Dependency>, d: Dependency, provided: set<Name>)
    ensures FirstNamed(ds + [d], provided) ==
            var before := FirstNamed(ds, provided);
            if d.name in provided || d.name in Names(before) then before else before + [d]
  {
  }

  lemma {:induction false} FirstNamedGrows(ds: seq<Dependency>, more: seq<Dependency>, provided: set<Name>)
    ensures FirstNamed(ds, provided) <= FirstNamed(ds + more, provided)
    decreases |more|
  {
    if more == [] {
      assert ds + more == ds;
    } else {
      var n := |more| - 1;
      FirstNamedGrows(ds, more[..n], provided);
      assert ds + more == ds + more[..n] + [more[n]];
      FirstNamedSnoc(ds + more[..n], more[n], provided);
    }
  }

  /** Every name that can come up. */
  function Universe(w: World, requested: seq<Dependency>): set<Name> {
    Names(requested) + set p, i | p in w.packages && w.packages[p].Declares? &&
                                  0 <= i < |w.packages[p].dependencies| :: w.packages[p].dependencies[i].name
  }

  lemma DeclaredInUniverse(w: World, requested: seq<Dependency>, d: Dependency)
    ensures Names(Declared(w, d)) <= Universe(w, requested)
  {
  }

  lemma AllDeclaredSnoc(w: World, attempts: seq<Dependency>, d: Dependency)
    ensures AllDeclared(w, attempts + [d]) == AllDeclared(w, attempts) + Declared(w, d)
    ensures Libraries(w, attempts + [d]) ==
            Libraries(w, attempts) + if LookUp(w, d).Found? then [LookUp(w, d).lib] else []
    ensures Problems(w, attempts + [d]) ==
            Problems(w, attempts) +
            if LookUp(w, d).Failed? then ["-lib " + d.name + ": " + LookUp(w, d).error] else []
  {
  }

  lemma GroundedSnoc(w: World, requested: seq<Dependency>, provided: set<Name>,
                     attempts: seq<Dependency>, d: Dependency)
    requires Grounded(w, requested, provided, attempts)
    requires attempts + [d] <= FirstNamed(requested + AllDeclared(w, attempts), provided)
    ensures Grounded(w, requested, provided, attempts + [d])
  {
    var more := attempts + [d];
    forall i | 0 <= i < |more| ensures CalledFor(w, requested, provided, more, i) {
      if i < |attempts| {
        assert CalledFor(w, requested, provided, attempts, i);
        assert more[..i] == attempts[..i] && more[..i + 1] == attempts[..i + 1];
      } else {
        assert more[..i] == attempts && more[..i + 1] == more;
      }
    }
  }

  /** The queue ahead, what was taken off it, and what has been attempted. */
  ghost predicate SearchInvariant(
      w: World, requested: seq<Dependency>, provided: set<Name>, taken: seq<Dependency>, queue: seq<Dependency>,
      seen: set<Name>, attempts: seq<Dependency>)
  {
    && taken + queue == requested + AllDeclared(w, attempts)
    && attempts == FirstNamed(taken, provided)
    && Grounded(w, requested, provided, attempts)
    && seen == provided + Names(attempts)
    && Names(queue) <= Universe(w, requested)
  }

  lemma SkipKeeps(w: World, requested: seq<Dependency>, provided: set<Name>, taken: seq<Dependency>,
                  queue: seq<Dependency>, seen: set<Name>, attempts: seq<Dependency>)
    requires SearchInvariant(w, requested, provided, taken, queue, seen, attempts)
    requires queue != [] && queue[0].name in seen
    ensures SearchInvariant(w, requested, provided, taken + [queue[0]], queue[1..], seen, attempts)
  {
  }

  lemma AttemptKeeps(w: World, requested: seq<Dependency>, provided: set<Name>, taken: seq<Dependency>,
                     queue: seq<Dependency>, seen: set<Name>, attempts: seq<Dependency>)
    requires SearchInvariant(w, requested, provided, taken, queue, seen, attempts)
    requires queue != [] && queue[0].name !in seen
    ensures SearchInvariant(w, requested, provided, taken + [queue[0]], queue[1..] + Declared(w, queue[0]),
                            seen + {queue[0].name}, attempts + [queue[0]])
  {
    hide FirstNamed, Declared, Grounded, AllDeclared, Names, Universe;
    var d := queue[0];
    FirstNamedSnoc(taken, d, provided);
    AllDeclaredSnoc(w, attempts, d);
    HistoryGrows(taken, queue, requested, AllDeclared(w, attempts), Declared(w, d));
    FirstNamedGrows(taken + [d], queue[1..], provided);
    GroundedSnoc(w, requested, provided, attempts, d);
    DeclaredInUniverse(w, requested, d);
    NamesSnoc(attempts, d);
    NamesParts(queue[1..], Declared(w, d));
    NamesTail(queue);
  }

  lemma HistoryGrows(taken: seq<Dependency>, queue: seq<Dependency>, requested: seq<Dependency>,
                     declared: seq<Dependency>, more: seq<Dependency>)
    requires queue != [] && taken + queue == requested + declared
    ensures taken + queue == taken + [queue[0]] + queue[1..]
    ensures taken + [queue[0]] + (queue[1..] + more) == requested + (declared + more)
  {
    assert taken + [queue[0]] + (queue[1..] + more) == taken + queue + more;
    assert requested + (declared + more) == requested + declared + more;
  }

  lemma NamesSnoc(ds: seq<Dependency>, d: Dependency)
    ensures Names(ds + [d]) == Names(ds) + {d.name}
  {
  }

  lemma NamesTail(ds: seq<Dependency>)
    requires ds != []
    ensures Names(ds[1..]) <= Names(ds)
  {
  }

  lemma NamesParts(ds: seq<Dependency>, es: seq<Dependency>)
    ensures Names(ds + es) == Names(ds) + Names(es)
  {
  }

  method ResolveInRepository(w: World, requested: seq<Dependency>, provided: seq<Name>)
    returns (libraries: seq<Library>, problems: seq<string>, ghost attempts: seq<Dependency>)
    ensures IsResolution(w, requested, Elems(provided), attempts)
    ensures libraries == Libraries(w, attempts) && problems == Problems(w, attempts)
    ensures IsAnswer(w, requested, Elems(provided), libraries, problems)
  {
    libraries, problems, attempts := [], [], [];
    var queue := requested;
    var seen := Elems(provided);
    ghost var given := Elems(provided);
    ghost var taken: seq<Dependency> := [];
    assert taken + queue == requested + AllDeclared(w, attempts);
    while queue != []
      invariant SearchInvariant(w, requested, given, taken, queue, seen, attempts)
      invariant libraries == Libraries(w, attempts) && problems == Problems(w, attempts)
      decreases |Universe(w, requested) - seen|, |queue|
    {
      hide SearchInvariant, Declared, Universe, Libraries, Problems;
      var d := queue[0];
      ghost var universe := Universe(w, requested);
      FrontInUniverse(w, requested, given, taken, queue, seen, attempts);
      if d.name in seen {
        SkipKeeps(w, requested, given, taken, queue, seen, attempts);
        queue := queue[1..];
      } else {
        AttemptKeeps(w, requested, given, taken, queue, seen, attempts);
        AllDeclaredSnoc(w, attempts, d);
        OneFewer(universe, seen, d.name);
        seen := seen + {d.name};
        var answer := LookUp(w, d);
        DeclaredIs(w, d);
        match answer {
          case Found(lib, dependencies) =>
            libraries := libraries + [lib];
            queue := queue[1..] + dependencies;
          case Failed(e) =>
            problems := problems + ["-lib " + d.name + ": " + e];
            queue := queue[1..] + [];
        }
        attempts := attempts + [d];
      }
      taken := taken + [d];
    }
    assert taken == requested + AllDeclared(w, attempts);
  }

  lemma DeclaredIs(w: World, d: Dependency)
    ensures Declared(w, d) == if LookUp(w, d).Found? then LookUp(w, d).dependencies else []
  {
  }

  lemma FrontInUniverse(w: World, requested: seq<Dependency>, provided: set<Name>, taken: seq<Dependency>,
                        queue: seq<Dependency>, seen: set<Name>, attempts: seq<Dependency>)
    requires SearchInvariant(w, requested, provided, taken, queue, seen, attempts) && queue != []
    ensures queue[0].name in Universe(w, requested)
  {
  }

  lemma OneFewer(universe: set<Name>, seen: set<Name>, n: Name)
    requires n in universe && n !in seen
    ensures |universe - (seen + {n})| < |universe - seen|
  {
    assert universe - (seen + {n}) == (universe - seen) - {n};
  }

  // ---------- what a resolution is ----------

  lemma {:induction false} PrefixForced(
      w: World, requested: seq<Dependency>, provided: set<Name>, a: seq<Dependency>, b: seq<Dependency>, i: nat)
    requires Grounded(w, requested, provided, a) && Grounded(w, requested, provided, b)
    requires i <= |a| && i <= |b|
    ensures a[..i] == b[..i]
    decreases i
  {
    if i > 0 {
      PrefixForced(w, requested, provided, a, b, i - 1);
      assert CalledFor(w, requested, provided, a, i - 1) && CalledFor(w, requested, provided, b, i - 1);
    }
  }

  lemma MoreIsCalledFor(
      w: World, requested: seq<Dependency>, provided: set<Name>, prefix: seq<Dependency>, b: seq<Dependency>)
    requires Grounded(w, requested, provided, b) && |prefix| < |b| && prefix == b[..|prefix|]
    ensures |prefix| < |FirstNamed(requested + AllDeclared(w, prefix), provided)|
  {
    assert CalledFor(w, requested, provided, b, |prefix|);
  }

  /** The specification leaves no choice: there is one resolution, in one order. */
  lemma ResolutionUnique(
      w: World, requested: seq<Dependency>, provided: set<Name>, a: seq<Dependency>, b: seq<Dependency>)
    requires IsResolution(w, requested, provided, a) && IsResolution(w, requested, provided, b)
    ensures a == b
  {
    PrefixForced(w, requested, provided, a, b, if |a| < |b| then |a| else |b|);
    assert a == a[..|a|] && b == b[..|b|];
    if |a| < |b| {
      MoreIsCalledFor(w, requested, provided, a, b);
    } else if |b| < |a| {
      MoreIsCalledFor(w, requested, provided, b, a);
    }
  }

  lemma {:induction false} FirstNamedDistinct(ds: seq<Dependency>, provided: set<Name>)
    ensures var f := FirstNamed(ds, provided);
            && (forall i, j :: 0 <= i < j < |f| ==> f[i].name != f[j].name)
            && Names(f) == Names(ds) - provided
            && (forall d :: d in f ==> d in ds)
    decreases |ds|
  {
    if ds != [] {
      var n := |ds| - 1;
      FirstNamedDistinct(ds[..n], provided);
      var before := FirstNamed(ds[..n], provided);
      assert ds == ds[..n] + [ds[n]];
      NamesSnoc(ds[..n], ds[n]);
      NamesSnoc(before, ds[n]);
      forall i | 0 <= i < |before| ensures before[i].name in Names(before) {
        assert before[i] in before;
      }
    }
  }

  /** No name is attempted twice, none that is provided is attempted, and each attempt yields one library or
      one problem. */
  lemma AttemptedOnce(w: World, requested: seq<Dependency>, provided: set<Name>, attempts: seq<Dependency>)
    requires IsResolution(w, requested, provided, attempts)
    ensures forall i, j :: 0 <= i < j < |attempts| ==> attempts[i].name != attempts[j].name
    ensures Names(attempts) !! provided
    ensures |Libraries(w, attempts)| + |Problems(w, attempts)| == |attempts|
  {
    FirstNamedDistinct(requested + AllDeclared(w, attempts), provided);
    OneEach(w, attempts);
  }

  lemma {:induction false} OneEach(w: World, attempts: seq<Dependency>)
    ensures |Libraries(w, attempts)| + |Problems(w, attempts)| == |attempts|
    decreases |attempts|
  {
    if attempts != [] {
      OneEach(w, attempts[..|attempts| - 1]);
    }
  }

  /** The direct requests come first: each requested name is resolved as its first direct request says, and
      a dependency declaration never takes its place. */
  lemma DirectRequestsWin(w: World, requested: seq<Dependency>, provided: set<Name>, attempts: seq<Dependency>)
    requires IsResolution(w, requested, provided, attempts)
    ensures FirstNamed(requested, provided) <= attempts
    ensures forall i :: |FirstNamed(requested, provided)| <= i < |attempts| ==> attempts[i].name !in Names(requested)
    ensures forall k :: 0 <= k < |requested| && requested[k].name !in provided &&
                        (forall j :: 0 <= j < k ==> requested[j].name != requested[k].name) ==>
                          requested[k] in attempts
  {
    var direct := FirstNamed(requested, provided);
    FirstNamedGrows(requested, AllDeclared(w, attempts), provided);
    FirstNamedDistinct(requested, provided);
    FirstNamedDistinct(requested + AllDeclared(w, attempts), provided);
    forall i | |direct| <= i < |attempts| ensures attempts[i].name !in Names(requested) {
      assert attempts[i] in attempts && attempts[i].name in Names(attempts);
      forall j | 0 <= j < |direct| ensures direct[j].name != attempts[i].name {
        assert direct[j] == attempts[j];
      }
      assert attempts[i].name !in Names(direct);
    }
    forall k | 0 <= k < |requested| && requested[k].name !in provided &&
               (forall j :: 0 <= j < k ==> requested[j].name != requested[k].name)
      ensures requested[k] in attempts
    {
      FirstIsKept(requested, provided, k);
      assert requested[k] in direct;
    }
  }

  lemma NewName(ds: seq<Dependency>, k: nat)
    requires k < |ds| && forall j :: 0 <= j < k ==> ds[j].name != ds[k].name
    ensures ds[k].name !in Names(ds[..k])
  {
  }

  lemma NotNamedBefore(ds: seq<Dependency>, n: Name, provided: set<Name>)
    requires n !in Names(ds)
    ensures n !in Names(FirstNamed(ds, provided))
  {
    hide Names, FirstNamed;
    FirstNamedDistinct(ds, provided);
  }

  lemma FirstIsKept(ds: seq<Dependency>, provided: set<Name>, k: nat)
    requires k < |ds| && ds[k].name !in provided
    requires forall j :: 0 <= j < k ==> ds[j].name != ds[k].name
    ensures ds[k] in FirstNamed(ds, provided)
  {
    hide FirstNamed, Names;
    var before := FirstNamed(ds[..k], provided);
    NewName(ds, k);
    NotNamedBefore(ds[..k], ds[k].name, provided);
    FirstNamedSnoc(ds[..k], ds[k], provided);
    assert ds == ds[..k] + [ds[k]] + ds[k + 1..];
    FirstNamedGrows(ds[..k] + [ds[k]], ds[k + 1..], provided);
    LastOfPrefix(before, ds[k], FirstNamed(ds, provided));
  }

  lemma LastOfPrefix(before: seq<Dependency>, d: Dependency, all: seq<Dependency>)
    requires before + [d] <= all
    ensures d in all
  {
    assert (before + [d])[|before|] == d == all[|before|];
  }

  // ---------- reachability ----------

  /** The names that each attempted name's declarations lead to. */
  function DeclaredEdges(w: World, attempts: seq<Dependency>): Edges {
    if attempts == [] then map[]
    else
      var last := attempts[|attempts| - 1];
      DeclaredEdges(w, attempts[..|attempts| - 1])[last.name := Names(Declared(w, last))]
  }

  lemma NoNames()
    ensures Names([]) == {}
  {
  }

  lemma {:induction false} EdgesFrom(w: World, attempts: seq<Dependency>)
    ensures DeclaredEdges(w, attempts).Keys == Names(attempts)
    decreases |attempts|
  {
    hide Names, Declared;
    if attempts == [] {
      NoNames();
    } else {
      var n := |attempts| - 1;
      EdgesFrom(w, attempts[..n]);
      NamesSnoc(attempts[..n], attempts[n]);
      assert attempts == attempts[..n] + [attempts[n]];
      KeysMore(DeclaredEdges(w, attempts[..n]), attempts[n].name, Names(Declared(w, attempts[n])));
    }
  }

  lemma KeysMore(e: Edges, n: Name, to: set<Name>)
    ensures e[n := to].Keys == e.Keys + {n}
  {
  }

  lemma {:induction false} EdgesAt(w: World, attempts: seq<Dependency>, i: nat)
    requires forall i, j :: 0 <= i < j < |attempts| ==> attempts[i].name != attempts[j].name
    requires i < |attempts|
    ensures var e := DeclaredEdges(w, attempts);
            attempts[i].name in e && e[attempts[i].name] == Names(Declared(w, attempts[i]))
    decreases |attempts|
  {
    var n := |attempts| - 1;
    if i < n {
      EdgesAt(w, attempts[..n], i);
      assert attempts[..n][i] == attempts[i];
    }
  }

  lemma {:induction false} AllDeclaredHas(w: World, attempts: seq<Dependency>, d: Dependency)
    ensures d in AllDeclared(w, attempts) <==>
            exists i :: 0 <= i < |attempts| && d in Declared(w, attempts[i])
    decreases |attempts|
  {
    hide Declared;
    if attempts != [] {
      var n := |attempts| - 1;
      AllDeclaredHas(w, attempts[..n], d);
      assert forall i :: 0 <= i < n ==> attempts[..n][i] == attempts[i];
      if i :| 0 <= i < |attempts| && d in Declared(w, attempts[i]) {
        assert i < n ==> d in Declared(w, attempts[..n][i]);
      }
    }
  }

  ghost predicate Wanted(w: World, requested: seq<Dependency>, provided: set<Name>, attempts: seq<Dependency>, n: Name) {
    n in Names(requested) ||
    exists r :: r in Names(requested) && Reaches(DeclaredEdges(w, attempts), r, n)
  }

  /** Nothing is attempted that the requests do not lead to. */
  lemma {:induction false} AttemptIsWanted(
      w: World, requested: seq<Dependency>, provided: set<Name>, attempts: seq<Dependency>, i: nat)
    requires IsResolution(w, requested, provided, attempts) && i < |attempts|
    ensures Wanted(w, requested, provided, attempts, attempts[i].name)
    decreases i
  {
    var d := attempts[i];
    var earlier := AllDeclared(w, attempts[..i]);
    assert CalledFor(w, requested, provided, attempts, i);
    FirstNamedDistinct(requested + earlier, provided);
    assert d == attempts[..i + 1][i];
    assert d in FirstNamed(requested + earlier, provided);
    if d in requested {
      assert d.name in Names(requested);
    } else {
      AllDeclaredHas(w, attempts[..i], d);
      var j :| 0 <= j < i && d in Declared(w, attempts[..i][j]);
      assert attempts[..i][j] == attempts[j];
      AttemptIsWanted(w, requested, provided, attempts, j);
      AttemptedOnce(w, requested, provided, attempts);
      EdgesAt(w, attempts, j);
      assert d.name in Names(Declared(w, attempts[j]));
      WantedOnward(w, requested, provided, attempts, attempts[j].name, d.name);
    }
  }

  lemma WantedOnward(w: World, requested: seq<Dependency>, provided: set<Name>, attempts: seq<Dependency>,
                     m: Name, n: Name)
    requires Wanted(w, requested, provided, attempts, m)
    requires n in Succ(DeclaredEdges(w, attempts), m)
    ensures Wanted(w, requested, provided, attempts, n)
  {
    var e := DeclaredEdges(w, attempts);
    StepReaches(e, m, n);
    if m !in Names(requested) {
      var r :| r in Names(requested) && Reaches(e, r, m);
      ReachesTransitive(e, r, m, n);
    }
  }

  lemma AttemptsClosed(w: World, requested: seq<Dependency>, provided: set<Name>, attempts: seq<Dependency>)
    requires IsResolution(w, requested, provided, attempts)
    ensures Names(requested) <= Names(attempts) + provided
    ensures forall m, n :: m in Names(attempts) + provided && n in Succ(DeclaredEdges(w, attempts), m) ==>
              n in Names(attempts) + provided
  {
    var all := requested + AllDeclared(w, attempts);
    AttemptedOnce(w, requested, provided, attempts);
    FirstNamedDistinct(all, provided);
    EdgesFrom(w, attempts);
    NamesParts(requested, AllDeclared(w, attempts));
    forall m, n | m in Names(attempts) + provided && n in Succ(DeclaredEdges(w, attempts), m)
      ensures n in Names(attempts) + provided
    {
      assert m in Names(attempts);
      var d :| d in attempts && d.name == m;
      var i :| 0 <= i < |attempts| && attempts[i] == d;
      EdgesAt(w, attempts, i);
      var x :| x in Declared(w, d) && x.name == n;
      AllDeclaredHas(w, attempts, x);
      assert x in all;
    }
  }

  /** The attempted names are exactly those that the requests lead to and that are not provided. */
  lemma AttemptedIffWanted(w: World, requested: seq<Dependency>, provided: set<Name>, attempts: seq<Dependency>, n: Name)
    requires IsResolution(w, requested, provided, attempts)
    ensures n in Names(attempts) <==> n !in provided && Wanted(w, requested, provided, attempts, n)
  {
    AttemptedOnce(w, requested, provided, attempts);
    if n in Names(attempts) {
      var d :| d in attempts && d.name == n;
      var i :| 0 <= i < |attempts| && attempts[i] == d;
      AttemptIsWanted(w, requested, provided, attempts, i);
    }
    if n !in provided && Wanted(w, requested, provided, attempts, n) {
      AttemptsClosed(w, requested, provided, attempts);
      if n !in Names(requested) {
        var e := DeclaredEdges(w, attempts);
        var r :| r in Names(requested) && Reaches(e, r, n);
        var p :| WalkBetween(e, p, r, n);
        ClosedSetCatchesWalk(e, Names(attempts) + provided, p);
      }
    }
  }
}
