/** Which library, or which problem, each attempt of a resolution yields, said of what is installed. */
module HaxelibChoice {
  import opened Digraph
  import opened Haxelib
  import opened Sequences
  import opened Wrappers

  // ---------- the choice of a directory ----------

  predicate IsFolderOf(w: World, repo: Repository, name: Name, folder: string) {
    && folder in repo.folders
    && (folder == Commas(name) || (Commas(name) !in repo.folders && folder == w.lower(Commas(name))))
  }

  /** The development directory counts when no version is asked for and it exists. */
  predicate UsesDev(w: World, folder: Folder, asked: Option<string>) {
    asked.None? && folder.dev.Some? && folder.dev.value in w.packages
  }

  predicate ChoosesIn(w: World, repo: Repository, folder: string, asked: Option<string>,
                      root: string, version: Option<string>)
    requires folder in repo.folders
  {
    var f := repo.folders[folder];
    if UsesDev(w, f, asked) then root == f.dev.value && version == None
    else && version == (if asked.Some? then asked else f.current)
         && version.Some? && root == VersionRoot(repo, folder, version.value)
  }

  ghost predicate ChoosesInstalled(w: World, d: Dependency, root: string, version: Option<string>) {
    && d.path.None? && w.repository.Some?
    && var repo := w.repository.value;
       exists folder :: IsFolderOf(w, repo, d.name, folder) && ChoosesIn(w, repo, folder, d.version, root, version)
  }

  /** A path names its own directory, with no version; a name without one chooses in the repository. */
  ghost predicate Chooses(w: World, d: Dependency, root: string, version: Option<string>) {
    (d.path == Some(root) && version == None) || ChoosesInstalled(w, d, root, version)
  }

  /** The directory chosen exists, and its manifest can be read. */
  ghost predicate Available(w: World, d: Dependency, root: string, version: Option<string>) {
    Chooses(w, d, root, version) && root in w.packages && w.packages[root].Declares?
  }

  /** Why there is no library. */
  ghost predicate Fails(w: World, d: Dependency, e: string) {
    || UnreadableChoice(w, d, e)
    || (d.path.Some? && d.path.value !in w.packages && e == "local library directory does not exist: " + d.path.value)
    || (d.path.None? && w.repository.None? && e == "no haxelib repository found")
    || (d.path.None? && w.repository.Some? && FailsIn(w, w.repository.value, d, e))
  }

  ghost predicate UnreadableChoice(w: World, d: Dependency, e: string) {
    exists root, version :: Chooses(w, d, root, version) && root in w.packages && w.packages[root] == Malformed(e)
  }

  ghost predicate FailsIn(w: World, repo: Repository, d: Dependency, e: string) {
    || ((forall folder :: !IsFolderOf(w, repo, d.name, folder)) && e == "not installed in " + repo.path)
    || exists folder :: IsFolderOf(w, repo, d.name, folder) && NoVersion(w, repo, folder, d.version, e)
  }

  predicate NoVersion(w: World, repo: Repository, folder: string, asked: Option<string>, e: string)
    requires folder in repo.folders
  {
    var f := repo.folders[folder];
    && !UsesDev(w, f, asked)
    && match if asked.Some? then asked else f.current
       case None => e == "no current version set"
       case Some(v) => VersionRoot(repo, folder, v) !in w.packages && e == "version " + v + " is not installed"
  }

  // ---------- one attempt ----------

  lemma FolderIs(w: World, repo: Repository, name: Name, folder: string)
    ensures IsFolderOf(w, repo, name, folder) <==> FolderOf(w, repo, name) == Some(folder)
  {
  }

  lemma ChoiceIs(w: World, d: Dependency, root: string, version: Option<string>)
    ensures Chooses(w, d, root, version) <==>
            match d.path
            case Some(p) => p == root && version == None
            case None =>
              && w.repository.Some? && FolderOf(w, w.repository.value, d.name).Some?
              && ChoosesIn(w, w.repository.value, FolderOf(w, w.repository.value, d.name).value, d.version, root, version)
  {
    hide FolderOf, ChoosesIn;
    if w.repository.Some? {
      forall folder {
        FolderIs(w, w.repository.value, d.name, folder);
      }
      hide IsFolderOf;
    }
  }

  /** An attempt yields a library exactly when the directory it chooses can be read, and then that one. */
  lemma FoundIff(w: World, d: Dependency, lib: Library, more: seq<Dependency>)
    ensures LookUp(w, d) == Found(lib, more) <==>
            lib.name == d.name && Available(w, d, lib.root, lib.version) && more == w.packages[lib.root].dependencies
  {
    hide FolderOf, VersionRoot, Chooses;
    ChoiceIs(w, d, lib.root, lib.version);
  }

  lemma UnreadableIs(w: World, d: Dependency, e: string)
    ensures UnreadableChoice(w, d, e) <==>
            match d.path
            case Some(p) => p in w.packages && w.packages[p] == Malformed(e)
            case None =>
              && w.repository.Some? && FolderOf(w, w.repository.value, d.name).Some?
              && var folder := FolderOf(w, w.repository.value, d.name).value;
                 var repo := w.repository.value;
                 var f := repo.folders[folder];
                 if UsesDev(w, f, d.version) then w.packages[f.dev.value] == Malformed(e)
                 else
                   match if d.version.Some? then d.version else f.current
                   case None => false
                   case Some(v) =>
                     var root := VersionRoot(repo, folder, v);
                     root in w.packages && w.packages[root] == Malformed(e)
  {
    hide VersionRoot, Chooses;
    forall root, version {
      ChoiceIs(w, d, root, version);
    }
    if d.path.Some? {
      assert Chooses(w, d, d.path.value, None);
    } else if w.repository.Some? && FolderOf(w, w.repository.value, d.name).Some? {
      var repo, folder := w.repository.value, FolderOf(w, w.repository.value, d.name).value;
      var f := repo.folders[folder];
      if UsesDev(w, f, d.version) {
        assert Chooses(w, d, f.dev.value, None);
      } else {
        match if d.version.Some? then d.version else f.current
        case None =>
        case Some(v) => assert Chooses(w, d, VersionRoot(repo, folder, v), Some(v));
      }
    }
  }

  lemma NowhereIs(w: World, repo: Repository, d: Dependency, e: string)
    ensures FailsIn(w, repo, d, e) <==>
            match FolderOf(w, repo, d.name)
            case None => e == "not installed in " + repo.path
            case Some(folder) => NoVersion(w, repo, folder, d.version, e)
  {
    hide FolderOf, NoVersion;
    forall folder {
      FolderIs(w, repo, d.name, folder);
    }
    hide IsFolderOf;
  }

  /** It yields a problem exactly when a directory, the repository, the folder, a version or a readable manifest is
      missing, and says which. */
  lemma FailedIff(w: World, d: Dependency, e: string)
    ensures LookUp(w, d) == Failed(e) <==> Fails(w, d, e)
  {
    hide FolderOf, VersionRoot, UnreadableChoice, FailsIn;
    UnreadableIs(w, d, e);
    if w.repository.Some? {
      NowhereIs(w, w.repository.value, d, e);
    }
  }

  // ---------- whole resolutions ----------

  ghost predicate Yields(w: World, d: Dependency, lib: Library) {
    lib.name == d.name && Available(w, d, lib.root, lib.version)
  }

  lemma FoundYields(w: World, d: Dependency, lib: Library)
    ensures LookUp(w, d).Found? && LookUp(w, d).lib == lib <==> Yields(w, d, lib)
  {
    hide LookUp, Chooses;
    FoundIff(w, d, lib, PackageOf(w, lib));
    if LookUp(w, d).Found? {
      FoundIff(w, d, LookUp(w, d).lib, LookUp(w, d).dependencies);
    }
  }

  /** The libraries are those of the directories that the attempts choose. */
  lemma {:induction false} LibrariesExact(w: World, attempts: seq<Dependency>, lib: Library)
    ensures lib in Libraries(w, attempts) <==> exists d :: d in attempts && Yields(w, d, lib)
    decreases |attempts|
  {
    hide LookUp, Yields;
    if attempts != [] {
      var n := |attempts| - 1;
      LibrariesExact(w, attempts[..n], lib);
      FoundYields(w, attempts[n], lib);
      InParts(attempts);
    }
  }

  lemma InParts(attempts: seq<Dependency>)
    requires attempts != []
    ensures var n := |attempts| - 1;
            forall d :: d in attempts <==> d in attempts[..n] || d == attempts[n]
  {
    var n := |attempts| - 1;
    assert attempts == attempts[..n] + [attempts[n]];
  }

  function PackageOf(w: World, lib: Library): seq<Dependency> {
    if lib.root in w.packages && w.packages[lib.root].Declares? then w.packages[lib.root].dependencies else []
  }

  ghost predicate Tells(w: World, d: Dependency, p: string) {
    exists e :: Fails(w, d, e) && p == "-lib " + d.name + ": " + e
  }

  lemma FailedTells(w: World, d: Dependency, p: string)
    ensures LookUp(w, d).Failed? && p == "-lib " + d.name + ": " + LookUp(w, d).error <==> Tells(w, d, p)
  {
    hide LookUp, Fails;
    if LookUp(w, d).Failed? {
      FailedIff(w, d, LookUp(w, d).error);
    }
    if Tells(w, d, p) {
      var e :| Fails(w, d, e) && p == "-lib " + d.name + ": " + e;
      FailedIff(w, d, e);
    }
  }

  /** The problems are those of the attempts that choose nothing readable. */
  lemma {:induction false} ProblemsExact(w: World, attempts: seq<Dependency>, p: string)
    ensures p in Problems(w, attempts) <==> exists d :: d in attempts && Tells(w, d, p)
    decreases |attempts|
  {
    hide LookUp, Tells;
    if attempts != [] {
      var n := |attempts| - 1;
      ProblemsExact(w, attempts[..n], p);
      FailedTells(w, attempts[n], p);
      InParts(attempts);
    }
  }

  /** What an attempt queues is what the directory it chooses declares, and nothing if it yields no library. */
  lemma DeclaredExact(w: World, d: Dependency, root: string, version: Option<string>)
    ensures Available(w, d, root, version) ==> Declared(w, d) == w.packages[root].dependencies
    ensures (forall r, v :: !Available(w, d, r, v)) ==> Declared(w, d) == []
  {
    hide LookUp, Chooses;
    if Available(w, d, root, version) {
      FoundIff(w, d, Library(d.name, version, root), w.packages[root].dependencies);
    }
    if LookUp(w, d).Found? {
      var lib := LookUp(w, d).lib;
      FoundIff(w, d, lib, LookUp(w, d).dependencies);
    }
  }

  ghost predicate Rising(at: seq<int>, n: nat) {
    && (forall k :: 0 <= k < |at| ==> 0 <= at[k] < n)
    && forall j, k :: 0 <= j < k < |at| ==> at[j] < at[k]
  }

  /** The libraries come in the order of the attempts that yield them. */
  lemma {:induction false} LibrariesInOrder(w: World, attempts: seq<Dependency>) returns (at: seq<int>)
    ensures Rising(at, |attempts|) && |at| == |Libraries(w, attempts)|
    ensures forall k :: 0 <= k < |at| ==> Yields(w, attempts[at[k]], Libraries(w, attempts)[k])
    decreases |attempts|
  {
    hide LookUp, Yields;
    at := [];
    if attempts != [] {
      var n := |attempts| - 1;
      at := LibrariesInOrder(w, attempts[..n]);
      if LookUp(w, attempts[n]).Found? {
        FoundYields(w, attempts[n], LookUp(w, attempts[n]).lib);
        at := at + [n];
      }
    }
  }

  /** A version that is asked for and installed is the one that is found, whatever is current or in development. */
  lemma AskedVersionIsFound(w: World, d: Dependency, folder: string, v: string)
    requires d.path.None? && d.version == Some(v) && w.repository.Some?
    requires IsFolderOf(w, w.repository.value, d.name, folder)
    requires var root := VersionRoot(w.repository.value, folder, v); root in w.packages && w.packages[root].Declares?
    ensures Libraries(w, [d]) == [Library(d.name, Some(v), VersionRoot(w.repository.value, folder, v))]
  {
    hide VersionRoot, IsFolderOf;
    FolderIs(w, w.repository.value, d.name, folder);
    assert [d][..0] == [] && Libraries(w, []) == [];
  }

  /** Directory names have no dots, and names without dots are kept. */
  lemma CommasForDots(s: string)
    ensures '.' !in Commas(s) && |Commas(s)| == |s|
    ensures forall i :: 0 <= i < |s| && s[i] != '.' ==> Commas(s)[i] == s[i]
    ensures forall i :: 0 <= i < |s| && s[i] == '.' ==> Commas(s)[i] == ','
  {
  }

  /** Versions that differ in more than dots have different directories. */
  lemma VersionsApart(repo: Repository, folder: string, v: string, u: string)
    ensures VersionRoot(repo, folder, v) == VersionRoot(repo, folder, u) <==> Commas(v) == Commas(u)
  {
    hide Commas;
    var head := repo.path + "/" + folder + "/";
    assert VersionRoot(repo, folder, v)[|head|..] == Commas(v);
    assert VersionRoot(repo, folder, u)[|head|..] == Commas(u);
  }
}
