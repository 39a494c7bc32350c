/** The cache build id: FNV-1a over a framed stream of sorted source files, rendered in hexadecimal. */
module BuildId {
  import opened Powers
  import opened Sequences
  import opened Wrappers

  const WORD := 0x1_0000_0000_0000_0000
  const OFFSET: Word := 0xcbf29ce484222325
  const PRIME := 0x100000001b3
  /** The prime is odd, so it has an inverse modulo 2^64: this one. */
  const PRIME_INVERSE := 0xce965057aff6957b

  type Word = x: int | 0 <= x < 0x1_0000_0000_0000_0000
  type Byte = x: int | 0 <= x < 256
  type Bytes = seq<Byte>

  // ---------- the hash ----------

  /** Exclusive-or of the low `bits` binary digits. */
  function Xor(x: nat, y: nat, bits: nat): (r: nat) {
    if bits == 0 then 0 else 2 * Xor(x / 2, y / 2, bits - 1) + (x + y) % 2
  }

  lemma {:induction false} XorFits(x: nat, y: nat, bits: nat)
    ensures Xor(x, y, bits) < Power2(bits)
    decreases bits
  {
    if bits > 0 {
      XorFits(x / 2, y / 2, bits - 1);
    }
  }

  lemma SplitBit(h: int, l: int, k: int, m: int)
    requires 0 <= l < 2 && 0 <= m < 2 && 2 * h + l == 2 * k + m
    ensures h == k && l == m
  {
  }

  lemma Halves(x: nat, y: nat, b: nat)
    requires x / 2 == y / 2 && (x + b) % 2 == (y + b) % 2
    ensures x == y
  {
  }

  /** Exclusive-or with a fixed number loses nothing. */
  lemma {:induction false} XorInjective(x: nat, y: nat, b: nat, bits: nat)
    requires x < Power2(bits) && y < Power2(bits) && Xor(x, b, bits) == Xor(y, b, bits)
    ensures x == y
    decreases bits
  {
    if bits > 0 {
      var u, v := Xor(x / 2, b / 2, bits - 1), Xor(y / 2, b / 2, bits - 1);
      SplitBit(u, (x + b) % 2, v, (y + b) % 2);
      XorInjective(x / 2, y / 2, b / 2, bits - 1);
      Halves(x, y, b);
    }
  }

  lemma {:induction false} XorCommutes(x: nat, y: nat, bits: nat)
    ensures Xor(x, y, bits) == Xor(y, x, bits)
    decreases bits
  {
    if bits > 0 {
      XorCommutes(x / 2, y / 2, bits - 1);
    }
  }

  lemma EightBits()
    ensures Power2(8) == 256
  {
  }

  lemma XorIsByte(x: Byte, b: Byte)
    ensures Xor(x, b, 8) < 256
  {
    hide Xor, Power2;
    EightBits();
    XorFits(x, b, 8);
  }

  function XorByte(x: Byte, b: Byte): Byte {
    XorIsByte(x, b);
    Xor(x, b, 8)
  }

  /** Exclusive-or with a byte touches the low eight bits of a word only. */
  function XorLow(s: Word, b: Byte): Word {
    s - s % 256 + XorByte(s % 256, b)
  }

  /** One byte of FNV-1a: exclusive-or, then a wrapping multiplication. */
  function Step(s: Word, b: Byte): Word {
    XorLow(s, b) * PRIME % WORD
  }

  function Fold(s: Word, bytes: Bytes): Word
    decreases |bytes|
  {
    if bytes == [] then s else Fold(Step(s, bytes[0]), bytes[1..])
  }

  lemma XorLowInjective(s: Word, t: Word, b: Byte, c: Byte)
    requires XorLow(s, b) == XorLow(t, c)
    ensures b == c ==> s == t
    ensures s == t ==> b == c
  {
    hide Xor, Power2;
    var x, y := s % 256, t % 256;
    EightBits();
    XorFits(x, b, 8);
    XorFits(y, c, 8);
    SplitLow(s - x, Xor(x, b, 8), t - y, Xor(y, c, 8));
    if b == c {
      XorInjective(x, y, b, 8);
    }
    if s == t {
      XorCommutes(x, b, 8);
      XorCommutes(y, c, 8);
      XorInjective(b, c, x, 8);
    }
  }

  lemma SplitLow(h: int, l: int, k: int, m: int)
    requires h % 256 == 0 && k % 256 == 0 && 0 <= l < 256 && 0 <= m < 256 && h + l == k + m
    ensures h == k && l == m
  {
  }

  /** Multiplication by the prime loses nothing modulo 2^64. */
  lemma MulInjective(x: Word, y: Word)
    requires x * PRIME % WORD == y * PRIME % WORD
    ensures x == y
  {
    var k := x * PRIME / WORD - y * PRIME / WORD;
    var d := x - y;
    assert d * PRIME == k * WORD;
    assert PRIME * PRIME_INVERSE == 887285111055 * WORD + 1;
    var q := k * PRIME_INVERSE - 887285111055 * d;
    assert d == q * WORD;
  }

  /** A step is injective in the state and in the byte. */
  lemma StepInjective(s: Word, t: Word, b: Byte, c: Byte)
    requires Step(s, b) == Step(t, c)
    ensures b == c ==> s == t
    ensures s == t ==> b == c
  {
    MulInjective(XorLow(s, b), XorLow(t, c));
    XorLowInjective(s, t, b, c);
  }

  lemma {:induction false} FoldAppend(s: Word, x: Bytes, y: Bytes)
    ensures Fold(s, x + y) == Fold(Fold(s, x), y)
    decreases |x|
  {
    if x == [] {
      assert x + y == y;
    } else {
      assert (x + y)[1..] == x[1..] + y;
      FoldAppend(Step(s, x[0]), x[1..], y);
    }
  }

  /** A common suffix never merges two states. */
  lemma {:induction false} SuffixKeepsApart(s: Word, t: Word, suffix: Bytes)
    ensures Fold(s, suffix) == Fold(t, suffix) <==> s == t
    decreases |suffix|
  {
    if suffix != [] {
      SuffixKeepsApart(Step(s, suffix[0]), Step(t, suffix[0]), suffix[1..]);
      if Step(s, suffix[0]) == Step(t, suffix[0]) {
        StepInjective(s, t, suffix[0], suffix[0]);
      }
    }
  }

  /** Replacing a stretch of the stream goes unnoticed exactly when the two stretches lead from the state
      before them to one state. */
  lemma EditUnnoticedIff(s: Word, before: Bytes, x: Bytes, y: Bytes, after: Bytes)
    ensures Fold(s, before + x + after) == Fold(s, before + y + after) <==>
            Fold(Fold(s, before), x) == Fold(Fold(s, before), y)
  {
    FoldAppend(s, before + x, after);
    FoldAppend(s, before + y, after);
    FoldAppend(s, before, x);
    FoldAppend(s, before, y);
    SuffixKeepsApart(Fold(s, before + x), Fold(s, before + y), after);
  }

  ghost predicate DifferInOneByte(x: Bytes, y: Bytes) {
    |x| == |y| && exists i :: 0 <= i < |x| && x[i] != y[i] && y == x[i := y[i]]
  }

  lemma OneByteMoves(s: Word, x: Bytes, y: Bytes)
    requires DifferInOneByte(x, y)
    ensures Fold(s, x) != Fold(s, y)
  {
    var i :| 0 <= i < |x| && x[i] != y[i] && y == x[i := y[i]];
    var before, after := x[..i], x[i + 1..];
    assert x == before + [x[i]] + after && y == before + [y[i]] + after;
    EditUnnoticedIff(s, before, [x[i]], [y[i]], after);
    var mid := Fold(s, before);
    assert Fold(mid, [x[i]]) == Step(mid, x[i]) && Fold(mid, [y[i]]) == Step(mid, y[i]);
    if Step(mid, x[i]) == Step(mid, y[i]) {
      StepInjective(mid, mid, x[i], y[i]);
    }
  }

  // ---------- the rendering ----------

  const HEX := "0123456789abcdef"

  /** The low `n` hexadecimal digits of `x`, most significant first. */
  function Digits(x: nat, n: nat): (s: string)
    ensures |s| == n
  {
    if n == 0 then "" else Digits(x / 16, n - 1) + [HEX[x % 16]]
  }

  lemma HexDigitsDiffer(i: nat, j: nat)
    requires i < 16 && j < 16 && HEX[i] == HEX[j]
    ensures i == j
  {
  }

  function Power16(n: nat): (p: nat)
    ensures p > 0
  {
    if n == 0 then 1 else 16 * Power16(n - 1)
  }

  lemma {:induction false} DigitsInjective(x: nat, y: nat, n: nat)
    requires x < Power16(n) && y < Power16(n) && Digits(x, n) == Digits(y, n)
    ensures x == y
    decreases n
  {
    if n > 0 {
      var s, t := Digits(x, n), Digits(y, n);
      assert s[..n - 1] == Digits(x / 16, n - 1) && t[..n - 1] == Digits(y / 16, n - 1);
      assert s[n - 1] == HEX[x % 16] && t[n - 1] == HEX[y % 16];
      HexDigitsDiffer(x % 16, y % 16);
      DigitsInjective(x / 16, y / 16, n - 1);
    }
  }

  /** `{:016x}`. */
  function Hex16(x: Word): string {
    Digits(x, 16)
  }

  lemma Hex16Injective(x: Word, y: Word)
    ensures Hex16(x) == Hex16(y) <==> x == y
  {
    assert Power16(16) == WORD by {
      assert Power16(4) == 0x10000;
      assert Power16(8) == 0x1_0000_0000;
      assert Power16(12) == 0x1_0000_0000_0000;
    }
    if Hex16(x) == Hex16(y) {
      DigitsInjective(x, y, 16);
    }
  }

  // ---------- the hasher in place ----------

  class Fnv64 {
    var state: Word

    constructor ()
      ensures state == OFFSET
    {
      state := OFFSET;
    }

    method Write(bytes: Bytes)
      modifies this
      ensures state == Fold(old(state), bytes)
    {
      for i := 0 to |bytes|
        invariant state == Fold(old(state), bytes[..i])
      {
        FoldAppend(old(state), bytes[..i], [bytes[i]]);
        assert bytes[..i + 1] == bytes[..i] + [bytes[i]];
        FoldOne(state, bytes[i]);
        state := Step(state, bytes[i]);
      }
      assert bytes == bytes[..|bytes|];
    }

    method WriteStr(text: Bytes)
      modifies this
      ensures state == Fold(old(state), text + [0])
    {
      FoldAppend(state, text, [0]);
      Write(text);
      Write([0]);
    }
  }

  lemma FoldOne(s: Word, b: Byte)
    ensures Fold(s, [b]) == Step(s, b)
  {
  }

  // ---------- the files ----------

  type Path = seq<string>

  /** A place in the file system: a readable file, a directory with its entries in the order in which the
      system lists them, or something that cannot be examined. */
  datatype Node = File | Dir(entries: seq<Entry>) | Unreadable
  datatype Entry = Entry(name: string, node: Node)

  /** What the platform decides: the order of paths and the bytes a path is shown as. */
  datatype Host = Host(le: (Path, Path) -> bool, display: Path -> Bytes)

  /** The files at or below `path`, in listing order. */
  function Files(path: Path, node: Node): seq<Path>
    decreases node, 0
  {
    match node
    case File => [path]
    case Unreadable => []
    case Dir(entries) => FilesIn(path, entries)
  }

  function FilesIn(path: Path, entries: seq<Entry>): seq<Path>
    decreases entries, 0
  {
    if entries == [] then []
    else Files(path + [entries[0].name], entries[0].node) + FilesIn(path, entries[1..])
  }

  lemma {:induction false} FilesInSnoc(path: Path, entries: seq<Entry>, e: Entry)
    ensures FilesIn(path, entries + [e]) == FilesIn(path, entries) + Files(path + [e.name], e.node)
    decreases |entries|
  {
    if entries != [] {
      assert (entries + [e])[1..] == entries[1..] + [e];
      FilesInSnoc(path, entries[1..], e);
    } else {
      assert [e][1..] == [];
    }
  }

  method CollectFiles(path: Path, node: Node, files: seq<Path>) returns (out: seq<Path>)
    ensures out == files + Files(path, node)
    decreases node
  {
    match node
    case Unreadable =>
      return files;
    case File =>
      return files + [path];
    case Dir(entries) =>
      out := files;
      for i := 0 to |entries|
        invariant out == files + FilesIn(path, entries[..i])
      {
        FilesInSnoc(path, entries[..i], entries[i]);
        assert entries[..i + 1] == entries[..i] + [entries[i]];
        out := CollectFiles(path + [entries[i].name], entries[i].node, out);
      }
      assert entries == entries[..|entries|];
  }

  ghost predicate TotalOrder(le: (Path, Path) -> bool) {
    TotalPreorder(le) && forall p, q :: le(p, q) && le(q, p) ==> p == q
  }

  lemma LeastFirst(le: (Path, Path) -> bool, s: seq<Path>, t: seq<Path>)
    requires TotalOrder(le) && Ordered(le, s) && Ordered(le, t) && s != [] && t != []
    requires multiset(s) == multiset(t)
    ensures s[0] == t[0]
  {
    assert s[0] in multiset(t) && t[0] in multiset(s);
    assert s[0] in t && t[0] in s;
    assert le(s[0], s[0]) && le(t[0], t[0]);
    assert le(t[0], s[0]) && le(s[0], t[0]);
  }

  lemma SameTails(s: seq<Path>, t: seq<Path>)
    requires s != [] && t != [] && s[0] == t[0] && multiset(s) == multiset(t)
    ensures multiset(s[1..]) == multiset(t[1..])
  {
    assert s == [s[0]] + s[1..] && t == [t[0]] + t[1..];
    assert multiset(s[1..]) == multiset(s) - multiset([s[0]]);
    assert multiset(t[1..]) == multiset(t) - multiset([t[0]]);
  }

  lemma OrderedTail(le: (Path, Path) -> bool, s: seq<Path>)
    requires Ordered(le, s) && s != []
    ensures Ordered(le, s[1..])
  {
  }

  /** Only one arrangement is in order. */
  lemma {:induction false} OrderedUnique(le: (Path, Path) -> bool, s: seq<Path>, t: seq<Path>)
    requires TotalOrder(le) && Ordered(le, s) && Ordered(le, t)
    requires multiset(s) == multiset(t)
    ensures s == t
    decreases |s|
  {
    hide Ordered, TotalOrder;
    assert |s| == |multiset(s)| == |multiset(t)| == |t|;
    if s != [] {
      LeastFirst(le, s, t);
      SameTails(s, t);
      OrderedTail(le, s);
      OrderedTail(le, t);
      OrderedUnique(le, s[1..], t[1..]);
      assert s == [s[0]] + s[1..] && t == [t[0]] + t[1..];
    }
  }

  // ---------- the stream ----------

  function Ascii(s: string): (b: Bytes)
    ensures |b| == |s|
  {
    seq(|s|, i requires 0 <= i < |s| => s[i] as int % 256)
  }

  const CACHE_ABI_VERSION := "rayzor-cache-abi-v1"

  const TARGET_KEYS := ["CARGO_CFG_TARGET_ARCH", "CARGO_CFG_TARGET_OS", "CARGO_CFG_TARGET_ENV",
                        "CARGO_CFG_TARGET_POINTER_WIDTH"]

  const SINGLE_FILES: seq<Path> :=
    [["Cargo.toml"], ["..", "Cargo.lock"], ["..", "parser", "Cargo.toml"],
     ["..", "diagnostics", "Cargo.toml"], ["bsym", "Cargo.toml"]]

  const ROOTS: seq<Path> :=
    [["src"], ["haxe-std"], ["..", "parser", "src"], ["..", "diagnostics", "src"], ["bsym", "src"]]

  /** The package version and the values of the target variables, empty for those that are not set. */
  datatype Build = Build(version: Bytes, targets: seq<Bytes>)

  function TargetLines(targets: seq<Bytes>, n: nat): Bytes
    requires n <= |targets| && n <= |TARGET_KEYS|
  {
    if n == 0 then []
    else TargetLines(targets, n - 1) + (Ascii(TARGET_KEYS[n - 1]) + [0]) + (targets[n - 1] + [0])
  }

  function Header(build: Build): Bytes
    requires |build.targets| == 4
  {
    Ascii(CACHE_ABI_VERSION) + [0] + (build.version + [0]) + TargetLines(build.targets, 4)
  }

  /** What one path contributes: its name, then its contents if it can be read. */
  function Frame(host: Host, disk: map<Path, Bytes>, p: Path): Bytes {
    host.display(p) + [0] +
    if p in disk then Ascii("file") + [0] + (disk[p] + [0]) else Ascii("missing") + [0]
  }

  function Frames(host: Host, disk: map<Path, Bytes>, paths: seq<Path>): Bytes {
    if paths == [] then [] else Frame(host, disk, paths[0]) + Frames(host, disk, paths[1..])
  }

  function TreePaths(host: Host, trees: seq<Node>, n: nat): seq<Path>
    requires |trees| == |ROOTS| && n <= |ROOTS|
  {
    if n == 0 then [] else TreePaths(host, trees, n - 1) + Sort(host.le, Files(ROOTS[n - 1], trees[n - 1]))
  }

  /** Every path that is hashed, in the order of hashing. */
  function HashedPaths(host: Host, trees: seq<Node>): seq<Path>
    requires |trees| == |ROOTS|
  {
    SINGLE_FILES + TreePaths(host, trees, |ROOTS|)
  }

  function BuildIdOf(host: Host, build: Build, disk: map<Path, Bytes>, trees: seq<Node>): string
    requires |build.targets| == 4 && |trees| == |ROOTS|
  {
    Hex16(Fold(OFFSET, Header(build) + Frames(host, disk, HashedPaths(host, trees))))
  }

  lemma {:induction false} FramesAppend(host: Host, disk: map<Path, Bytes>, ps: seq<Path>, qs: seq<Path>)
    ensures Frames(host, disk, ps + qs) == Frames(host, disk, ps) + Frames(host, disk, qs)
    decreases |ps|
  {
    if ps == [] {
      assert ps + qs == qs;
    } else {
      assert (ps + qs)[1..] == ps[1..] + qs;
      FramesAppend(host, disk, ps[1..], qs);
    }
  }

  method HashPath(host: Host, disk: map<Path, Bytes>, p: Path, hash: Fnv64)
    modifies hash
    ensures hash.state == Fold(old(hash.state), Frame(host, disk, p))
  {
    hide Ascii, Fold;
    var shown := host.display(p) + [0];
    FoldAppend(hash.state, shown, if p in disk then Ascii("file") + [0] + (disk[p] + [0]) else Ascii("missing") + [0]);
    hash.WriteStr(host.display(p));
    if p in disk {
      FoldAppend(hash.state, Ascii("file") + [0], disk[p] + [0]);
      FoldAppend(hash.state, Ascii("file") + [0] , disk[p]);
      hash.WriteStr(Ascii("file"));
      FoldAppend(hash.state, disk[p], [0]);
      hash.Write(disk[p]);
      hash.Write([0]);
    } else {
      hash.WriteStr(Ascii("missing"));
    }
  }

  method HashPaths(host: Host, disk: map<Path, Bytes>, paths: seq<Path>, hash: Fnv64)
    modifies hash
    ensures hash.state == Fold(old(hash.state), Frames(host, disk, paths))
  {
    for i := 0 to |paths|
      invariant hash.state == Fold(old(hash.state), Frames(host, disk, paths[..i]))
    {
      hide Fold, Frame;
      HashPath(host, disk, paths[i], hash);
      FramesAppend(host, disk, paths[..i], [paths[i]]);
      assert paths[..i + 1] == paths[..i] + [paths[i]];
      FramesOne(host, disk, paths[i]);
      FoldAppend(old(hash.state), Frames(host, disk, paths[..i]), Frame(host, disk, paths[i]));
    }
    assert paths == paths[..|paths|];
  }

  lemma FramesOne(host: Host, disk: map<Path, Bytes>, p: Path)
    ensures Frames(host, disk, [p]) == Frame(host, disk, p)
  {
  }

  method HashTree(host: Host, disk: map<Path, Bytes>, root: Path, tree: Node, hash: Fnv64)
    modifies hash
    ensures hash.state == Fold(old(hash.state), Frames(host, disk, Sort(host.le, Files(root, tree))))
  {
    var files := CollectFiles(root, tree, []);
    assert files == Files(root, tree);
    HashPaths(host, disk, Sort(host.le, files), hash);
  }

  method HashTargets(targets: seq<Bytes>, hash: Fnv64)
    requires |targets| == 4
    modifies hash
    ensures hash.state == Fold(old(hash.state), TargetLines(targets, 4))
  {
    for i := 0 to 4
      invariant hash.state == Fold(old(hash.state), TargetLines(targets, i))
    {
      hide Fold, Ascii;
      var key := Ascii(TARGET_KEYS[i]);
      hash.WriteStr(key);
      hash.WriteStr(targets[i]);
      FoldAppend(old(hash.state), TargetLines(targets, i), key + [0]);
      FoldAppend(old(hash.state), TargetLines(targets, i) + (key + [0]), targets[i] + [0]);
    }
  }

  lemma BuildStreamSplits(host: Host, build: Build, disk: map<Path, Bytes>, trees: seq<Node>)
    requires |build.targets| == 4 && |trees| == |ROOTS|
    ensures var s0 := Fold(OFFSET, Ascii(CACHE_ABI_VERSION) + [0]);
            var s1 := Fold(s0, build.version + [0]);
            var s2 := Fold(s1, TargetLines(build.targets, 4));
            var s3 := Fold(s2, Frames(host, disk, SINGLE_FILES));
            Hex16(Fold(s3, Frames(host, disk, TreePaths(host, trees, |ROOTS|)))) == BuildIdOf(host, build, disk, trees)
  {
    hide Fold, Frames, Ascii, Hex16, TreePaths, TargetLines;
    var a, b, c := Ascii(CACHE_ABI_VERSION) + [0], build.version + [0], TargetLines(build.targets, 4);
    var tail := TreePaths(host, trees, |ROOTS|);
    var d, e := Frames(host, disk, SINGLE_FILES), Frames(host, disk, tail);
    FramesAppend(host, disk, SINGLE_FILES, tail);
    assert Header(build) + Frames(host, disk, HashedPaths(host, trees)) == a + b + c + (d + e);
    FoldAppend(OFFSET, a, b);
    FoldAppend(OFFSET, a + b, c);
    FoldAppend(OFFSET, a + b + c, d + e);
    FoldAppend(Fold(OFFSET, a + b + c), d, e);
  }

  method CacheBuildId(host: Host, build: Build, disk: map<Path, Bytes>, trees: seq<Node>) returns (id: string)
    requires |build.targets| == 4 && |trees| == |ROOTS|
    ensures id == BuildIdOf(host, build, disk, trees)
  {
    hide *;
    var hash := new Fnv64();
    hash.WriteStr(Ascii(CACHE_ABI_VERSION));
    hash.WriteStr(build.version);
    HashTargets(build.targets, hash);
    HashPaths(host, disk, SINGLE_FILES, hash);
    HashAllTrees(host, disk, trees, hash);
    BuildStreamSplits(host, build, disk, trees);
    id := Hex16(hash.state);
  }

  method HashAllTrees(host: Host, disk: map<Path, Bytes>, trees: seq<Node>, hash: Fnv64)
    requires |trees| == |ROOTS|
    modifies hash
    ensures hash.state == Fold(old(hash.state), Frames(host, disk, TreePaths(host, trees, |ROOTS|)))
  {
    for i := 0 to |ROOTS|
      invariant hash.state == Fold(old(hash.state), Frames(host, disk, TreePaths(host, trees, i)))
    {
      hide Fold, Frames, Sort, Files;
      HashTree(host, disk, ROOTS[i], trees[i], hash);
      var done, more := TreePaths(host, trees, i), Sort(host.le, Files(ROOTS[i], trees[i]));
      FramesAppend(host, disk, done, more);
      FoldAppend(old(hash.state), Frames(host, disk, done), Frames(host, disk, more));
    }
  }

  // ---------- listing order does not matter ----------

  lemma {:induction false} SameTreePaths(host: Host, trees: seq<Node>, others: seq<Node>, n: nat)
    requires TotalOrder(host.le) && |trees| == |others| == |ROOTS| && n <= |ROOTS|
    requires forall k :: 0 <= k < |ROOTS| ==>
               multiset(Files(ROOTS[k], trees[k])) == multiset(Files(ROOTS[k], others[k]))
    ensures TreePaths(host, trees, n) == TreePaths(host, others, n)
    decreases n
  {
    if n > 0 {
      SameTreePaths(host, trees, others, n - 1);
      var s, t := Files(ROOTS[n - 1], trees[n - 1]), Files(ROOTS[n - 1], others[n - 1]);
      SortOrdered(host.le, s);
      SortOrdered(host.le, t);
      OrderedUnique(host.le, Sort(host.le, s), Sort(host.le, t));
    }
  }

  /** The id depends on which files there are, not on the order in which directories list them. */
  lemma ListingOrderIrrelevant(
      host: Host, build: Build, disk: map<Path, Bytes>, trees: seq<Node>, others: seq<Node>)
    requires TotalOrder(host.le) && |build.targets| == 4 && |trees| == |others| == |ROOTS|
    requires forall k :: 0 <= k < |ROOTS| ==>
               multiset(Files(ROOTS[k], trees[k])) == multiset(Files(ROOTS[k], others[k]))
    ensures BuildIdOf(host, build, disk, trees) == BuildIdOf(host, build, disk, others)
  {
    SameTreePaths(host, trees, others, |ROOTS|);
  }

  // ---------- every path is hashed once ----------

  /** No directory lists a name twice. */
  ghost predicate Plain(node: Node) {
    match node
    case File => true
    case Unreadable => true
    case Dir(entries) =>
      (forall i, j :: 0 <= i < j < |entries| ==> entries[i].name != entries[j].name) &&
      (forall e :: e in entries ==> Plain(e.node))
  }

  lemma {:induction false} FilesBelow(path: Path, node: Node)
    ensures forall p :: p in Files(path, node) ==> path <= p
    decreases node, 0
  {
    match node
    case File =>
    case Unreadable =>
    case Dir(entries) =>
      FilesInBelow(path, entries);
  }

  lemma {:induction false} FilesInBelow(path: Path, entries: seq<Entry>)
    ensures forall p :: p in FilesIn(path, entries) ==>
              path <= p && exists e :: e in entries && path + [e.name] <= p
    decreases entries, 0
  {
    if entries != [] {
      FilesBelow(path + [entries[0].name], entries[0].node);
      FilesInBelow(path, entries[1..]);
      forall p | p in FilesIn(path, entries)
        ensures path <= p && exists e :: e in entries && path + [e.name] <= p
      {
        if p in Files(path + [entries[0].name], entries[0].node) {
          assert entries[0] in entries && path + [entries[0].name] <= p;
          BelowChild(path, entries[0].name, p);
        } else {
          assert p in FilesIn(path, entries[1..]);
          var e :| e in entries[1..] && path + [e.name] <= p;
          assert e in entries;
        }
      }
    }
  }

  lemma BelowChild(path: Path, name: string, p: Path)
    requires path + [name] <= p
    ensures path <= p
  {
  }

  lemma {:induction false} FilesDistinct(path: Path, node: Node)
    requires Plain(node)
    ensures NoDup(Files(path, node))
    decreases node, 0
  {
    match node
    case File =>
    case Unreadable =>
    case Dir(entries) =>
      FilesInDistinct(path, entries);
  }

  lemma {:induction false} FilesInDistinct(path: Path, entries: seq<Entry>)
    requires forall i, j :: 0 <= i < j < |entries| ==> entries[i].name != entries[j].name
    requires forall e :: e in entries ==> Plain(e.node)
    ensures NoDup(FilesIn(path, entries))
    decreases entries, 0
  {
    if entries != [] {
      var head, rest := Files(path + [entries[0].name], entries[0].node), FilesIn(path, entries[1..]);
      FilesDistinct(path + [entries[0].name], entries[0].node);
      FilesInDistinct(path, entries[1..]);
      FilesBelow(path + [entries[0].name], entries[0].node);
      FilesInBelow(path, entries[1..]);
      forall p | p in head && p in rest ensures false {
        var e :| e in entries[1..] && path + [e.name] <= p;
        OtherChild(path, entries[0].name, e.name, p);
      }
      NoDupConcat(head, rest);
    }
  }

  lemma OtherChild(path: Path, a: string, b: string, p: Path)
    requires path + [a] <= p && path + [b] <= p
    ensures a == b
  {
    assert p[|path|] == (path + [a])[|path|];
    assert p[|path|] == (path + [b])[|path|];
  }

  lemma NoDupConcat(s: seq<Path>, t: seq<Path>)
    requires NoDup(s) && NoDup(t) && forall p :: p in s ==> p !in t
    ensures NoDup(s + t)
  {
    var u := s + t;
    forall i, j | 0 <= i < j < |u| ensures u[i] != u[j] {
      if i < |s| <= j {
        assert u[i] in s && u[j] in t;
      }
    }
  }

  lemma NoDupSort(le: (Path, Path) -> bool, s: seq<Path>)
    requires NoDup(s)
    ensures NoDup(Sort(le, s))
    ensures forall p :: p in Sort(le, s) <==> p in s
  {
    var t := Sort(le, s);
    forall p ensures p in t <==> p in s {
      assert p in t <==> p in multiset(t);
      assert p in s <==> p in multiset(s);
    }
    NoDupCounts(s);
    forall i, j | 0 <= i < j < |t| ensures t[i] != t[j] {
      if t[i] == t[j] {
        TwiceCounts(t, i, j);
      }
    }
  }

  lemma {:induction false} NoDupCounts(s: seq<Path>)
    requires NoDup(s)
    ensures forall p :: multiset(s)[p] <= 1
    decreases |s|
  {
    if s != [] {
      assert s == [s[0]] + s[1..];
      NoDupCounts(s[1..]);
      assert multiset(s) == multiset([s[0]]) + multiset(s[1..]);
      assert s[0] !in multiset(s[1..]);
      forall p ensures multiset(s)[p] <= 1 {
        assert multiset(s)[p] == multiset([s[0]])[p] + multiset(s[1..])[p];
      }
    }
  }

  lemma TwiceCounts(t: seq<Path>, i: nat, j: nat)
    requires i < j < |t| && t[i] == t[j]
    ensures multiset(t)[t[i]] >= 2
  {
    assert t == t[..j] + t[j..];
    assert t[i] in t[..j] && t[j] in t[j..];
    assert t[i] in multiset(t[..j]) && t[j] in multiset(t[j..]);
  }

  /** Neither path is at or below the other. */
  predicate Apart(p: Path, q: Path) {
    !(p <= q) && !(q <= p)
  }

  lemma ApartAt(p: Path, q: Path, k: nat)
    requires k < |p| && k < |q| && p[k] != q[k]
    ensures Apart(p, q)
  {
  }

  /** The names in the lists above are different texts. */
  lemma NamesDiffer()
    ensures NoDup(["src", "haxe-std", "..", "bsym", "parser", "diagnostics", "Cargo.toml", "Cargo.lock"])
  {
  }

  lemma RootsApart(i: nat, j: nat)
    requires i < j < |ROOTS|
    ensures Apart(ROOTS[i], ROOTS[j])
  {
    var n := ["src", "haxe-std", "..", "bsym", "parser", "diagnostics", "Cargo.toml", "Cargo.lock"];
    NamesDiffer();
    assert ROOTS == [[n[0]], [n[1]], [n[2], n[4], n[0]], [n[2], n[5], n[0]], [n[3], n[0]]];
    ApartAt(ROOTS[i], ROOTS[j], if i == 2 && j == 3 then 1 else 0);
  }

  lemma SinglesApart(i: nat, j: nat)
    requires i < |SINGLE_FILES| && j < |ROOTS|
    ensures Apart(SINGLE_FILES[i], ROOTS[j])
  {
    var n := ["src", "haxe-std", "..", "bsym", "parser", "diagnostics", "Cargo.toml", "Cargo.lock"];
    NamesDiffer();
    assert ROOTS == [[n[0]], [n[1]], [n[2], n[4], n[0]], [n[2], n[5], n[0]], [n[3], n[0]]];
    assert SINGLE_FILES == [[n[6]], [n[2], n[7]], [n[2], n[4], n[6]], [n[2], n[5], n[6]], [n[3], n[6]]];
    var upstairs := j == 2 || j == 3;
    ApartAt(SINGLE_FILES[i], ROOTS[j],
            if i == 1 && upstairs then 1
            else if (i == 2 || i == 3) && i == j then 2
            else if (i == 2 || i == 3) && upstairs then 1
            else if i == 4 && j == 4 then 1
            else 0);
  }

  lemma SinglesDistinct()
    ensures NoDup(SINGLE_FILES)
  {
  }

  /** Of two places above one path, one is above the other. */
  lemma PrefixesCompare(p: Path, q: Path, r: Path)
    requires p <= r && q <= r
    ensures !Apart(p, q)
  {
  }

  lemma {:induction false} TreePathsDistinct(host: Host, trees: seq<Node>, n: nat)
    requires |trees| == |ROOTS| && n <= |ROOTS| && forall t :: t in trees ==> Plain(t)
    ensures NoDup(TreePaths(host, trees, n))
    ensures forall p :: p in TreePaths(host, trees, n) ==> exists k: nat :: k < n && ROOTS[k] <= p
    decreases n
  {
    hide Files, Sort, Plain, Apart;
    if n > 0 {
      TreePathsDistinct(host, trees, n - 1);
      var files := Files(ROOTS[n - 1], trees[n - 1]);
      assert trees[n - 1] in trees;
      FilesDistinct(ROOTS[n - 1], trees[n - 1]);
      FilesBelow(ROOTS[n - 1], trees[n - 1]);
      NoDupSort(host.le, files);
      var before := TreePaths(host, trees, n - 1);
      forall p | p in before ensures p !in files {
        var k: nat :| k < n - 1 && ROOTS[k] <= p;
        RootsApart(k, n - 1);
        if ROOTS[n - 1] <= p {
          PrefixesCompare(ROOTS[k], ROOTS[n - 1], p);
        }
      }
      NoDupConcat(before, Sort(host.le, files));
      assert forall p :: p in Sort(host.le, files) ==> ROOTS[n - 1] <= p;
    }
  }

  /** No file is hashed under two of the listed places. */
  lemma HashedOnce(host: Host, trees: seq<Node>)
    requires |trees| == |ROOTS| && forall t :: t in trees ==> Plain(t)
    ensures NoDup(HashedPaths(host, trees))
  {
    var tail := TreePaths(host, trees, |ROOTS|);
    SinglesDistinct();
    TreePathsDistinct(host, trees, |ROOTS|);
    forall p | p in SINGLE_FILES ensures p !in tail {
      var i :| 0 <= i < |SINGLE_FILES| && SINGLE_FILES[i] == p;
      if p in tail {
        var k: nat :| k < |ROOTS| && ROOTS[k] <= p;
        SinglesApart(i, k);
      }
    }
    NoDupConcat(SINGLE_FILES, tail);
  }

  // ---------- an edit of one file ----------

  /** The state in which the frame of the `i`-th hashed path starts. */
  function StateBefore(host: Host, build: Build, disk: map<Path, Bytes>, trees: seq<Node>, i: nat): Word
    requires |build.targets| == 4 && |trees| == |ROOTS| && i <= |HashedPaths(host, trees)|
  {
    Fold(OFFSET, Header(build) + Frames(host, disk, HashedPaths(host, trees)[..i]))
  }

  ghost predicate AgreeOff(disk: map<Path, Bytes>, edited: map<Path, Bytes>, p: Path) {
    forall q :: q != p ==> (q in disk <==> q in edited) && (q in disk ==> disk[q] == edited[q])
  }

  lemma {:induction false} FramesAgree(
      host: Host, disk: map<Path, Bytes>, edited: map<Path, Bytes>, p: Path, paths: seq<Path>)
    requires AgreeOff(disk, edited, p) && p !in paths
    ensures Frames(host, disk, paths) == Frames(host, edited, paths)
    decreases |paths|
  {
    if paths != [] {
      FramesAgree(host, disk, edited, p, paths[1..]);
    }
  }

  /** Any edit of one hashed file, its removal included, keeps the id exactly when its old and its new frame
      lead from the state before it to one state: nothing that is hashed later can hide the edit. */
  lemma EditKeepsIdIff(host: Host, build: Build, disk: map<Path, Bytes>, edited: map<Path, Bytes>,
                       trees: seq<Node>, i: nat)
    requires |build.targets| == 4 && |trees| == |ROOTS| && forall t :: t in trees ==> Plain(t)
    requires i < |HashedPaths(host, trees)| && AgreeOff(disk, edited, HashedPaths(host, trees)[i])
    ensures BuildIdOf(host, build, disk, trees) == BuildIdOf(host, build, edited, trees) <==>
            var p, s := HashedPaths(host, trees)[i], StateBefore(host, build, disk, trees, i);
            Fold(s, Frame(host, disk, p)) == Fold(s, Frame(host, edited, p))
  {
    hide Fold, Frame, Header, Hex16, HashedPaths;
    var paths := HashedPaths(host, trees);
    var p, before, after := paths[i], paths[..i], paths[i + 1..];
    HashedOnce(host, trees);
    FramesAround(host, disk, paths, i);
    FramesAround(host, edited, paths, i);
    FramesAgree(host, disk, edited, p, before);
    FramesAgree(host, disk, edited, p, after);
    var head := Header(build) + Frames(host, disk, before);
    var x, y, rest := Frame(host, disk, p), Frame(host, edited, p), Frames(host, disk, after);
    assert Header(build) + Frames(host, disk, paths) == head + x + rest;
    assert Header(build) + Frames(host, edited, paths) == head + y + rest;
    EditUnnoticedIff(OFFSET, head, x, y, rest);
    Hex16Injective(Fold(OFFSET, head + x + rest), Fold(OFFSET, head + y + rest));
  }

  lemma FramesAround(host: Host, disk: map<Path, Bytes>, paths: seq<Path>, i: nat)
    requires i < |paths|
    ensures Frames(host, disk, paths) ==
            Frames(host, disk, paths[..i]) + Frame(host, disk, paths[i]) + Frames(host, disk, paths[i + 1..])
  {
    assert paths == paths[..i] + ([paths[i]] + paths[i + 1..]);
    FramesAppend(host, disk, paths[..i], [paths[i]] + paths[i + 1..]);
    FramesAppend(host, disk, [paths[i]], paths[i + 1..]);
    FramesOne(host, disk, paths[i]);
  }

  /** Changing one byte of one hashed file always changes the build id. */
  lemma OneByteChangesId(host: Host, build: Build, disk: map<Path, Bytes>, trees: seq<Node>, p: Path, bytes: Bytes)
    requires |build.targets| == 4 && |trees| == |ROOTS| && forall t :: t in trees ==> Plain(t)
    requires p in HashedPaths(host, trees) && p in disk && DifferInOneByte(disk[p], bytes)
    ensures BuildIdOf(host, build, disk, trees) != BuildIdOf(host, build, disk[p := bytes], trees)
  {
    hide Fold, Header, Hex16, HashedPaths, Ascii;
    var paths := HashedPaths(host, trees);
    var i :| 0 <= i < |paths| && paths[i] == p;
    EditKeepsIdIff(host, build, disk, disk[p := bytes], trees, i);
    var s := StateBefore(host, build, disk, trees, i);
    var shown := host.display(p) + [0] + (Ascii("file") + [0]);
    FrameSplit(host, disk, p);
    FrameSplit(host, disk[p := bytes], p);
    EditUnnoticedIff(s, shown, disk[p], bytes, [0]);
    OneByteMoves(Fold(s, shown), disk[p], bytes);
  }

  lemma FrameSplit(host: Host, disk: map<Path, Bytes>, p: Path)
    requires p in disk
    ensures Frame(host, disk, p) == host.display(p) + [0] + (Ascii("file") + [0]) + disk[p] + [0]
  {
  }

  // ---------- what the stream tells apart ----------

  /** One path of the stream, with its contents if it can be read. */
  datatype Item = Item(path: Path, contents: Option<Bytes>)

  function ItemOf(disk: map<Path, Bytes>, p: Path): Item {
    Item(p, if p in disk then Some(disk[p]) else None)
  }

  function ItemsOf(disk: map<Path, Bytes>, paths: seq<Path>): seq<Item> {
    seq(|paths|, i requires 0 <= i < |paths| => ItemOf(disk, paths[i]))
  }

  function Tag(it: Item): Bytes {
    Ascii(if it.contents.Some? then "file" else "missing")
  }

  function Body(it: Item): Bytes {
    if it.contents.Some? then it.contents.value + [0] else []
  }

  function ItemFrames(host: Host, items: seq<Item>): Bytes {
    if items == [] then []
    else host.display(items[0].path) + [0] + (Tag(items[0]) + [0] + (Body(items[0]) + ItemFrames(host, items[1..])))
  }

  lemma FrameIsItem(host: Host, disk: map<Path, Bytes>, p: Path, rest: Bytes)
    ensures var it := ItemOf(disk, p);
            Frame(host, disk, p) + rest == host.display(p) + [0] + (Tag(it) + [0] + (Body(it) + rest))
  {
    hide Ascii;
  }

  lemma {:induction false} FramesAreItems(host: Host, disk: map<Path, Bytes>, paths: seq<Path>)
    ensures Frames(host, disk, paths) == ItemFrames(host, ItemsOf(disk, paths))
    decreases |paths|
  {
    if paths != [] {
      hide Ascii, Frame, Tag, Body;
      FramesAreItems(host, disk, paths[1..]);
      var items := ItemsOf(disk, paths);
      assert items[1..] == ItemsOf(disk, paths[1..]) && items[0] == ItemOf(disk, paths[0]);
      FrameIsItem(host, disk, paths[0], ItemFrames(host, items[1..]));
    }
  }

  function PathsOf(items: seq<Item>): set<Path> {
    set it | it in items :: it.path
  }

  /** The paths are all different, and none is in `avoid`. */
  ghost predicate Distinct(items: seq<Item>, avoid: set<Path>) {
    && (forall i :: 0 <= i < |items| ==> items[i].path !in avoid)
    && forall i, j :: 0 <= i < j < |items| ==> items[i].path != items[j].path
  }

  /** Any list of different paths is what some disk shows. */
  lemma ItemsComeFromDisk(items: seq<Item>) returns (disk: map<Path, Bytes>, paths: seq<Path>)
    requires Distinct(items, {})
    ensures NoDup(paths) && ItemsOf(disk, paths) == items
  {
    disk, paths := map[], [];
    for n := 0 to |items|
      invariant |paths| == n && forall i :: 0 <= i < n ==> paths[i] == items[i].path
      invariant forall p :: p in disk ==> p in paths
      invariant forall i :: 0 <= i < n ==> ItemOf(disk, paths[i]) == items[i]
    {
      var it := items[n];
      assert it.path !in paths;
      paths := paths + [it.path];
      if it.contents.Some? {
        disk := disk[it.path := it.contents.value];
      }
    }
  }

  ghost predicate DisplayInjective(host: Host) {
    forall p, q :: host.display(p) == host.display(q) ==> p == q
  }

  /** Every path is shown, by different texts without a zero byte. */
  ghost predicate ShownPlainly(host: Host) {
    DisplayInjective(host) && forall p :: 0 !in host.display(p)
  }

  lemma TagsPlain(it: Item, other: Item)
    ensures 0 !in Tag(it)
    ensures Tag(it) == Tag(other) ==> (it.contents.Some? <==> other.contents.Some?)
  {
    assert |Ascii("file")| != |Ascii("missing")|;
  }

  /** Two streams that are equal begin with one path and one tag. */
  lemma SameHead(host: Host, items: seq<Item>, other: seq<Item>)
    requires DisplayInjective(host) && items != [] && other != []
    requires 0 !in host.display(items[0].path) && 0 !in host.display(other[0].path)
    requires ItemFrames(host, items) == ItemFrames(host, other)
    ensures items[0].path == other[0].path && (items[0].contents.Some? <==> other[0].contents.Some?)
    ensures Body(items[0]) + ItemFrames(host, items[1..]) == Body(other[0]) + ItemFrames(host, other[1..])
  {
    hide Tag, Body;
    var a, b := items[0], other[0];
    TagsPlain(a, b);
    TagsPlain(b, a);
    var x, y := Body(a) + ItemFrames(host, items[1..]), Body(b) + ItemFrames(host, other[1..]);
    TerminatedPrefix(host.display(a.path), host.display(b.path), 0, Tag(a) + [0] + x, Tag(b) + [0] + y);
    TerminatedPrefix(Tag(a), Tag(b), 0, x, y);
  }

  lemma ItemFramesEnd(host: Host, items: seq<Item>)
    ensures items == [] <==> ItemFrames(host, items) == []
    ensures items != [] ==> ItemFrames(host, items)[|ItemFrames(host, items)| - 1] == 0
    decreases |items|
  {
    if items != [] {
      hide Ascii;
      ItemFramesEnd(host, items[1..]);
    }
  }

  /** The bytes read as items whose paths are new. */
  ghost predicate ReadsAsItems(host: Host, bytes: Bytes, avoid: set<Path>) {
    exists items :: items != [] && Distinct(items, avoid) && ItemFrames(host, items) == bytes
  }

  /** Contents can be cut at a zero byte: what follows it, with the closing zero and the rest of the stream,
      reads as items. */
  ghost predicate CutAt(host: Host, contents: Bytes, rest: Bytes, avoid: set<Path>, j: nat) {
    j < |contents| && contents[j] == 0 && ReadsAsItems(host, contents[j + 1..] + [0] + rest, avoid)
  }

  ghost predicate CutInItem(host: Host, items: seq<Item>, avoid: set<Path>, i: nat, j: nat)
    requires i < |items|
  {
    && items[i].contents.Some?
    && CutAt(host, items[i].contents.value, ItemFrames(host, items[i + 1..]), avoid + PathsOf(items[..i + 1]), j)
  }

  /** Some file of the list can be cut. */
  ghost predicate HasCut(host: Host, items: seq<Item>, avoid: set<Path>) {
    exists i: nat, j: nat :: i < |items| && CutInItem(host, items, avoid, i, j)
  }

  /** Some file is followed by another item. */
  predicate FileBeforeLast(items: seq<Item>) {
    exists i :: 0 <= i < |items| - 1 && items[i].contents.Some?
  }

  lemma DistinctTail(items: seq<Item>, avoid: set<Path>)
    requires items != [] && Distinct(items, avoid)
    ensures Distinct(items[1..], avoid + {items[0].path})
  {
  }

  lemma CutInTail(host: Host, items: seq<Item>, avoid: set<Path>)
    requires items != [] && HasCut(host, items[1..], avoid + {items[0].path})
    ensures HasCut(host, items, avoid)
  {
    hide CutAt, ItemFrames, PathsOf;
    var tail := items[1..];
    var i: nat, j: nat :| i < |tail| && CutInItem(host, tail, avoid + {items[0].path}, i, j);
    assert items[i + 2..] == tail[i + 1..];
    assert items[..i + 2] == [items[0]] + tail[..i + 1];
    PathsSplit(items[0], tail[..i + 1]);
    assert avoid + {items[0].path} + PathsOf(tail[..i + 1]) == avoid + PathsOf(items[..i + 2]);
    assert CutInItem(host, items, avoid, i + 1, j);
  }

  lemma PathsSplit(it: Item, items: seq<Item>)
    ensures PathsOf([it] + items) == {it.path} + PathsOf(items)
  {
    assert forall x :: x in [it] + items <==> x == it || x in items;
  }

  /** Two bodies in one stream, the first longer: the first can be cut where the second ends. */
  lemma LongerIsCut(host: Host, items: seq<Item>, other: seq<Item>, avoid: set<Path>)
    requires items != [] && other != [] && items[0].path == other[0].path
    requires items[0].contents.Some? && other[0].contents.Some?
    requires Body(items[0]) + ItemFrames(host, items[1..]) == Body(other[0]) + ItemFrames(host, other[1..])
    requires |other[0].contents.value| < |items[0].contents.value| && Distinct(other, avoid)
    ensures other[1..] != [] && HasCut(host, items, avoid)
  {
    hide ItemFrames;
    var c, d := items[0].contents.value, other[0].contents.value;
    var x, y := ItemFrames(host, items[1..]), ItemFrames(host, other[1..]);
    var j := |d|;
    assert (c + [0] + x)[j] == (d + [0] + y)[j];
    assert y == (d + [0] + y)[j + 1..] == (c + [0] + x)[j + 1..] == c[j + 1..] + [0] + x;
    ItemFramesEnd(host, other[1..]);
    DistinctTail(other, avoid);
    assert items[..1] == [items[0]] && PathsOf([items[0]]) == {items[0].path};
    assert CutAt(host, c, x, avoid + PathsOf(items[..1]), j);
    assert CutInItem(host, items, avoid, 0, j);
  }

  /** Two lists share a stream only through a cut: if a list is not the only reading of its stream, then it can
      be cut, or one of its files is followed by more and the other list can be cut. */
  lemma {:induction false} CollisionHasCut(host: Host, items: seq<Item>, other: seq<Item>, avoid: set<Path>)
    requires ShownPlainly(host) && Distinct(items, avoid) && Distinct(other, avoid)
    requires ItemFrames(host, items) == ItemFrames(host, other) && items != other
    ensures HasCut(host, items, avoid) || (FileBeforeLast(items) && HasCut(host, other, avoid))
    decreases |items|
  {
    hide ShownPlainly, ItemFrames, HasCut, Distinct;
    ItemFramesEnd(host, items);
    ItemFramesEnd(host, other);
    ShownWithoutZero(host, items[0].path);
    ShownWithoutZero(host, other[0].path);
    SameHead(host, items, other);
    if items[0] == other[0] {
      DistinctTail(items, avoid);
      DistinctTail(other, avoid);
      Cancel(Body(items[0]), ItemFrames(host, items[1..]), ItemFrames(host, other[1..]));
      assert items == [items[0]] + items[1..] && other == [other[0]] + other[1..];
      CollisionHasCut(host, items[1..], other[1..], avoid + {items[0].path});
      if HasCut(host, items[1..], avoid + {items[0].path}) {
        CutInTail(host, items, avoid);
      } else {
        CutInTail(host, other, avoid);
        var i :| 0 <= i < |items[1..]| - 1 && items[1..][i].contents.Some?;
        assert items[i + 1].contents.Some?;
      }
    } else {
      SameLengthSameBody(host, items, other);
      if |other[0].contents.value| < |items[0].contents.value| {
        LongerIsCut(host, items, other, avoid);
      } else {
        LongerIsCut(host, other, items, avoid);
        assert items[0].contents.Some?;
      }
    }
  }

  lemma ShownWithoutZero(host: Host, p: Path)
    requires ShownPlainly(host)
    ensures DisplayInjective(host) && 0 !in host.display(p)
  {
  }

  lemma SameLengthSameBody(host: Host, items: seq<Item>, other: seq<Item>)
    requires items != [] && other != [] && items[0].path == other[0].path && items[0] != other[0]
    requires items[0].contents.Some? <==> other[0].contents.Some?
    requires Body(items[0]) + ItemFrames(host, items[1..]) == Body(other[0]) + ItemFrames(host, other[1..])
    ensures items[0].contents.Some? && |items[0].contents.value| != |other[0].contents.value|
  {
    hide ItemFrames;
    var c, d := items[0].contents, other[0].contents;
    if c.Some? {
      var n := if |c.value| < |d.value| then |c.value| else |d.value|;
      assert c.value[..n] == (Body(items[0]) + ItemFrames(host, items[1..]))[..n];
      assert d.value[..n] == (Body(other[0]) + ItemFrames(host, other[1..]))[..n];
      assert c.value[..|c.value|] == c.value && d.value[..|d.value|] == d.value;
    }
  }

  // ---------- other readings ----------

  lemma {:induction false} ItemFramesAppend(host: Host, a: seq<Item>, b: seq<Item>)
    ensures ItemFrames(host, a + b) == ItemFrames(host, a) + ItemFrames(host, b)
    decreases |a|
  {
    if a == [] {
      assert a + b == b;
    } else {
      hide Tag, Body;
      assert (a + b)[1..] == a[1..] + b;
      ItemFramesAppend(host, a[1..], b);
    }
  }

  lemma FileFrame(host: Host, p: Path, c: Bytes, rest: seq<Item>)
    ensures ItemFrames(host, [Item(p, Some(c))] + rest) ==
            host.display(p) + [0] + (Ascii("file") + [0] + (c + [0] + ItemFrames(host, rest)))
  {
    assert ([Item(p, Some(c))] + rest)[1..] == rest;
  }

  /** A cut gives another reading, with shorter contents and more items. */
  lemma CutGivesReading(host: Host, items: seq<Item>, i: nat, j: nat) returns (other: seq<Item>)
    requires Distinct(items, {}) && i < |items| && CutInItem(host, items, {}, i, j)
    ensures Distinct(other, {}) && ItemFrames(host, other) == ItemFrames(host, items) && other != items
  {
    hide ItemFrames;
    var Item(p, contents) := items[i];
    var c, rest := contents.value, items[i + 1..];
    var more :| more != [] && Distinct(more, {} + PathsOf(items[..i + 1])) &&
                ItemFrames(host, more) == c[j + 1..] + [0] + ItemFrames(host, rest);
    var short := [Item(p, Some(c[..j]))] + more;
    other := items[..i] + short;
    assert items == items[..i] + ([items[i]] + rest);
    ItemFramesAppend(host, items[..i], short);
    ItemFramesAppend(host, items[..i], [items[i]] + rest);
    FileFrame(host, p, c[..j], more);
    FileFrame(host, p, c, rest);
    assert c[..j] + [0] + (c[j + 1..] + [0] + ItemFrames(host, rest)) == c + [0] + ItemFrames(host, rest);
    assert other[i].contents == Some(c[..j]) && |c[..j]| != |c|;
    CutKeepsDistinct(items, i, short);
  }

  lemma CutKeepsDistinct(items: seq<Item>, i: nat, short: seq<Item>)
    requires Distinct(items, {}) && i < |items| && short != [] && short[0].path == items[i].path
    requires Distinct(short[1..], {} + PathsOf(items[..i + 1]))
    ensures Distinct(items[..i] + short, {})
  {
    var all := items[..i] + short;
    forall a | 0 <= a <= i ensures items[a].path in PathsOf(items[..i + 1]) {
      assert items[a] in items[..i + 1];
    }
    forall a, b | 0 <= a < b < |all| ensures all[a].path != all[b].path {
      if b > i {
        assert all[b] == short[1..][b - i - 1];
        if a <= i {
          assert all[a].path == items[a].path;
        } else {
          assert all[a] == short[1..][a - i - 1];
        }
      }
    }
  }

  /** A file followed by more can take all of that into its contents. */
  lemma AbsorbGivesReading(host: Host, items: seq<Item>, i: nat) returns (other: seq<Item>)
    requires Distinct(items, {}) && i < |items| - 1 && items[i].contents.Some?
    ensures Distinct(other, {}) && ItemFrames(host, other) == ItemFrames(host, items) && other != items
  {
    hide ItemFrames;
    var Item(p, contents) := items[i];
    var c, rest := contents.value, items[i + 1..];
    var f := ItemFrames(host, rest);
    ItemFramesEnd(host, rest);
    var long := [Item(p, Some(c + [0] + f[..|f| - 1]))];
    other := items[..i] + long;
    assert items == items[..i] + ([items[i]] + rest);
    ItemFramesAppend(host, items[..i], long);
    ItemFramesAppend(host, items[..i], [items[i]] + rest);
    assert long + [] == long;
    FileFrame(host, p, c + [0] + f[..|f| - 1], []);
    FileFrame(host, p, c, rest);
    ItemFramesEnd(host, []);
    assert c + [0] + f[..|f| - 1] + [0] + [] == c + [0] + f;
    assert |other| < |items|;
  }

  /** Exactly when the stream determines the files: no file is followed by another item, and the contents of
      the last one cannot be cut, that is, no zero byte in them is followed by what, with the closing zero,
      reads as further items. */
  lemma OneReadingIff(host: Host, items: seq<Item>)
    requires ShownPlainly(host) && Distinct(items, {})
    ensures (forall other :: Distinct(other, {}) && ItemFrames(host, other) == ItemFrames(host, items) ==> other == items)
            <==> !FileBeforeLast(items) && !HasCut(host, items, {})
  {
    hide ItemFrames, Distinct, ShownPlainly, CutInItem;
    if HasCut(host, items, {}) {
      var i: nat, j: nat :| i < |items| && CutInItem(host, items, {}, i, j);
      var other := CutGivesReading(host, items, i, j);
    } else if FileBeforeLast(items) {
      var i :| 0 <= i < |items| - 1 && items[i].contents.Some?;
      var other := AbsorbGivesReading(host, items, i);
    } else {
      forall other | Distinct(other, {}) && ItemFrames(host, other) == ItemFrames(host, items) ensures other == items {
        if other != items {
          CollisionHasCut(host, items, other, {});
        }
      }
    }
  }

  ghost predicate ZeroFree(host: Host, items: seq<Item>) {
    forall it :: it in items ==> 0 !in host.display(it.path) && (it.contents.Some? ==> 0 !in it.contents.value)
  }

  lemma ZeroFreeHead(host: Host, items: seq<Item>, other: seq<Item>)
    requires DisplayInjective(host) && ZeroFree(host, items) && ZeroFree(host, other)
    requires items != [] && other != [] && ItemFrames(host, items) == ItemFrames(host, other)
    ensures items[0] == other[0] && ItemFrames(host, items[1..]) == ItemFrames(host, other[1..])
  {
    hide DisplayInjective, ItemFrames;
    assert items[0] in items && other[0] in other;
    SameHead(host, items, other);
    var x, y := ItemFrames(host, items[1..]), ItemFrames(host, other[1..]);
    if items[0].contents.Some? {
      TerminatedPrefix(items[0].contents.value, other[0].contents.value, 0, x, y);
    } else {
      assert Body(items[0]) + x == x && Body(other[0]) + y == y;
    }
  }

  lemma ZeroFreeTail(host: Host, items: seq<Item>)
    requires ZeroFree(host, items) && items != []
    ensures ZeroFree(host, items[1..]) && items == [items[0]] + items[1..]
  {
  }

  lemma {:induction false} ZeroFreeDecodes(host: Host, items: seq<Item>, other: seq<Item>)
    requires DisplayInjective(host) && ZeroFree(host, items) && ZeroFree(host, other)
    ensures ItemFrames(host, items) == ItemFrames(host, other) <==> items == other
    decreases |items|
  {
    hide *;
    ItemFramesEnd(host, items);
    ItemFramesEnd(host, other);
    if ItemFrames(host, items) == ItemFrames(host, other) && items != [] {
      ZeroFreeHead(host, items, other);
      ZeroFreeTail(host, items);
      ZeroFreeTail(host, other);
      ZeroFreeDecodes(host, items[1..], other[1..]);
    }
  }

  ghost predicate Framable(host: Host, disk: map<Path, Bytes>, paths: seq<Path>) {
    forall p :: p in paths ==> 0 !in host.display(p) && (p in disk ==> 0 !in disk[p])
  }

  /** While neither names nor contents hold a zero byte, the frames tell apart any two sets of files: they
      are one sequence of paths, missing and present alike, with one content each. */
  lemma FramesDecode(host: Host, disk: map<Path, Bytes>, other: map<Path, Bytes>, ps: seq<Path>, qs: seq<Path>)
    requires DisplayInjective(host) && Framable(host, disk, ps) && Framable(host, other, qs)
    requires Frames(host, disk, ps) == Frames(host, other, qs)
    ensures ps == qs
    ensures forall p :: p in ps ==> (p in disk <==> p in other) && (p in disk ==> disk[p] == other[p])
  {
    hide Frames, ItemFrames, DisplayInjective;
    var items, others := ItemsOf(disk, ps), ItemsOf(other, qs);
    FramesAreItems(host, disk, ps);
    FramesAreItems(host, other, qs);
    ZeroFreeDecodes(host, items, others);
    assert |ps| == |qs|;
    forall i | 0 <= i < |ps| ensures ItemOf(disk, ps[i]) == ItemOf(other, qs[i]) {
      assert items[i] == others[i];
    }
  }

  /** A single zero byte cannot be cut: nothing reads as an item after it. */
  lemma LoneZeroReadsOnce(host: Host, p: Path)
    requires ShownPlainly(host)
    ensures var items := [Item(p, Some([0]))];
            forall other :: Distinct(other, {}) && ItemFrames(host, other) == ItemFrames(host, items) ==> other == items
  {
    var items := [Item(p, Some([0]))];
    forall more: seq<Item> | more != [] ensures |ItemFrames(host, more)| > 1 {
    }
    forall i: nat, j: nat | i < |items| ensures !CutInItem(host, items, {}, i, j) {
    }
    OneReadingIff(host, items);
  }

  /** A zero byte in a file can imitate a frame: one file then hashes like two. */
  lemma ZeroByteImitatesFrame(host: Host, p: Path, q: Path, x: Bytes, y: Bytes)
    requires p != q
    ensures var one := map[p := x + [0] + (host.display(q) + [0] + (Ascii("file") + [0])) + y];
            var two := map[p := x, q := y];
            Frames(host, one, [p]) == Frames(host, two, [p, q])
  {
    var one := map[p := x + [0] + (host.display(q) + [0] + (Ascii("file") + [0])) + y];
    var two := map[p := x, q := y];
    FramesOne(host, one, p);
    FramesOne(host, two, p);
    FramesOne(host, two, q);
    assert [p, q] == [p] + [q];
    FramesAppend(host, two, [p], [q]);
  }
}
