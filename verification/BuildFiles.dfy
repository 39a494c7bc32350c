/** What enters the build id, said of the directory trees, the target and the hash themselves. */
module BuildFiles {
  import opened BuildId
  import opened Sequences
  import opened Wrappers

  // ---------- which files are hashed ----------

  /** Following the names from a node ends at a file. */
  predicate FileAt(node: Node, names: Path)
    decreases |names|
  {
    if names == [] then node.File?
    else node.Dir? && exists i :: 0 <= i < |node.entries| && EntryLeads(node.entries[i], names)
  }

  predicate EntryLeads(e: Entry, names: Path)
    requires names != []
    decreases |names|, 0
  {
    e.name == names[0] && FileAt(e.node, names[1..])
  }

  lemma {:induction false} FilesExact(path: Path, node: Node, p: Path)
    ensures p in Files(path, node) <==> path <= p && FileAt(node, p[|path|..])
    decreases node, 0
  {
    match node
    case Unreadable =>
    case File =>
      assert p == path <==> path <= p && p[|path|..] == [];
    case Dir(entries) =>
      FilesInExact(path, entries, p);
      if path <= p && |p| == |path| {
        assert p[|path|..] == [] && !FileAt(node, []);
      }
  }

  lemma {:induction false} FilesInExact(path: Path, entries: seq<Entry>, p: Path)
    ensures p in FilesIn(path, entries) <==>
            path < p && exists i :: 0 <= i < |entries| && EntryLeads(entries[i], p[|path|..])
    decreases entries, 0
  {
    if entries != [] {
      var e, rest := entries[0], entries[1..];
      FilesExact(path + [e.name], e.node, p);
      FilesInExact(path, rest, p);
      if path < p {
        var names := p[|path|..];
        assert path + [e.name] <= p <==> e.name == names[0];
        assert p[|path| + 1..] == names[1..];
        if i :| 0 <= i < |rest| && EntryLeads(rest[i], names) {
          assert EntryLeads(entries[i + 1], names);
        }
        if i :| 0 <= i < |entries| && EntryLeads(entries[i], names) {
          assert i > 0 ==> EntryLeads(rest[i - 1], names);
        }
      }
    }
  }

  /** The walk appends exactly the files that names lead to. */
  lemma CollectedExact(path: Path, node: Node, names: Path)
    ensures path + names in Files(path, node) <==> FileAt(node, names)
  {
    FilesExact(path, node, path + names);
    assert (path + names)[|path|..] == names;
  }

  lemma {:induction false} TreePathsExact(host: Host, trees: seq<Node>, n: nat, p: Path)
    requires |trees| == |ROOTS| && n <= |ROOTS|
    ensures p in TreePaths(host, trees, n) <==>
            exists k :: 0 <= k < n && ROOTS[k] <= p && FileAt(trees[k], p[|ROOTS[k]|..])
    decreases n
  {
    hide Sort, Files, FileAt;
    if n > 0 {
      TreePathsExact(host, trees, n - 1, p);
      var files := Files(ROOTS[n - 1], trees[n - 1]);
      FilesExact(ROOTS[n - 1], trees[n - 1], p);
      assert p in Sort(host.le, files) <==> p in multiset(Sort(host.le, files));
      assert p in files <==> p in multiset(files);
    }
  }

  /** Hashed are the listed files and exactly the files found below the listed directories. */
  lemma HashedExact(host: Host, trees: seq<Node>, p: Path)
    requires |trees| == |ROOTS|
    ensures p in HashedPaths(host, trees) <==>
            p in SINGLE_FILES || exists k :: 0 <= k < |ROOTS| && ROOTS[k] <= p && FileAt(trees[k], p[|ROOTS[k]|..])
  {
    TreePathsExact(host, trees, |ROOTS|, p);
  }

  /** Changing one byte of any file found below a listed directory changes the id. */
  lemma SourceByteChangesId(host: Host, build: Build, disk: map<Path, Bytes>, trees: seq<Node>, k: nat, names: Path,
                            bytes: Bytes)
    requires |build.targets| == 4 && |trees| == |ROOTS| && forall t :: t in trees ==> Plain(t)
    requires k < |ROOTS| && FileAt(trees[k], names)
    requires ROOTS[k] + names in disk && DifferInOneByte(disk[ROOTS[k] + names], bytes)
    ensures BuildIdOf(host, build, disk, trees) != BuildIdOf(host, build, disk[ROOTS[k] + names := bytes], trees)
  {
    hide FileAt, DifferInOneByte, BuildIdOf, Plain;
    var p := ROOTS[k] + names;
    assert ROOTS[k] <= p && p[|ROOTS[k]|..] == names;
    HashedExact(host, trees, p);
    OneByteChangesId(host, build, disk, trees, p, bytes);
  }

  // ---------- the header ----------

  ghost predicate PlainBuild(build: Build) {
    0 !in build.version && |build.targets| == 4 && forall t :: t in build.targets ==> 0 !in t
  }

  /** The lines of the targets from `n` on. */
  function LinesFrom(targets: seq<Bytes>, n: nat): Bytes
    requires |targets| == 4 && n <= 4
    decreases 4 - n
  {
    if n == 4 then [] else Ascii(TARGET_KEYS[n]) + [0] + (targets[n] + [0] + LinesFrom(targets, n + 1))
  }

  lemma {:induction false} LinesSplit(targets: seq<Bytes>, n: nat)
    requires |targets| == 4 && n <= 4
    ensures TargetLines(targets, 4) == TargetLines(targets, n) + LinesFrom(targets, n)
    decreases 4 - n
  {
    hide Ascii;
    var before := TargetLines(targets, n);
    if n == 4 {
      assert LinesFrom(targets, 4) == [];
      assert before + [] == before;
    } else {
      LinesSplit(targets, n + 1);
      var key, line, rest := Ascii(TARGET_KEYS[n]) + [0], targets[n] + [0], LinesFrom(targets, n + 1);
      assert TargetLines(targets, n + 1) == before + key + line;
      assert LinesFrom(targets, n) == key + (line + rest);
      Regroup(before, key, line, rest);
    }
  }

  lemma Regroup(a: Bytes, b: Bytes, c: Bytes, d: Bytes)
    ensures a + b + c + d == a + (b + (c + d))
  {
  }

  /** After the same key, two lines with a text each and what follows them. */
  lemma LineDecodes(key: Bytes, u: Bytes, v: Bytes, x: Bytes, y: Bytes, a: Bytes, b: Bytes)
    requires 0 !in u && 0 !in v && key + (u + [0] + x) + a == key + (v + [0] + y) + b
    ensures u == v && x + a == y + b
  {
    assert key + (u + [0] + x) + a == key + (u + [0] + (x + a));
    assert key + (v + [0] + y) + b == key + (v + [0] + (y + b));
    Cancel(key, u + [0] + (x + a), v + [0] + (y + b));
    TerminatedPrefix(u, v, 0, x + a, y + b);
  }

  lemma {:induction false} LinesDecode(s: seq<Bytes>, t: seq<Bytes>, n: nat, a: Bytes, b: Bytes)
    requires |s| == |t| == 4 && n <= 4 && (forall x :: x in s ==> 0 !in x) && (forall x :: x in t ==> 0 !in x)
    requires LinesFrom(s, n) + a == LinesFrom(t, n) + b
    ensures a == b && forall i :: n <= i < 4 ==> s[i] == t[i]
    decreases 4 - n
  {
    if n < 4 {
      var key := Ascii(TARGET_KEYS[n]) + [0];
      var x, y := LinesFrom(s, n + 1), LinesFrom(t, n + 1);
      assert LinesFrom(s, n) == key + (s[n] + [0] + x) && LinesFrom(t, n) == key + (t[n] + [0] + y);
      hide LinesFrom, Ascii;
      assert s[n] in s && t[n] in t;
      LineDecodes(key, s[n], t[n], x, y, a, b);
      LinesDecode(s, t, n + 1, a, b);
    } else {
      assert [] + a == a && [] + b == b;
    }
  }

  lemma HeaderIs(build: Build)
    requires |build.targets| == 4
    ensures Header(build) == Ascii(CACHE_ABI_VERSION) + [0] + (build.version + [0] + LinesFrom(build.targets, 0))
  {
    LinesSplit(build.targets, 0);
    assert TargetLines(build.targets, 0) + LinesFrom(build.targets, 0) == LinesFrom(build.targets, 0);
    hide Ascii, LinesFrom, TargetLines;
  }

  /** The start of the stream determines the version and all target values, which no build could set to a text
      with a zero byte, and what follows it. */
  lemma HeaderDecodes(x: Build, y: Build, a: Bytes, b: Bytes)
    requires PlainBuild(x) && PlainBuild(y) && Header(x) + a == Header(y) + b
    ensures x == y && a == b
  {
    hide Ascii, LinesFrom, Header;
    HeaderIs(x);
    HeaderIs(y);
    var s, t := LinesFrom(x.targets, 0), LinesFrom(y.targets, 0);
    LineDecodes(Ascii(CACHE_ABI_VERSION) + [0], x.version, y.version, s, t, a, b);
    LinesDecode(x.targets, y.targets, 0, a, b);
  }

  // ---------- the digits ----------

  function DigitValue(c: char): nat {
    if '0' <= c <= '9' then c as nat - '0' as nat else if 'a' <= c <= 'f' then c as nat - 'a' as nat + 10 else 0
  }

  /** The number that a text of hexadecimal digits stands for. */
  function HexValue(s: string): nat {
    if s == "" then 0 else 16 * HexValue(s[..|s| - 1]) + DigitValue(s[|s| - 1])
  }

  lemma DigitOf(d: nat)
    requires d < 16
    ensures DigitValue(HEX[d]) == d
  {
  }

  lemma {:induction false} DigitsReadBack(x: nat, n: nat)
    requires x < Power16(n)
    ensures HexValue(Digits(x, n)) == x
    decreases n
  {
    if n > 0 {
      DigitsReadBack(x / 16, n - 1);
      DigitOf(x % 16);
      var s := Digits(x, n);
      assert s[..n - 1] == Digits(x / 16, n - 1) && s[n - 1] == HEX[x % 16];
    }
  }

  /** The id is 16 hexadecimal digits that stand for the hash. */
  lemma Hex16ReadsBack(x: Word)
    ensures |Hex16(x)| == 16 && HexValue(Hex16(x)) == x
  {
    assert Power16(16) == WORD by {
      assert Power16(4) == 0x10000;
      assert Power16(8) == 0x1_0000_0000;
      assert Power16(12) == 0x1_0000_0000_0000;
    }
    DigitsReadBack(x, 16);
  }

  // ---------- the hash ----------

  /** The binary digit with weight 2 to the power of `i`. */
  function Bit(x: nat, i: nat): nat {
    if i == 0 then x % 2 else Bit(x / 2, i - 1)
  }

  lemma LastDigit(x: nat, y: nat)
    ensures (x + y) % 2 == if x % 2 == y % 2 then 0 else 1
  {
  }

  lemma XorSplits(x: nat, y: nat, bits: nat)
    requires bits > 0
    ensures Xor(x, y, bits) / 2 == Xor(x / 2, y / 2, bits - 1)
    ensures Xor(x, y, bits) % 2 == if x % 2 == y % 2 then 0 else 1
  {
    LastDigit(x, y);
    var r, d := Xor(x / 2, y / 2, bits - 1), (x + y) % 2;
    assert Xor(x, y, bits) == 2 * r + d;
  }

  /** Each binary digit of the exclusive-or is 1 exactly when the two digits differ. */
  lemma {:induction false} XorDigit(x: nat, y: nat, bits: nat, i: nat)
    requires i < bits
    ensures Bit(Xor(x, y, bits), i) == if Bit(x, i) == Bit(y, i) then 0 else 1
    decreases bits
  {
    hide Xor;
    XorSplits(x, y, bits);
    if i > 0 {
      XorDigit(x / 2, y / 2, bits - 1, i - 1);
    }
  }

  lemma ExclusiveOr()
    ensures Xor(0x25, 97, 8) == 0x44
  {
    assert Xor(0, 1, 2) == 1;
    assert Xor(2, 6, 4) == 4;
    assert Xor(9, 24, 6) == 17;
  }

  lemma Times()
    ensures 0xcbf29ce484222344 * PRIME == 0xcbf29ce5de * WORD + 0xaf63dc4c8601ec8c
    ensures 0xcbf29ce484222344 * PRIME % WORD == 0xaf63dc4c8601ec8c
  {
  }

  /** The published value of 64-bit FNV-1a for the text "a". */
  lemma KnownHash()
    ensures Fold(OFFSET, [97]) == 0xaf63dc4c8601ec8c
  {
    ExclusiveOr();
    hide Xor;
    assert XorLow(OFFSET, 97) == 0xcbf29ce484222344;
    hide XorLow;
    Times();
    FoldOne(OFFSET, 97);
  }
}
