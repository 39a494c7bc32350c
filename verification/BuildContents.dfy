/** What the build-id stream determines when the list of hashed paths is known, as it is when only the contents
    of files have changed. */
module BuildContents {
  import opened BuildId
  import opened Sequences
  import opened Wrappers

  function FileHead(host: Host, p: Path): Bytes {
    host.display(p) + [0] + (Ascii("file") + [0])
  }

  function MissingFrame(host: Host, p: Path): Bytes {
    host.display(p) + [0] + (Ascii("missing") + [0])
  }

  /** The bytes can be read as frames of just these paths. */
  predicate Reads(host: Host, paths: seq<Path>, bytes: Bytes)
    decreases |paths|, 0
  {
    if paths == [] then bytes == []
    else
      var missing, head := MissingFrame(host, paths[0]), FileHead(host, paths[0]);
      || (missing <= bytes && Reads(host, paths[1..], bytes[|missing|..]))
      || (head <= bytes && exists j :: |head| <= j < |bytes| && ClosesAt(host, paths[1..], bytes, j))
  }

  /** The zero byte at `j` can close a file: the rest reads as frames of the remaining paths. */
  predicate ClosesAt(host: Host, paths: seq<Path>, bytes: Bytes, j: nat)
    requires j < |bytes|
    decreases |paths|, 1
  {
    bytes[j] == 0 && Reads(host, paths, bytes[j + 1..])
  }

  /** The stream from the contents of the path `i` on. */
  function StreamFrom(host: Host, disk: map<Path, Bytes>, paths: seq<Path>, i: nat): Bytes
    requires i < |paths| && paths[i] in disk
  {
    disk[paths[i]] + [0] + Frames(host, disk, paths[i + 1..])
  }

  /** A file of the list can also be closed by another zero byte than its own. */
  predicate ClosesElsewhere(host: Host, disk: map<Path, Bytes>, paths: seq<Path>, i: nat)
    requires i < |paths|
  {
    paths[i] in disk && ClosesBeside(host, paths[i + 1..], StreamFrom(host, disk, paths, i), |disk[paths[i]]|)
  }

  predicate ClosesBeside(host: Host, paths: seq<Path>, bytes: Bytes, own: nat) {
    exists j :: 0 <= j < |bytes| && j != own && ClosesAt(host, paths, bytes, j)
  }

  ghost predicate SameOn(disk: map<Path, Bytes>, other: map<Path, Bytes>, paths: seq<Path>) {
    forall p :: p in paths ==> (p in disk <==> p in other) && (p in disk ==> disk[p] == other[p])
  }

  lemma FrameIs(host: Host, disk: map<Path, Bytes>, p: Path)
    ensures Frame(host, disk, p) == if p in disk then FileHead(host, p) + disk[p] + [0] else MissingFrame(host, p)
  {
  }

  lemma {:induction false} FramesRead(host: Host, disk: map<Path, Bytes>, paths: seq<Path>)
    ensures Reads(host, paths, Frames(host, disk, paths))
    decreases |paths|
  {
    if paths != [] {
      var p, rest := paths[0], Frames(host, disk, paths[1..]);
      var bytes := Frames(host, disk, paths);
      FramesRead(host, disk, paths[1..]);
      FrameIs(host, disk, p);
      hide Frame, FileHead, MissingFrame;
      if p in disk {
        var head := FileHead(host, p);
        var j := |head| + |disk[p]|;
        assert bytes == head + disk[p] + [0] + rest;
        assert bytes[..|head|] == head && bytes[j] == 0 && bytes[j + 1..] == rest;
        assert ClosesAt(host, paths[1..], bytes, j);
      } else {
        var missing := MissingFrame(host, p);
        assert bytes[..|missing|] == missing && bytes[|missing|..] == rest;
      }
    }
  }

  lemma NoDupTail(paths: seq<Path>)
    requires NoDup(paths) && paths != []
    ensures NoDup(paths[1..]) && paths[0] !in paths[1..]
    ensures forall p :: p in paths[1..] ==> p in paths
  {
  }

  lemma WithoutFile(host: Host, inner: map<Path, Bytes>, paths: seq<Path>) returns (disk: map<Path, Bytes>)
    requires paths != [] && paths[0] !in paths[1..]
    ensures Frames(host, disk, paths) == MissingFrame(host, paths[0]) + Frames(host, inner, paths[1..])
    ensures AgreeOff(inner, disk, paths[0])
  {
    disk := inner - {paths[0]};
    FramesAgree(host, inner, disk, paths[0], paths[1..]);
    FrameIs(host, disk, paths[0]);
  }

  lemma WithFile(host: Host, inner: map<Path, Bytes>, paths: seq<Path>, contents: Bytes)
    returns (disk: map<Path, Bytes>)
    requires paths != [] && paths[0] !in paths[1..]
    ensures Frames(host, disk, paths) == FileHead(host, paths[0]) + contents + [0] + Frames(host, inner, paths[1..])
    ensures AgreeOff(inner, disk, paths[0])
  {
    disk := inner[paths[0] := contents];
    FramesAgree(host, inner, disk, paths[0], paths[1..]);
    FrameIs(host, disk, paths[0]);
  }

  /** Bytes that read as frames begin with one, and how much of them it is. */
  lemma FirstFrame(host: Host, paths: seq<Path>, bytes: Bytes) returns (contents: Option<Bytes>, rest: Bytes)
    requires paths != [] && Reads(host, paths, bytes)
    ensures Reads(host, paths[1..], rest)
    ensures bytes == (match contents
                      case Some(c) => FileHead(host, paths[0]) + c + [0]
                      case None => MissingFrame(host, paths[0])) + rest
  {
    hide FileHead, MissingFrame;
    var missing, head := MissingFrame(host, paths[0]), FileHead(host, paths[0]);
    if missing <= bytes && Reads(host, paths[1..], bytes[|missing|..]) {
      contents, rest := None, bytes[|missing|..];
    } else {
      var j :| |head| <= j < |bytes| && ClosesAt(host, paths[1..], bytes, j);
      contents, rest := Some(bytes[|head|..j]), bytes[j + 1..];
    }
  }

  ghost predicate SameOff(disk: map<Path, Bytes>, other: map<Path, Bytes>, paths: seq<Path>) {
    forall p :: p !in paths ==> (p in disk <==> p in other) && (p in disk ==> disk[p] == other[p])
  }

  lemma SameOffMore(base: map<Path, Bytes>, inner: map<Path, Bytes>, disk: map<Path, Bytes>, paths: seq<Path>)
    requires paths != [] && SameOff(base, inner, paths[1..]) && AgreeOff(inner, disk, paths[0])
    ensures SameOff(base, disk, paths)
  {
    assert forall p :: p in paths[1..] ==> p in paths;
  }

  /** Whatever reads as frames of different paths is what some disk shows. */
  lemma {:induction false} ReadsGivesDisk(host: Host, paths: seq<Path>, bytes: Bytes, base: map<Path, Bytes>)
    returns (disk: map<Path, Bytes>)
    requires NoDup(paths) && Reads(host, paths, bytes)
    ensures Frames(host, disk, paths) == bytes && SameOff(base, disk, paths)
    decreases |paths|
  {
    if paths == [] {
      disk := base;
    } else {
      hide FileHead, MissingFrame, Frame, Frames, NoDup, Reads, SameOff, AgreeOff;
      NoDupTail(paths);
      var contents, rest := FirstFrame(host, paths, bytes);
      var inner := ReadsGivesDisk(host, paths[1..], rest, base);
      if contents.Some? {
        disk := WithFile(host, inner, paths, contents.value);
      } else {
        disk := WithoutFile(host, inner, paths);
      }
      SameOffMore(base, inner, disk, paths);
    }
  }

  lemma TagShows(host: Host, disk: map<Path, Bytes>, p: Path, x: Bytes)
    ensures |host.display(p)| + 1 < |Frame(host, disk, p) + x|
    ensures (Frame(host, disk, p) + x)[|host.display(p)| + 1] == if p in disk then 'f' as int else 'm' as int
  {
    assert Ascii("file")[0] == 'f' as int && Ascii("missing")[0] == 'm' as int;
  }

  /** Of one path, equal streams have the same presence, and the contents are followed by the same. */
  lemma SameStart(host: Host, disk: map<Path, Bytes>, other: map<Path, Bytes>, p: Path, x: Bytes, y: Bytes)
    requires Frame(host, disk, p) + x == Frame(host, other, p) + y
    ensures p in disk <==> p in other
    ensures if p in disk then disk[p] + [0] + x == other[p] + [0] + y else x == y
  {
    TagShows(host, disk, p, x);
    TagShows(host, other, p, y);
    FrameIs(host, disk, p);
    FrameIs(host, other, p);
    hide Frame, FileHead, MissingFrame, Ascii;
    if p in disk {
      var head := FileHead(host, p);
      assert head + disk[p] + [0] + x == head + (disk[p] + [0] + x);
      assert head + other[p] + [0] + y == head + (other[p] + [0] + y);
      Cancel(head, disk[p] + [0] + x, other[p] + [0] + y);
    } else {
      Cancel(MissingFrame(host, p), x, y);
    }
  }

  /** If two disks show one stream and differ, some file of either can be closed elsewhere. */
  lemma {:induction false} DifferentCloses(host: Host, disk: map<Path, Bytes>, other: map<Path, Bytes>, paths: seq<Path>)
    returns (i: nat)
    requires Frames(host, disk, paths) == Frames(host, other, paths) && !SameOn(disk, other, paths)
    ensures i < |paths| && ClosesElsewhere(host, disk, paths, i)
    decreases |paths|
  {
    hide Frame;
    var p, more := paths[0], paths[1..];
    var x, y := Frames(host, disk, more), Frames(host, other, more);
    SameStart(host, disk, other, p, x, y);
    if p in disk && |disk[p]| != |other[p]| {
      i := 0;
      var j := |other[p]|;
      assert StreamFrom(host, disk, paths, 0) == other[p] + [0] + y;
      assert (other[p] + [0] + y)[j + 1..] == y;
      FramesRead(host, other, more);
      assert ClosesAt(host, more, StreamFrom(host, disk, paths, 0), j);
    } else {
      if p in disk {
        SameLengthSame(disk[p], other[p], x, y);
      }
      assert x == y && !SameOn(disk, other, more);
      i := DifferentCloses(host, disk, other, more);
      assert paths[i + 1] == more[i] && paths[i + 2..] == more[i + 1..];
      i := i + 1;
    }
  }

  lemma SameLengthSame(c: Bytes, d: Bytes, x: Bytes, y: Bytes)
    requires |c| == |d| && c + [0] + x == d + [0] + y
    ensures c == d && x == y
  {
    assert c == (c + [0] + x)[..|c|] && d == (d + [0] + y)[..|d|];
    assert x == (c + [0] + x)[|c| + 1..] && y == (d + [0] + y)[|d| + 1..];
  }

  /** A file that can be closed elsewhere gives another disk with the same stream. */
  lemma ClosingElsewhereCollides(host: Host, disk: map<Path, Bytes>, paths: seq<Path>, i: nat)
    returns (other: map<Path, Bytes>)
    requires NoDup(paths) && i < |paths| && ClosesElsewhere(host, disk, paths, i)
    ensures Frames(host, other, paths) == Frames(host, disk, paths) && !SameOn(disk, other, paths)
  {
    hide *;
    var stream, j := OtherClose(host, disk, paths, i);
    var p, before, after := paths[i], paths[..i], paths[i + 1..];
    NoDupParts(paths, i);
    var inner := ReadsGivesDisk(host, after, stream[j + 1..], disk);
    other := inner[p := stream[..j]];
    CloseAt(host, disk, inner, other, before, p, after, stream, j);
    assert paths == before + ([p] + after);
    OtherLength(disk, other, paths, i);
  }

  lemma OtherClose(host: Host, disk: map<Path, Bytes>, paths: seq<Path>, i: nat) returns (stream: Bytes, j: nat)
    requires i < |paths| && ClosesElsewhere(host, disk, paths, i)
    ensures paths[i] in disk && stream == disk[paths[i]] + [0] + Frames(host, disk, paths[i + 1..])
    ensures j < |stream| && j != |disk[paths[i]]| && stream[j] == 0 && Reads(host, paths[i + 1..], stream[j + 1..])
  {
    hide Frames, Reads;
    stream := StreamFrom(host, disk, paths, i);
    j :| 0 <= j < |stream| && j != |disk[paths[i]]| && ClosesAt(host, paths[i + 1..], stream, j);
  }

  lemma OtherLength(disk: map<Path, Bytes>, other: map<Path, Bytes>, paths: seq<Path>, i: nat)
    requires i < |paths| && paths[i] in disk && paths[i] in other && |disk[paths[i]]| != |other[paths[i]]|
    ensures !SameOn(disk, other, paths)
  {
    assert paths[i] in paths;
  }

  lemma NoDupParts(paths: seq<Path>, i: nat)
    requires NoDup(paths) && i < |paths|
    ensures NoDup(paths[i + 1..]) && paths[i] !in paths[i + 1..]
    ensures NoDup(paths[..i] + ([paths[i]] + paths[i + 1..]))
  {
    assert paths == paths[..i] + ([paths[i]] + paths[i + 1..]);
  }

  /** The rest of the stream, shown by `inner`, after a file that ends at `j`. */
  lemma CloseAt(host: Host, disk: map<Path, Bytes>, inner: map<Path, Bytes>, other: map<Path, Bytes>,
                before: seq<Path>, p: Path, after: seq<Path>, stream: Bytes, j: nat)
    requires p in disk && stream == disk[p] + [0] + Frames(host, disk, after) && j < |stream| && stream[j] == 0
    requires NoDup(before + ([p] + after)) && p !in after
    requires Frames(host, inner, after) == stream[j + 1..] && SameOff(disk, inner, after)
    requires other == inner[p := stream[..j]]
    ensures Frames(host, other, before + ([p] + after)) == Frames(host, disk, before + ([p] + after))
  {
    hide Frame, Frames, FileHead, NoDup;
    OneFileApart(disk, inner, other, p, after, stream[..j]);
    FramesAgree(host, inner, other, p, after);
    AgreeBefore(host, disk, other, before, p, after);
    hide SameOff, AgreeOff;
    FrameThen(host, disk, p, after);
    FrameThen(host, other, p, after);
    FramesAppend(host, disk, before, [p] + after);
    FramesAppend(host, other, before, [p] + after);
    assert stream == stream[..j] + [0] + stream[j + 1..];
  }

  lemma OneFileApart(disk: map<Path, Bytes>, inner: map<Path, Bytes>, other: map<Path, Bytes>, p: Path,
                     after: seq<Path>, contents: Bytes)
    requires SameOff(disk, inner, after) && other == inner[p := contents]
    ensures AgreeOff(inner, other, p)
    ensures forall q :: q != p && q !in after ==> (q in disk <==> q in other) && (q in disk ==> disk[q] == other[q])
  {
  }

  lemma FrameThen(host: Host, disk: map<Path, Bytes>, p: Path, after: seq<Path>)
    requires p in disk
    ensures Frames(host, disk, [p] + after) == FileHead(host, p) + (disk[p] + [0] + Frames(host, disk, after))
  {
    FrameIs(host, disk, p);
    hide Frame, FileHead;
    assert ([p] + after)[1..] == after;
  }

  lemma {:induction false} AgreeBefore(host: Host, disk: map<Path, Bytes>, other: map<Path, Bytes>,
                                       before: seq<Path>, p: Path, after: seq<Path>)
    requires NoDup(before + ([p] + after))
    requires forall q :: q != p && q !in after ==> (q in disk <==> q in other) && (q in disk ==> disk[q] == other[q])
    ensures Frames(host, disk, before) == Frames(host, other, before)
    decreases |before|
  {
    if before != [] {
      var all := before + ([p] + after);
      var q := before[0];
      assert all[0] == q && all[|before|] == p;
      assert forall k :: 0 <= k < |after| ==> all[|before| + 1 + k] == after[k];
      assert all[1..] == before[1..] + ([p] + after);
      AgreeBefore(host, disk, other, before[1..], p, after);
    }
  }

  /** For a fixed list of paths, the stream determines what is missing and all contents exactly when no file of
      the list can be closed by another zero byte than its own. */
  lemma ContentsDeterminedIff(host: Host, disk: map<Path, Bytes>, paths: seq<Path>)
    requires NoDup(paths)
    ensures (forall other :: Frames(host, other, paths) == Frames(host, disk, paths) ==> SameOn(disk, other, paths))
            <==> forall i :: 0 <= i < |paths| ==> !ClosesElsewhere(host, disk, paths, i)
  {
    hide Frames, SameOn, ClosesElsewhere;
    if i :| 0 <= i < |paths| && ClosesElsewhere(host, disk, paths, i) {
      var other := ClosingElsewhereCollides(host, disk, paths, i);
    } else {
      forall other | Frames(host, other, paths) == Frames(host, disk, paths) ensures SameOn(disk, other, paths) {
        if !SameOn(disk, other, paths) {
          var i := DifferentCloses(host, disk, other, paths);
        }
      }
    }
  }

  /** The last file of a list, and so a file alone, is determined whatever it holds. */
  lemma LastIsDetermined(host: Host, disk: map<Path, Bytes>, paths: seq<Path>)
    requires paths != []
    ensures !ClosesElsewhere(host, disk, paths, |paths| - 1)
  {
    var last := |paths| - 1;
    var none := paths[last + 1..];
    assert none == [];
    if paths[last] in disk {
      var stream := StreamFrom(host, disk, paths, last);
      assert Frames(host, disk, none) == [];
      assert |stream| == |disk[paths[last]]| + 1;
      forall j | 0 <= j < |stream| && j != |disk[paths[last]]| ensures !ClosesAt(host, none, stream, j) {
        assert |stream[j + 1..]| > 0;
      }
    }
  }

  /** Two files, two ways to share out the same bytes among them: the frame of the second is in the contents of
      the first, or follows it. */
  lemma ContentsCanMove(host: Host, p: Path, q: Path, x: Bytes, y: Bytes, z: Bytes)
    requires p != q
    ensures var one := map[p := x + [0] + FileHead(host, q) + y, q := z];
            var two := map[p := x, q := y + [0] + FileHead(host, q) + z];
            Frames(host, one, [p, q]) == Frames(host, two, [p, q]) && one[p] != two[p]
  {
    var one := map[p := x + [0] + FileHead(host, q) + y, q := z];
    var two := map[p := x, q := y + [0] + FileHead(host, q) + z];
    TwoFrames(host, one, p, q);
    TwoFrames(host, two, p, q);
    hide FileHead, Frames;
    var h := FileHead(host, q);
    assert one[p] + [0] + (h + (one[q] + [0])) == two[p] + [0] + (h + (two[q] + [0]));
    assert |one[p]| > |two[p]|;
  }

  lemma TwoFrames(host: Host, disk: map<Path, Bytes>, p: Path, q: Path)
    requires p in disk && q in disk
    ensures Frames(host, disk, [p, q]) ==
            FileHead(host, p) + (disk[p] + [0] + (FileHead(host, q) + (disk[q] + [0])))
  {
    FrameThen(host, disk, p, [q]);
    FrameThen(host, disk, q, []);
    assert Frames(host, disk, []) == [];
    hide FileHead, Frames;
    assert [p] + [q] == [p, q] && [q] + [] == [q] && disk[q] + [0] + [] == disk[q] + [0];
  }
}
