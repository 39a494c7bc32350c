/** What one line of a build file says, as laws over arbitrary texts. */
module HxmlLines {
  import opened HxmlArgs
  import opened Wrappers

  predicate Blank(s: string) {
    forall i :: 0 <= i < |s| ==> IsSpace(s[i])
  }

  predicate Solid(s: string) {
    forall i :: 0 <= i < |s| ==> !IsSpace(s[i])
  }

  /** A text without outer white space. */
  predicate Trimmed(s: string) {
    s != "" ==> !IsSpace(s[0]) && !IsSpace(s[|s| - 1])
  }

  // ---------- trimming ----------

  lemma {:induction false} TrimStartDrops(l: string, s: string)
    requires Blank(l) && (s != "" ==> !IsSpace(s[0]))
    ensures TrimStart(l + s) == s
    decreases |l|
  {
    if l == "" {
      assert l + s == s;
    } else {
      assert (l + s)[1..] == l[1..] + s;
      TrimStartDrops(l[1..], s);
    }
  }

  lemma {:induction false} TrimEndDrops(s: string, r: string)
    requires Blank(r) && (s != "" ==> !IsSpace(s[|s| - 1]))
    ensures TrimEnd(s + r) == s
    decreases |r|
  {
    if r == "" {
      assert s + r == s;
    } else {
      var n := |r| - 1;
      assert (s + r)[..|s| + n] == s + r[..n] && (s + r)[|s| + n] == r[n];
      TrimEndDrops(s, r[..n]);
    }
  }

  /** Trimming takes white space off both ends, and nothing else. */
  lemma TrimDrops(l: string, s: string, r: string)
    requires Blank(l) && Blank(r) && Trimmed(s)
    ensures Trim(l + s + r) == s
  {
    if s == "" {
      assert l + s + r == (l + r) + "";
      TrimStartDrops(l + r, "");
    } else {
      assert l + s + r == l + (s + r);
      TrimStartDrops(l, s + r);
      TrimEndDrops(s, r);
    }
  }

  lemma {:induction false} StartSplits(s: string) returns (l: string)
    ensures Blank(l) && s == l + TrimStart(s)
    ensures TrimStart(s) != "" ==> !IsSpace(TrimStart(s)[0])
    decreases |s|
  {
    l := "";
    if s != "" && IsSpace(s[0]) {
      var more := StartSplits(s[1..]);
      l := [s[0]] + more;
      assert s == [s[0]] + s[1..];
    }
  }

  lemma {:induction false} EndSplits(s: string) returns (r: string)
    ensures Blank(r) && s == TrimEnd(s) + r && TrimEnd(s) <= s
    ensures TrimEnd(s) != "" ==> !IsSpace(TrimEnd(s)[|TrimEnd(s)| - 1])
    decreases |s|
  {
    r := "";
    if s != "" && IsSpace(s[|s| - 1]) {
      var n := |s| - 1;
      var more := EndSplits(s[..n]);
      r := more + [s[n]];
      assert s == s[..n] + [s[n]];
    }
  }

  /** Every text is its trimmed part between white space: the laws below speak of every line. */
  lemma TrimSplits(raw: string) returns (l: string, r: string)
    ensures Blank(l) && Blank(r) && Trimmed(Trim(raw)) && raw == l + Trim(raw) + r
  {
    l := StartSplits(raw);
    r := EndSplits(TrimStart(raw));
    assert l + (Trim(raw) + r) == l + Trim(raw) + r;
  }

  lemma {:induction false} FirstSpace(f: string, rest: string)
    requires Solid(f) && (rest != "" ==> IsSpace(rest[0]))
    ensures SpaceAt(f + rest) == |f|
    decreases |f|
  {
    if f == "" {
      assert f + rest == rest;
    } else {
      assert (f + rest)[1..] == f[1..] + rest;
      FirstSpace(f[1..], rest);
    }
  }

  // ---------- quotes ----------

  predicate Quoted(s: string) {
    |s| >= 2 && s[0] == s[|s| - 1] && (s[0] == '"' || s[0] == '\'')
  }

  /** Quotes around a text are taken off, once; white space inside them stays. */
  lemma QuotesDropped(l: string, q: char, v: string, r: string)
    requires Blank(l) && Blank(r) && (q == '"' || q == '\'')
    ensures Unquote(l + ([q] + v + [q]) + r) == v
  {
    var s := [q] + v + [q];
    assert Trimmed(s);
    TrimDrops(l, s, r);
    assert s[1..|s| - 1] == v;
  }

  // ---------- lines ----------

  predicate IsFlag(f: string) {
    f != "" && f[0] == '-' && Solid(f)
  }

  /** A blank line says nothing. */
  lemma BlankLine(raw: string)
    requires Blank(raw)
    ensures Lex(raw) == None
  {
    assert raw == raw + "" + "";
    TrimDrops(raw, "", "");
  }

  /** Neither does a comment. */
  lemma Comment(l: string, text: string)
    requires Blank(l)
    ensures Lex(l + "#" + text) == None
  {
    var r := EndSplits("#" + text);
    var s := TrimEnd("#" + text);
    CommentStays(text, r, s);
    assert Trimmed(s);
    assert l + "#" + text == l + ("#" + text) == l + (s + r) == l + s + r;
    TrimDrops(l, s, r);
    hide Trim, TrimStart, TrimEnd;
    assert Trim(l + "#" + text) == s;
  }

  lemma CommentStays(text: string, r: string, s: string)
    requires Blank(r) && "#" + text == s + r
    ensures s != "" && s[0] == '#'
  {
    assert (s + r)[0] == '#' && !IsSpace('#');
    assert s == "" ==> s + r == r;
  }

  /** A flag alone has no value. */
  lemma FlagAlone(l: string, f: string, r: string)
    requires Blank(l) && Blank(r) && IsFlag(f)
    ensures Lex(l + f + r) == Some((f, None))
  {
    TrimDrops(l, f, r);
    assert f + "" == f;
    FirstSpace(f, "");
  }

  lemma FlagSplits(f: string, sp: string, v: string)
    requires IsFlag(f) && sp != "" && Blank(sp) && v != "" && Trimmed(v)
    ensures var line := f + sp + v;
            Trimmed(line) && SpaceAt(line) == |f| < |line| && line[..|f|] == f && line[|f| + 1..] == sp[1..] + v
  {
    var line := f + sp + v;
    assert line == f + (sp + v) && (sp + v)[0] == sp[0];
    FirstSpace(f, sp + v);
    assert line[|line| - 1] == v[|v| - 1];
  }

  /** A flag and a value: white space between and around them does not matter. */
  lemma FlagWithValue(l: string, f: string, sp: string, v: string, r: string)
    requires Blank(l) && Blank(r) && IsFlag(f) && sp != "" && Blank(sp) && v != "" && Trimmed(v)
    ensures Lex(l + (f + sp + v) + r) == Some((f, Some(Unquote(v))))
    ensures !Quoted(v) ==> Unquote(v) == v
  {
    var line := f + sp + v;
    FlagSplits(f, sp, v);
    TrimDrops(l, line, r);
    assert sp[1..] + v == sp[1..] + v + "";
    TrimDrops(sp[1..], v, "");
    assert v == "" + v + "";
    TrimDrops("", v, "");
  }

  /** Quotes around the value change nothing, and keep its outer white space. */
  lemma FlagWithQuotedValue(l: string, f: string, sp: string, q: char, v: string, r: string)
    requires Blank(l) && Blank(r) && IsFlag(f) && sp != "" && Blank(sp) && (q == '"' || q == '\'')
    ensures Lex(l + (f + sp + ([q] + v + [q])) + r) == Some((f, Some(v)))
  {
    FlagWithValue(l, f, sp, [q] + v + [q], r);
    assert [q] + v + [q] == "" + ([q] + v + [q]) + "";
    QuotesDropped("", q, v, "");
  }

  /** Anything else is a bare value, with its quotes taken off. */
  lemma BareValue(l: string, v: string, r: string)
    requires Blank(l) && Blank(r) && v != "" && Trimmed(v) && v[0] != '-' && v[0] != '#'
    ensures Lex(l + v + r) == Some(("", Some(Unquote(v))))
    ensures !Quoted(v) ==> Unquote(v) == v
  {
    TrimDrops(l, v, r);
    assert v == "" + v + "";
    TrimDrops("", v, "");
  }

  // ---------- items ----------

  /** The item of a line with a flag is the flag with its value. */
  lemma FlagItem(w: World, l: string, f: string, sp: string, v: string, r: string)
    requires Blank(l) && Blank(r) && IsFlag(f) && sp != "" && Blank(sp) && v != "" && Trimmed(v) && !Quoted(v)
    ensures ItemOf(w, l + (f + sp + v) + r) == Plain(f, Some(v))
  {
    FlagWithValue(l, f, sp, v, r);
  }

  lemma QuotedFlagItem(w: World, l: string, f: string, sp: string, q: char, v: string, r: string)
    requires Blank(l) && Blank(r) && IsFlag(f) && sp != "" && Blank(sp) && (q == '"' || q == '\'')
    ensures ItemOf(w, l + (f + sp + ([q] + v + [q])) + r) == Plain(f, Some(v))
  {
    FlagWithQuotedValue(l, f, sp, q, v, r);
  }

  lemma FlagAloneItem(w: World, l: string, f: string, r: string)
    requires Blank(l) && Blank(r) && IsFlag(f)
    ensures ItemOf(w, l + f + r) == Plain(f, None)
  {
    FlagAlone(l, f, r);
  }

  lemma SilentItem(w: World, l: string, text: string)
    requires Blank(l)
    ensures ItemOf(w, l) == Nothing && ItemOf(w, l + "#" + text) == Nothing
  {
    BlankLine(l);
    Comment(l, text);
  }

  /** A bare value that ends in `.hxml` includes the file of that name below the directory that all paths are
      relative to, and any other is an argument without a flag. */
  lemma BareItem(w: World, l: string, v: string, r: string)
    requires Blank(l) && Blank(r) && v != "" && Trimmed(v) && v[0] != '-' && v[0] != '#' && !Quoted(v)
    ensures forall s :: v == s + ".hxml" ==> ItemOf(w, l + v + r) == Include(Path.Under(w.dir, v))
    ensures (forall s :: v != s + ".hxml") ==> ItemOf(w, l + v + r) == Plain("", Some(v))
  {
    BareValue(l, v, r);
    if EndsWith(v, ".hxml") {
      assert v == v[..|v| - 5] + ".hxml";
    }
    forall s | v == s + ".hxml" ensures EndsWith(v, ".hxml") {
    }
  }

  /** An include that cannot be read leaves one argument at its line, which says why, the first time it is
      referred to, and nothing later. */
  lemma UnreadableInclude(w: World, file: Path, line: string, path: Path, seen: seq<string>)
    requires ItemOf(w, line) == Include(path) && path !in w.texts
    ensures Expand(w, file, [line], 0, seen) ==
            if w.canon(path) in seen then ([], seen)
            else ([Arg("--missing-include", Some(w.unreadable(path)), file, 1)], seen + [w.canon(path)])
  {
    hide ItemOf, Expand;
    ExpandLine(w, file, [line], 0, seen);
    NothingLeft(w, file, [line], seen);
    NothingLeft(w, file, [line], seen + [w.canon(path)]);
    assert Missing(w, file, 0, path) == Arg("--missing-include", Some(w.unreadable(path)), file, 1);
    assert [Missing(w, file, 0, path)] + [] == [Missing(w, file, 0, path)];
  }

  lemma NothingLeft(w: World, file: Path, lines: seq<string>, seen: seq<string>)
    ensures Expand(w, file, lines, |lines|, seen) == ([], seen)
  {
  }
}
