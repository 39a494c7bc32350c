/** What each field of a configuration holds after a list of arguments: one law for each, in terms of the flags
    and values of the arguments alone. */
module HxmlFields {
  import opened HxmlArgs
  import opened HxmlBuilds
  import opened HxmlLines
  import opened Wrappers

  const CLASS_PATH := {"-cp", "-p", "--class-path"}
  const MAIN := {"-main", "-m", "--main"}
  const LIBRARY := {"-lib", "-L", "--library"}
  const DEFINE := {"-D", "--define"}
  const RESOURCE := {"-resource", "-r", "--resource"}
  const DEBUG := {"-debug", "--debug"}
  const VERBOSE := {"-v", "--verbose"}
  const OUTPUT := {"-output", "--output"}

  function ValueOf(a: Arg): string {
    if a.value.Some? then a.value.value else ""
  }

  /** The values of the arguments with one of the flags, in order. */
  function Values(args: seq<Arg>, flags: set<string>): seq<string> {
    if args == [] then []
    else
      var a := args[|args| - 1];
      Values(args[..|args| - 1], flags) + if a.flag in flags then [ValueOf(a)] else []
  }

  predicate HasFlag(args: seq<Arg>, flags: set<string>) {
    exists i :: 0 <= i < |args| && args[i].flag in flags
  }

  function Paths(dir: string, values: seq<string>): seq<Path> {
    seq(|values|, i requires 0 <= i < |values| => Path.Under(dir, values[i]))
  }

  function Pairs(values: seq<string>, c: char): seq<(string, Option<string>)> {
    seq(|values|, i requires 0 <= i < |values| => SplitOnce(values[i], c))
  }

  function Files(dir: string, pairs: seq<(string, Option<string>)>): seq<(Path, Option<string>)> {
    seq(|pairs|, i requires 0 <= i < |pairs| => (Path.Under(dir, pairs[i].0), pairs[i].1))
  }

  /** The values that end in `.hx`, or those that do not. */
  function Sources(values: seq<string>, hx: bool): seq<string> {
    if values == [] then []
    else
      var v := values[|values| - 1];
      Sources(values[..|values| - 1], hx) + if EndsWith(v, ".hx") == hx then [v] else []
  }

  /** The last thing that an argument says, if one does. */
  function Last<T>(args: seq<Arg>, say: Arg -> Option<T>): Option<T> {
    if args == [] then None
    else
      var a := args[|args| - 1];
      if say(a).Some? then say(a) else Last(args[..|args| - 1], say)
  }

  function SaysMode(a: Arg): Option<Mode> {
    if a.flag == "--rayzor-jit" then Some(Jit) else if a.flag == "--rayzor-compile" then Some(Compile) else None
  }

  function SaysOutput(dir: string, a: Arg): Option<Path> {
    if a.flag in OUTPUT || (SaysMode(a).Some? && ValueOf(a) != "") then Some(Path.Under(dir, ValueOf(a))) else None
  }

  function SaysMain(a: Arg): Option<string> {
    if a.flag in MAIN then Some(ValueOf(a))
    else if a.flag == "--run" || a.flag == "-run" then Some(FirstWord(ValueOf(a)))
    else None
  }

  /** None of the flags above. */
  predicate IsOther(flag: string) {
    && flag !in CLASS_PATH && flag !in MAIN && flag !in LIBRARY && flag !in DEFINE && flag !in RESOURCE
    && flag !in DEBUG && flag !in VERBOSE && flag !in OUTPUT
    && flag != "--macro" && flag != "--rayzor-jit" && flag != "--rayzor-compile" && flag != ""
  }

  /** What an argument says that names a target, with two dashes or with one. */
  function SaysTarget(a: Arg): Option<string> {
    if IsOther(a.flag) && TargetOf(a.flag, 0).Some? then Some(TargetOf(a.flag, 0).value.1) else None
  }

  predicate IsKept(flag: string) {
    IsOther(flag) && TargetOf(flag, 0).None?
  }

  /** All other arguments, as they were given. */
  function Kept(args: seq<Arg>): seq<string> {
    if args == [] then []
    else
      var a := args[|args| - 1];
      Kept(args[..|args| - 1]) + if IsKept(a.flag) then [Text(a)] else []
  }

  /** A warning for each of them whose flag is not a known one. */
  function Warned(args: seq<Arg>): seq<(Path, nat, string)> {
    if args == [] then []
    else
      var a := args[|args| - 1];
      Warned(args[..|args| - 1]) +
      if IsKept(a.flag) && !IsRecorded(a.flag) then [(a.file, a.line, "unknown flag `" + Text(a) + "`")] else []
  }

  // ---------- one argument ----------

  lemma ListEffects(dir: string, a: Arg)
    ensures var e, v := EffectOf(dir, a), ValueOf(a);
            && (if a.flag in CLASS_PATH then e == ClassPath(Path.Under(dir, v)) else !e.ClassPath?)
            && (if a.flag in LIBRARY then e == Library(v) else !e.Library?)
            && (if a.flag in DEFINE then e == Define(SplitOnce(v, '=')) else !e.Define?)
            && (if a.flag in RESOURCE then
                  e == Resource((Path.Under(dir, SplitOnce(v, '@').0), SplitOnce(v, '@').1)) else !e.Resource?)
  {
    hide SplitOnce, OtherEffect, EndsWith;
  }

  lemma SwitchEffects(dir: string, a: Arg)
    ensures var e, v := EffectOf(dir, a), ValueOf(a);
            && (if a.flag in DEBUG then e == Debug else !e.Debug?)
            && (if a.flag in VERBOSE then e == Verbose else !e.Verbose?)
            && (if a.flag == "--macro" then e == Macro(v) else !e.Macro?)
            && (if a.flag == "" then e == if EndsWith(v, ".hx") then Source(Path.Under(dir, v)) else Class(v)
                else !e.Source? && !e.Class?)
  {
    hide SplitOnce, OtherEffect, EndsWith;
  }

  lemma RunEffects(dir: string, a: Arg)
    ensures var e, v := EffectOf(dir, a), ValueOf(a);
            && (if SaysMode(a).Some? then
                  e == Run(SaysMode(a).value, if v != "" then Some(Path.Under(dir, v)) else None) else !e.Run?)
            && (if a.flag in OUTPUT then e == Output(Path.Under(dir, v)) else !e.Output?)
  {
    hide SplitOnce, OtherEffect, EndsWith;
  }

  lemma {:induction false} TargetOfIs(flag: string, n: nat)
    requires n <= |TARGETS|
    ensures match TargetOf(flag, n)
            case None => forall k :: n <= k < |TARGETS| ==> TARGETS[k].0 != flag && TARGETS[k].0 != "-" + flag
            case Some(t) => t in TARGETS && (t.0 == flag || t.0 == "-" + flag)
    decreases |TARGETS| - n
  {
    if n < |TARGETS| {
      TargetOfIs(flag, n + 1);
    }
  }

  lemma TwoDashes(k: nat)
    requires k < |TARGETS|
    ensures var f := TARGETS[k].0; |f| > 2 && f[0] == '-' && f[1] == '-' && f[2] != '-'
  {
  }

  lemma RunIsListed()
    ensures |TARGETS| == 14 && TARGETS[13].0 == "--run"
  {
  }

  lemma RunTarget(flag: string)
    ensures (TargetOf(flag, 0).Some? && TargetOf(flag, 0).value.0 == "--run") <==> flag == "--run" || flag == "-run"
  {
    hide TARGETS;
    TargetOfIs(flag, 0);
    RunIsListed();
    if flag == "--run" || flag == "-run" {
      assert "-" + "-run" == "--run";
      var t := TargetOf(flag, 0).value;
      var k :| 0 <= k < |TARGETS| && TARGETS[k] == t;
      TwoDashes(k);
    }
    if "-" + flag == "--run" {
      assert ("-" + flag)[1..] == flag;
    }
  }

  lemma MainEffects(dir: string, a: Arg)
    ensures var e := EffectOf(dir, a);
            SaysMain(a) == if e.Main? then Some(e.name) else if e.Target? then e.main else None
  {
    hide SplitOnce, EndsWith, TargetOf, FirstWord;
    RunTarget(a.flag);
    if a.flag == "--run" || a.flag == "-run" {
      RunIsOther(dir, a);
    }
  }

  lemma RunIsOther(dir: string, a: Arg)
    requires a.flag == "--run" || a.flag == "-run"
    ensures EffectOf(dir, a) == OtherEffect(a.flag, ValueOf(a), a)
  {
    hide SplitOnce, EndsWith, OtherEffect;
  }

  lemma OtherEffects(dir: string, a: Arg)
    ensures var e := EffectOf(dir, a);
            if IsOther(a.flag) then e == OtherEffect(a.flag, ValueOf(a), a)
            else !e.Target? && !e.Recorded? && !e.Unknown?
  {
    hide SplitOnce, EndsWith, OtherEffect;
  }

  // ---------- all arguments ----------

  lemma UpdateLists(c: Config, e: Effect)
    ensures var d := Update(c, e);
            && d.classPaths == (if e.ClassPath? then c.classPaths + [e.path] else c.classPaths)
            && d.libraries == (if e.Library? then c.libraries + [e.name] else c.libraries)
            && d.defines == (if e.Define? then c.defines + [e.define] else c.defines)
            && d.resources == (if e.Resource? then c.resources + [e.resource] else c.resources)
            && d.macros == (if e.Macro? then c.macros + [e.call] else c.macros)
            && d.sourceFiles == (if e.Source? then c.sourceFiles + [e.path] else c.sourceFiles)
            && d.classes == (if e.Class? then c.classes + [e.name] else c.classes)
  {
  }

  lemma UpdateValues(c: Config, e: Effect)
    ensures var d := Update(c, e);
            && d.debug == (c.debug || e.Debug?) && d.verbose == (c.verbose || e.Verbose?)
            && d.mode == (if e.Run? then e.mode else c.mode)
            && d.output == (if e.Output? then Some(e.path)
                            else if e.Run? && e.output.Some? then e.output else c.output)
            && d.mainClass == (if e.Main? then Some(e.name)
                               else if e.Target? && e.main.Some? then e.main else c.mainClass)
  {
  }

  lemma ListsMore(dir: string, values: seq<string>, v: string, c: char)
    ensures Paths(dir, values + [v]) == Paths(dir, values) + [Path.Under(dir, v)]
    ensures Pairs(values + [v], c) == Pairs(values, c) + [SplitOnce(v, c)]
    ensures Files(dir, Pairs(values + [v], c)) ==
            Files(dir, Pairs(values, c)) + [(Path.Under(dir, SplitOnce(v, c).0), SplitOnce(v, c).1)]
  {
    hide SplitOnce;
  }

  lemma NothingHeld(dir: string)
    ensures Paths(dir, []) == [] && Pairs([], '=') == [] && Files(dir, Pairs([], '@')) == []
    ensures Sources([], true) == [] && Sources([], false) == []
  {
  }

  /** The lists hold the values of their own flags, in order. */
  lemma {:induction false} ListsHold(dir: string, args: seq<Arg>)
    ensures var c := Applied(dir, DEFAULT, args);
            && c.classPaths == Paths(dir, Values(args, CLASS_PATH))
            && c.libraries == Values(args, LIBRARY)
            && c.defines == Pairs(Values(args, DEFINE), '=')
            && c.resources == Files(dir, Pairs(Values(args, RESOURCE), '@'))
    decreases |args|
  {
    if args == [] {
      NothingHeld(dir);
    } else {
      hide EffectOf, Update, SplitOnce, Paths, Pairs, Files, Values, Applied;
      var n := |args| - 1;
      var v := ValueOf(args[n]);
      ListsHold(dir, args[..n]);
      AppliedMore(dir, args);
      ValuesMore(args, CLASS_PATH);
      ValuesMore(args, LIBRARY);
      ValuesMore(args, DEFINE);
      ValuesMore(args, RESOURCE);
      ListEffects(dir, args[n]);
      UpdateLists(Applied(dir, DEFAULT, args[..n]), EffectOf(dir, args[n]));
      ListsMore(dir, Values(args[..n], CLASS_PATH), v, '=');
      ListsMore(dir, Values(args[..n], DEFINE), v, '=');
      ListsMore(dir, Values(args[..n], RESOURCE), v, '@');
    }
  }

  /** Macros, source files and classes: a bare value is a source file exactly when it ends in `.hx`. */
  lemma {:induction false} NamesHold(dir: string, args: seq<Arg>)
    ensures var c := Applied(dir, DEFAULT, args);
            && c.macros == Values(args, {"--macro"})
            && c.sourceFiles == Paths(dir, Sources(Values(args, {""}), true))
            && c.classes == Sources(Values(args, {""}), false)
    decreases |args|
  {
    if args == [] {
      NothingHeld(dir);
    } else {
      hide *;
      var n := |args| - 1;
      var c := Applied(dir, DEFAULT, args[..n]);
      NamesHold(dir, args[..n]);
      AppliedMore(dir, args);
      NamesStep(dir, c, args[n], Values(args[..n], {"--macro"}), Values(args[..n], {""}));
      ValuesMore(args, {"--macro"});
      ValuesMore(args, {""});
    }
  }

  lemma AppliedMore(dir: string, args: seq<Arg>)
    requires args != []
    ensures Applied(dir, DEFAULT, args) ==
            Update(Applied(dir, DEFAULT, args[..|args| - 1]), EffectOf(dir, args[|args| - 1]))
  {
    hide EffectOf, Update;
  }

  lemma ValuesMore(args: seq<Arg>, flags: set<string>)
    requires args != []
    ensures var a := args[|args| - 1];
            Values(args, flags) ==
            if a.flag in flags then Values(args[..|args| - 1], flags) + [ValueOf(a)]
            else Values(args[..|args| - 1], flags)
  {
    hide ValueOf;
  }

  lemma NamesStep(dir: string, c: Config, a: Arg, macros: seq<string>, bare: seq<string>)
    requires c.macros == macros && c.sourceFiles == Paths(dir, Sources(bare, true)) && c.classes == Sources(bare, false)
    ensures var d, v := Update(c, EffectOf(dir, a)), ValueOf(a);
            var more := if a.flag == "" then bare + [v] else bare;
            && d.macros == (if a.flag == "--macro" then macros + [v] else macros)
            && d.sourceFiles == Paths(dir, Sources(more, true)) && d.classes == Sources(more, false)
  {
    hide EffectOf, Update, EndsWith, Paths, Sources;
    SwitchEffects(dir, a);
    UpdateLists(c, EffectOf(dir, a));
    SourcesMore(bare, ValueOf(a));
    ListsMore(dir, Sources(bare, true), ValueOf(a), '=');
    assert Sources(bare, true) + [] == Sources(bare, true) && Sources(bare, false) + [] == Sources(bare, false);
  }

  lemma SourcesMore(values: seq<string>, v: string)
    ensures forall hx :: Sources(values + [v], hx) ==
                         Sources(values, hx) + if EndsWith(v, ".hx") == hx then [v] else []
  {
    hide EndsWith;
    assert (values + [v])[..|values|] == values;
  }

  lemma HasFlagMore(args: seq<Arg>, flags: set<string>)
    requires args != []
    ensures HasFlag(args, flags) <==> HasFlag(args[..|args| - 1], flags) || args[|args| - 1].flag in flags
  {
    var n := |args| - 1;
    if i :| 0 <= i < n && args[..n][i].flag in flags {
      assert args[i].flag in flags;
    }
    if i :| 0 <= i < |args| && args[i].flag in flags {
      assert i < n ==> args[..n][i].flag in flags;
    }
  }

  /** Switches are on exactly when given, and the mode, the output and the main class are what the last argument
      that says one says. */
  lemma {:induction false} ValuesHold(dir: string, args: seq<Arg>)
    ensures var c := Applied(dir, DEFAULT, args);
            && (c.debug <==> HasFlag(args, DEBUG)) && (c.verbose <==> HasFlag(args, VERBOSE))
            && c.mode == (match Last(args, SaysMode) case Some(m) => m case None => Jit)
            && c.output == Last(args, a => SaysOutput(dir, a))
            && c.mainClass == Last(args, SaysMain)
    decreases |args|
  {
    if args != [] {
      hide EffectOf, Update, FirstWord;
      var n := |args| - 1;
      ValuesHold(dir, args[..n]);
      SwitchEffects(dir, args[n]);
      RunEffects(dir, args[n]);
      MainEffects(dir, args[n]);
      UpdateValues(Applied(dir, DEFAULT, args[..n]), EffectOf(dir, args[n]));
      HasFlagMore(args, DEBUG);
      HasFlagMore(args, VERBOSE);
    }
  }

  lemma UpdateOthers(c: Config, e: Effect)
    ensures var d := Update(c, e);
            && d.target == (if e.Target? then Some(e.name) else c.target)
            && d.compilerFlags == (if e.Recorded? || e.Unknown? then c.compilerFlags + [e.text] else c.compilerFlags)
            && d.warnings == (if e.Unknown? then
                 c.warnings + [(e.file, e.line, "unknown flag `" + e.text + "`")] else c.warnings)
  {
  }

  /** The target is what the last target flag names; everything that is no option is kept as text, with a warning
      exactly where its flag is not known. */
  lemma {:induction false} OthersHold(dir: string, args: seq<Arg>)
    ensures var c := Applied(dir, DEFAULT, args);
            && c.target == Last(args, SaysTarget)
            && c.compilerFlags == Kept(args) && c.warnings == Warned(args)
    decreases |args|
  {
    if args != [] {
      hide EffectOf, Update, FirstWord, Text, IsRecorded, TargetOf, IsOther, Applied;
      var n := |args| - 1;
      OthersHold(dir, args[..n]);
      AppliedMore(dir, args);
      OtherEffects(dir, args[n]);
      UpdateOthers(Applied(dir, DEFAULT, args[..n]), EffectOf(dir, args[n]));
    }
  }

  /** The first word is what stands before the next white space. */
  lemma FirstWordIs(l: string, word: string, rest: string)
    requires Blank(l) && Solid(word) && word != "" && (rest != "" ==> IsSpace(rest[0]))
    ensures FirstWord(l + word + rest) == word
  {
    assert l + word + rest == l + (word + rest);
    TrimStartDrops(l, word + rest);
    FirstSpace(word, rest);
  }

  /** What is kept of an argument is a line that says it again. */
  lemma TextReadsBack(a: Arg)
    requires IsFlag(a.flag)
    requires a.value.Some? ==> a.value.value != "" && Trimmed(a.value.value) && !Quoted(a.value.value)
    ensures Lex(Text(a)) == Some((a.flag, a.value))
  {
    match a.value {
      case None =>
        assert "" + a.flag + "" == a.flag;
        FlagAlone("", a.flag, "");
      case Some(v) =>
        assert "" + (a.flag + " " + v) + "" == a.flag + " " + v;
        FlagWithValue("", a.flag, " ", v, "");
    }
  }

  lemma MissingIsKept()
    ensures IsKept("--missing-include") && !IsRecorded("--missing-include")
  {
    TargetOfIs("--missing-include", 0);
  }

  /** The report of an include that cannot be read becomes a warning of the build. */
  lemma MissingIncludeWarns(dir: string, before: seq<Arg>, message: string, file: Path, line: nat)
    ensures var a := Arg("--missing-include", Some(message), file, line);
            Applied(dir, DEFAULT, before + [a]).warnings ==
            Applied(dir, DEFAULT, before).warnings + [(file, line, "unknown flag `--missing-include " + message + "`")]
  {
    var a := Arg("--missing-include", Some(message), file, line);
    OthersHold(dir, before);
    OthersHold(dir, before + [a]);
    MissingIsKept();
    hide *;
    WarnedMore(before, a);
    MissingText(a, message);
  }

  lemma WarnedMore(before: seq<Arg>, a: Arg)
    ensures Warned(before + [a]) ==
            Warned(before) +
            if IsKept(a.flag) && !IsRecorded(a.flag) then [(a.file, a.line, "unknown flag `" + Text(a) + "`")] else []
  {
    hide IsKept, IsRecorded, Text;
    assert (before + [a])[..|before|] == before;
  }

  lemma MissingText(a: Arg, message: string)
    requires a.flag == "--missing-include" && a.value == Some(message)
    ensures "unknown flag `" + Text(a) + "`" == "unknown flag `--missing-include " + message + "`"
  {
    assert Text(a) == "--missing-include " + message;
  }

  /** A text is split at the first separator, and is whole without one. */
  lemma {:induction false} SplitsOnce(name: string, c: char, value: string)
    requires c !in name
    ensures SplitOnce(name + [c] + value, c) == (name, Some(value)) && SplitOnce(name, c) == (name, None)
  {
    SeparatorAt(name, c, [c] + value);
    SeparatorAt(name, c, "");
    assert name + [c] + value == name + ([c] + value) && name + "" == name;
  }

  lemma {:induction false} SeparatorAt(name: string, c: char, rest: string)
    requires c !in name && (rest != "" ==> rest[0] == c)
    ensures CharAt(name + rest, c) == |name|
    decreases |name|
  {
    if name == "" {
      assert name + rest == rest;
    } else {
      assert (name + rest)[1..] == name[1..] + rest;
      SeparatorAt(name[1..], c, rest);
    }
  }
}
