/**
 * The command line: the existence check on the given paths, the debug switch, the settings
 * the run takes from the arguments, and what is printed once the run ends.
 */
module Cli {
  import opened Wrappers
  import opened Errors
  import opened Paths
  import opened Tasks
  import opened Pipeline
  import PipelineFacts

  /** One line printed on standard output or on standard error. */
  datatype Line = Stdout(text: string) | Stderr(text: string)

  const SuccessMessage := "Successfully patched APK!"
  const FailureMessage := "Error patching APK. Please check logs!"
  /** The workspace, joined onto the installation directory. */
  const WorkspaceName := "temp/"

  // ---- argument check ----

  /** The index of the first path that does not exist, if any. */
  function FirstMissing(paths: seq<string>, existing: set<string>): (r: Option<nat>)
    ensures r.None? <==> forall i :: 0 <= i < |paths| ==> paths[i] in existing
    ensures r.Some? ==> r.value < |paths| && paths[r.value] !in existing
    ensures r.Some? ==> forall i :: 0 <= i < r.value ==> paths[i] in existing
    decreases |paths|
  {
    if paths == [] then None
    else if paths[0] !in existing then Some(0)
    else
      match FirstMissing(paths[1..], existing)
      case None => None
      case Some(k) => Some(k + 1)
  }

  /**
   * The check's verdict on the target, then every source: nothing, or the error naming the
   * first path that does not exist.
   */
  function CheckArguments(target: string, sources: seq<string>, existing: set<string>): (r: Option<Error>)
    ensures r.None? <==> target in existing && forall i :: 0 <= i < |sources| ==> sources[i] in existing
  {
    var ps := [target] + sources;
    assert forall i :: 0 <= i < |sources| ==> sources[i] == ps[i + 1];
    match FirstMissing(ps, existing)
    case None => None
    case Some(k) => Some(FileDoesNotExist(ps[k]))
  }

  /**
   * The check names the target when it is missing, and otherwise the first missing source;
   * every source before that one exists.
   */
  lemma CheckNamesFirstMissing(target: string, sources: seq<string>, existing: set<string>)
    ensures target !in existing ==> CheckArguments(target, sources, existing) == Some(FileDoesNotExist(target))
    ensures target in existing && CheckArguments(target, sources, existing).Some? ==>
      exists k :: 0 <= k < |sources| && sources[k] !in existing
        && (forall i :: 0 <= i < k ==> sources[i] in existing)
        && CheckArguments(target, sources, existing) == Some(FileDoesNotExist(sources[k]))
  {
    var ps := [target] + sources;
    var m := FirstMissing(ps, existing);
    if target in existing && m.Some? {
      var k := m.value - 1;
      assert ps[m.value] == sources[k];
      forall i | 0 <= i < k ensures sources[i] in existing {
        assert ps[i + 1] == sources[i];
      }
    }
  }

  // ---- debug switch ----

  /** The white space JSON allows around a value. */
  predicate JsonSpace(c: char) {
    c == ' ' || c == '\t' || c == '\n' || c == '\r'
  }

  predicate AllSpace(s: string) {
    forall i :: 0 <= i < |s| ==> JsonSpace(s[i])
  }

  /** Drops leading white space. */
  function TrimStart(s: string): (r: string)
    ensures |r| <= |s| && r == s[|s| - |r|..]
    ensures AllSpace(s[..|s| - |r|])
    ensures r == "" || !JsonSpace(r[0])
    decreases |s|
  {
    if s != "" && JsonSpace(s[0]) then
      var r := TrimStart(s[1..]);
      assert s[..|s| - |r|] == [s[0]] + s[1..][..|s| - 1 - |r|];
      r
    else s
  }

  /** Drops trailing white space. */
  function TrimEnd(s: string): (r: string)
    ensures |r| <= |s| && r == s[..|r|]
    ensures AllSpace(s[|r|..])
    ensures r == "" || !JsonSpace(r[|r| - 1])
    decreases |s|
  {
    if s != "" && JsonSpace(s[|s| - 1]) then
      var t := s[..|s| - 1];
      var r := TrimEnd(t);
      assert s[|r|..] == t[|r|..] + [s[|s| - 1]];
      AllSpaceConcat(t[|r|..], [s[|s| - 1]]);
      assert s[..|r|] == t[..|r|];
      r
    else s
  }

  lemma AllSpaceConcat(a: string, b: string)
    requires AllSpace(a) && AllSpace(b)
    ensures AllSpace(a + b)
  {
  }

  /**
   * Debug mode: `DEBUG` is set, non-empty, and its JSON value is the boolean `true`, i.e.
   * the text `true` with nothing but JSON white space around it.
   */
  function IsDebug(debug: Option<string>): bool {
    debug.Some? && debug.value != "" && TrimEnd(TrimStart(debug.value)) == "true"
  }

  /** The text of a `DEBUG` that switches debug mode on: `true` padded with white space. */
  predicate PaddedTrue(v: string) {
    exists i :: 0 <= i <= |v| - 4 && AllSpace(v[..i]) && v[i..i + 4] == "true" && AllSpace(v[i + 4..])
  }

  /** Trimming a white-space prefix off a text that then starts with a non-space is exact. */
  lemma {:induction false} TrimStartAfterSpace(v: string, i: nat)
    requires i < |v| && AllSpace(v[..i]) && !JsonSpace(v[i])
    ensures TrimStart(v) == v[i..]
    decreases i
  {
    if i > 0 {
      assert JsonSpace(v[..i][0]);
      assert v[1..][..i - 1] == v[..i][1..];
      TrimStartAfterSpace(v[1..], i - 1);
      assert v[1..][i - 1..] == v[i..];
    }
  }

  /** Trimming a white-space suffix off a text that ends in a non-space before it is exact. */
  lemma {:induction false} TrimEndBeforeSpace(v: string, j: nat)
    requires 0 < j <= |v| && AllSpace(v[j..]) && !JsonSpace(v[j - 1])
    ensures TrimEnd(v) == v[..j]
    decreases |v| - j
  {
    if j < |v| {
      var w := v[..|v| - 1];
      assert JsonSpace(v[j..][|v| - 1 - j]);
      assert w[j..] == v[j..][..|v| - 1 - j];
      TrimEndBeforeSpace(w, j);
      assert w[..j] == v[..j];
    }
  }

  lemma DebugIsPaddedTrue(debug: Option<string>)
    requires IsDebug(debug)
    ensures debug.Some? && PaddedTrue(debug.value)
  {
    var v := debug.value;
    var t := TrimStart(v);
    var i := |v| - |t|;
    var u := TrimEnd(t);
    assert u == "true";
    assert t[..4] == "true" && t[4..] == v[i + 4..];
    assert v[i..i + 4] == t[..4];
  }

  lemma PaddedTrueIsDebug(v: string)
    requires PaddedTrue(v)
    ensures IsDebug(Some(v))
  {
    var i :| 0 <= i <= |v| - 4 && AllSpace(v[..i]) && v[i..i + 4] == "true" && AllSpace(v[i + 4..]);
    assert v[i] == v[i..i + 4][0];
    TrimStartAfterSpace(v, i);
    var t := v[i..];
    assert t[4..] == v[i + 4..];
    assert t[3] == v[i..i + 4][3];
    TrimEndBeforeSpace(t, 4);
  }

  /** Debug mode is switched on by exactly the padded `true` texts. */
  lemma DebugIffPaddedTrue(debug: Option<string>)
    ensures IsDebug(debug) <==> debug.Some? && PaddedTrue(debug.value)
  {
    if IsDebug(debug) {
      DebugIsPaddedTrue(debug);
    }
    if debug.Some? && PaddedTrue(debug.value) {
      PaddedTrueIsDebug(debug.value);
    }
  }

  /** Examples: debug mode is off without `DEBUG`, and for values such as `false` or `1`. */
  lemma DebugOffUnlessTrue()
    ensures !IsDebug(None) && !IsDebug(Some("")) && !IsDebug(Some("false")) && !IsDebug(Some("1"))
  {
    TrimStartAfterSpace("false", 0);
    TrimEndBeforeSpace("false", 5);
    TrimStartAfterSpace("1", 0);
    TrimEndBeforeSpace("1", 1);
  }

  /** Examples: debug mode is on for `true`, also with white space around it. */
  lemma DebugOnForTrue()
    ensures IsDebug(Some("true")) && IsDebug(Some(" true\n"))
  {
    TrimStartAfterSpace("true", 0);
    TrimEndBeforeSpace("true", 4);
    var v := " true\n";
    assert AllSpace(v[..1]) && v[1..5] == "true" && AllSpace(v[5..]);
    PaddedTrueIsDebug(v);
  }

  // ---- the settings of a run ----

  /**
   * The settings of a run: the workspace is `temp/` under the installation directory, ending
   * in a separator; only the first source is taken, none when no source is given; debug mode
   * is on exactly for a `DEBUG` that reads `true` padded with white space.
   */
  function SettingsFor(installDir: string, libs: string, target: string, sources: seq<string>, debug: Option<string>): (s: Settings)
    ensures s.libs == libs && s.targetApk == target
    ensures installDir <= s.workingDir && |WorkspaceName| <= |s.workingDir|
    ensures s.workingDir[|s.workingDir| - |WorkspaceName|..] == WorkspaceName
    ensures s.sourceAar.Some? <==> sources != []
    ensures s.sourceAar.Some? ==> s.sourceAar.value == sources[0]
    ensures s.isDebug <==> debug.Some? && PaddedTrue(debug.value)
  {
    JoinExtends(installDir, WorkspaceName);
    JoinEndsWith(installDir, WorkspaceName);
    DebugIffPaddedTrue(debug);
    Settings(Join(installDir, WorkspaceName), libs, target, if sources == [] then None else Some(sources[0]), IsDebug(debug))
  }

  /** The workspace path ends in a separator, so what the stages join onto it follows directly. */
  lemma WorkspaceEndsInSeparator(installDir: string)
    ensures var wd := Join(installDir, WorkspaceName);
      wd != "" && wd[|wd| - 1] == Separator && Join(wd, DecompiledApk) == wd + DecompiledApk
  {
  }

  // ---- reporting ----

  /** What is printed once the run ends: the raw error only in debug mode, then the verdict line. */
  function Report(r: RunResult, isDebug: bool): (lines: seq<Line>) {
    match r.failure
    case None => [Stdout(SuccessMessage)]
    case Some(e) => (if isDebug then [Stderr(Message(e))] else []) + [Stdout(FailureMessage)]
  }

  /**
   * The last line is the verdict on standard output, the success line exactly when no stage
   * failed; a failed run prints the error before it exactly in debug mode, and nothing else
   * is ever written to standard error.
   */
  lemma ReportVerdict(r: RunResult, isDebug: bool)
    ensures var lines := Report(r, isDebug);
      && 0 < |lines| <= 2
      && lines[|lines| - 1] == (if r.failure.None? then Stdout(SuccessMessage) else Stdout(FailureMessage))
      && ((exists i :: 0 <= i < |lines| && lines[i].Stderr?) <==> r.failure.Some? && isDebug)
      && (r.failure.Some? && isDebug ==> lines[0] == Stderr(Message(r.failure.value)))
  {
    var lines := Report(r, isDebug);
    if r.failure.Some? && isDebug {
      assert lines[0].Stderr?;
    }
  }

  // ---- the whole program ----

  /** What the program prints, and the run it made if the arguments passed the check. */
  datatype Outcome = Outcome(lines: seq<Line>, run: Option<RunResult>)

  /**
   * The program: a missing path is reported before anything runs; otherwise the stages run
   * and their end is reported.
   */
  function Program(installDir: string, libs: string, target: string, sources: seq<string>, debug: Option<string>,
                existing: set<string>, env: Env): (o: Outcome)
  {
    match CheckArguments(target, sources, existing)
    case Some(e) => Outcome([Stderr(Message(e))], None)
    case None =>
      var s := SettingsFor(installDir, libs, target, sources, debug);
      var r := Patch(s, env);
      Outcome(Report(r, s.isDebug), Some(r))
  }

  /** The stages run exactly when every given path exists; a missing one is the only line printed. */
  lemma RunsOnlyWhenPathsExist(installDir: string, libs: string, target: string, sources: seq<string>,
                               debug: Option<string>, existing: set<string>, env: Env)
    ensures var o := Program(installDir, libs, target, sources, debug, existing, env);
      && (o.run.Some? <==> target in existing && forall i :: 0 <= i < |sources| ==> sources[i] in existing)
      && (o.run.None? ==> exists p :: o.lines == [Stderr(Message(FileDoesNotExist(p)))] && p !in existing)
  {
    var c := CheckArguments(target, sources, existing);
    if c.Some? {
      CheckNamesFirstMissing(target, sources, existing);
      if target in existing {
        var k :| 0 <= k < |sources| && sources[k] !in existing
          && c == Some(FileDoesNotExist(sources[k]));
      }
    }
  }

  /**
   * A run that started prints the success line exactly when no stage failed, and shows the
   * raw error exactly in debug mode.
   */
  lemma ProgramReports(installDir: string, libs: string, target: string, sources: seq<string>,
                    debug: Option<string>, existing: set<string>, env: Env)
    requires Program(installDir, libs, target, sources, debug, existing, env).run.Some?
    ensures var o := Program(installDir, libs, target, sources, debug, existing, env);
      var r := o.run.value;
      && r == Patch(SettingsFor(installDir, libs, target, sources, debug), env)
      && (o.lines[|o.lines| - 1] == Stdout(SuccessMessage) <==> r.failure.None?)
      && ((exists i :: 0 <= i < |o.lines| && o.lines[i].Stderr?) <==> r.failure.Some? && IsDebug(debug))
  {
    assert CheckArguments(target, sources, existing).None?;
    var s := SettingsFor(installDir, libs, target, sources, debug);
    var r := Patch(s, env);
    assert Program(installDir, libs, target, sources, debug, existing, env) == Outcome(Report(r, s.isDebug), Some(r));
    assert s.isDebug == IsDebug(debug);
    ReportVerdict(r, s.isDebug);
  }

  /** Only the first source is used: two argument lists that pass the check and agree on it behave alike. */
  lemma OnlyFirstSourceMatters(installDir: string, libs: string, target: string, sources: seq<string>,
                               others: seq<string>, debug: Option<string>, existing: set<string>, env: Env)
    requires sources != [] && others != [] && sources[0] == others[0]
    requires forall i :: 0 <= i < |sources| ==> sources[i] in existing
    requires forall i :: 0 <= i < |others| ==> others[i] in existing
    ensures Program(installDir, libs, target, sources, debug, existing, env) ==
            Program(installDir, libs, target, others, debug, existing, env)
  {
  }

  /** A successful run reached every stage, and in it the last three skipped. */
  lemma SuccessRanAllStages(installDir: string, libs: string, target: string, sources: seq<string>,
                            debug: Option<string>, existing: set<string>, env: Env)
    requires Program(installDir, libs, target, sources, debug, existing, env).lines == [Stdout(SuccessMessage)]
    ensures var o := Program(installDir, libs, target, sources, debug, existing, env);
      && o.run.Some? && o.run.value.failure.None?
      && |o.run.value.statuses| == |Stages|
      && o.run.value.statuses[4..] == [Skipped, Skipped, Skipped]
  {
    var c := CheckArguments(target, sources, existing);
    assert c.None? by {
      if c.Some? {
        assert Stdout(SuccessMessage) != Stderr(Message(c.value));
      }
    }
    var s := SettingsFor(installDir, libs, target, sources, debug);
    ReportVerdict(Patch(s, env), s.isDebug);
    PipelineFacts.LastThreeSkip(s, env);
  }
}
