/**
 * The patch run of `src/index.ts`: seven stages declared in a fixed order over one shared
 * context. A stage may be disabled (then it never runs), may mark itself skipped, may succeed
 * or may fail; the first failure ends the run.
 */
module Pipeline {
  import opened Wrappers
  import opened Errors
  import opened Strings
  import opened Paths
  import opened FileTree
  import opened ToolRun
  import opened Matcher
  import opened Tasks
  import ApkTool
  import Jetifier
  import CodeMerge

  datatype Stage =
    | PrepareWorkspace      // debug only: remove the working directory
    | DecodeTarget          // apktool decode of the target APK
    | EnsureCompatibility   // jetify the AAR when the target uses AndroidX
    | MergeCode             // the merge stage of `src/tasks/code-merge-task.ts`
    | MergeResources        // not implemented: always skips
    | MergeAssets           // not implemented: always skips
    | BuildAndSign          // not implemented: always skips

  const Stages: seq<Stage> :=
    [PrepareWorkspace, DecodeTarget, EnsureCompatibility, MergeCode, MergeResources, MergeAssets, BuildAndSign]

  const DecompiledApk: string := "decompiled-apk"
  const JetifiedAar: string := "jetified.aar"
  const AndroidxMarker: string := "androidx"

  /**
   * What a run is configured with: the working directory, the directory of bundled tools, the
   * target APK, the first source AAR (absent when none was given) and whether debug mode is on.
   */
  datatype Settings = Settings(workingDir: string, libs: string, targetApk: string, sourceAar: Option<string>, isDebug: bool)

  predicate Enabled(stage: Stage, s: Settings) {
    stage != PrepareWorkspace || s.isDebug
  }

  predicate IsPlaceholder(stage: Stage) {
    stage == MergeResources || stage == MergeAssets || stage == BuildAndSign
  }

  // ---- the stages ----

  function PrepareStep(f: Fields, s: Settings, env: Env): StageResult {
    var status := if env.remove.Some? then Failed(RemoveFailure(env.remove.value)) else Succeeded;
    StageResult(f, status, [RemoveDirectory(s.workingDir)])
  }

  function DecodeInvocation(s: Settings): Invocation {
    ApkTool.DecodeInvocation(s.libs, s.targetApk, Join(s.workingDir, DecompiledApk), true)
  }

  /** The decode stage records the output directory in the context, then runs apktool with `force`. */
  function DecodeStep(f: Fields, s: Settings, env: Env): StageResult {
    var inv := DecodeInvocation(s);
    StageResult(f.(apkDecompiledDir := Some(Join(s.workingDir, DecompiledApk))),
                ToolStatus(ApkTool.Observe(env.run(inv))), [RunTool(inv)])
  }

  /** Some candidate's full path contains `androidx`. */
  predicate UsesAndroidx(cands: seq<Entry>) {
    exists i :: 0 <= i < |cands| && Contains(cands[i].path, AndroidxMarker)
  }

  /** An argument as the started process receives it: an undefined one arrives as the text `undefined`. */
  function ArgText(o: Option<string>): string {
    if o.Some? then o.value else "undefined"
  }

  /** The jetifier run on the first source, into the workspace. */
  function JetifyInvocation(s: Settings): Invocation {
    Jetifier.JetifyInvocation(s.libs, ArgText(s.sourceAar), Join(s.workingDir, JetifiedAar))
  }

  /** With AndroidX in the target the AAR is jetified into the workspace; otherwise the stage skips. */
  function JetifyOrSkip(f: Fields, s: Settings, env: Env, cands: seq<Entry>): StageResult {
    if UsesAndroidx(cands) then
      var f' := f.(sourceAar := Some(Join(s.workingDir, JetifiedAar)));
      StageResult(f', ToolStatus(env.run(JetifyInvocation(s))), [RunTool(JetifyInvocation(s))])
    else StageResult(f.(sourceAar := s.sourceAar), Skipped, [])
  }

  /** The compatibility stage lists the same candidates as the matcher's top level. */
  function CompatibilityStep(f: Fields, s: Settings, env: Env): StageResult {
    if f.apkDecompiledDir.None? then StageResult(f, Failed(PathUndefined), [])
    else
      var dir := f.apkDecompiledDir.value;
      if dir !in env.fs then StageResult(f, Failed(NoSuchDirectory(dir)), [])
      else
        match FirstApkDirectories(Entry(dir, env.fs[dir]))
        case Err(e) => StageResult(f, Failed(e), [])
        case Ok(cands) => JetifyOrSkip(f, s, env, cands)
  }

  function Step(stage: Stage, f: Fields, s: Settings, env: Env): StageResult {
    match stage
    case PrepareWorkspace => PrepareStep(f, s, env)
    case DecodeTarget => DecodeStep(f, s, env)
    case EnsureCompatibility => CompatibilityStep(f, s, env)
    case MergeCode => CodeMerge.MergeStep(CodeMerge.AsWritten, f, s.workingDir, s.libs, env)
    case _ => StageResult(f, Skipped, [])
  }

  /** A stage as the run treats it: a disabled stage changes nothing. */
  function Apply(stage: Stage, f: Fields, s: Settings, env: Env): StageResult {
    if Enabled(stage, s) then Step(stage, f, s, env) else StageResult(f, Disabled, [])
  }

  // ---- the run ----

  /** The final context, the status of each stage reached, all effects, and the error of the failed stage. */
  datatype RunResult = RunResult(fields: Fields, statuses: seq<Status>, effects: seq<Effect>, failure: Option<Error>)

  /** Puts the statuses and effects of earlier stages in front of a run's. */
  function Preceded(statuses: seq<Status>, effects: seq<Effect>, r: RunResult): RunResult {
    r.(statuses := statuses + r.statuses, effects := effects + r.effects)
  }

  /** What running a stage on a context gives, under one configuration and environment. */
  type StageRunner = (Stage, Fields) -> StageResult

  /** This program's stages under settings `s` and environment `env`. */
  function Runner(s: Settings, env: Env): StageRunner {
    (stage: Stage, f: Fields) => Apply(stage, f, s, env)
  }

  /** Listr's sequential run: each stage on the context the previous one left, up to the first failure. */
  function RunFrom(stages: seq<Stage>, f: Fields, run: StageRunner): RunResult
    decreases |stages|
  {
    if stages == [] then RunResult(f, [], [], None)
    else
      var a := run(stages[0], f);
      if a.status.Failed? then RunResult(a.fields, [a.status], a.effects, Some(a.status.error))
      else Preceded([a.status], a.effects, RunFrom(stages[1..], a.fields, run))
  }

  /** The whole run, from an empty context. */
  function Patch(s: Settings, env: Env): RunResult {
    RunFrom(Stages, NoFields, Runner(s, env))
  }

  /** The context after the first `j` stages, each run on what the ones before it left. */
  function FieldsAfter(stages: seq<Stage>, f: Fields, run: StageRunner, j: nat): Fields
    requires j <= |stages|
    decreases j
  {
    if j == 0 then f else FieldsAfter(stages[1..], run(stages[0], f).fields, run, j - 1)
  }

  /** The effects of the first `j` stages, in order. */
  function EffectsUpTo(stages: seq<Stage>, f: Fields, run: StageRunner, j: nat): seq<Effect>
    requires j <= |stages|
    decreases j
  {
    if j == 0 then []
    else
      var a := run(stages[0], f);
      a.effects + EffectsUpTo(stages[1..], a.fields, run, j - 1)
  }

  // ---- the run as the program performs it ----

  /** One stage, reading and writing the shared context in place. */
  method RunStage(stage: Stage, ctx: Context, s: Settings, env: Env) returns (status: Status, effects: seq<Effect>)
    modifies ctx
    ensures StageResult(ctx.Current(), status, effects) == Step(stage, old(ctx.Current()), s, env)
  {
    match stage {
      case PrepareWorkspace =>
        effects := [RemoveDirectory(s.workingDir)];
        status := if env.remove.Some? then Failed(RemoveFailure(env.remove.value)) else Succeeded;
      case DecodeTarget =>
        ctx.apkDecompiledDir := Some(Join(s.workingDir, DecompiledApk));
        var inv := DecodeInvocation(s);
        effects := [RunTool(inv)];
        status := ToolStatus(ApkTool.Observe(env.run(inv)));
      case EnsureCompatibility =>
        effects := [];
        if ctx.apkDecompiledDir.None? {
          return Failed(PathUndefined), effects;
        }
        var dir := ctx.apkDecompiledDir.value;
        if dir !in env.fs {
          return Failed(NoSuchDirectory(dir)), effects;
        }
        var cands := FirstApkDirectories(Entry(dir, env.fs[dir]));
        if cands.Err? {
          return Failed(cands.error), effects;
        }
        if UsesAndroidx(cands.value) {
          ctx.sourceAar := Some(Join(s.workingDir, JetifiedAar));
          var inv := JetifyInvocation(s);
          effects := [RunTool(inv)];
          status := ToolStatus(env.run(inv));
        } else {
          ctx.sourceAar := s.sourceAar;
          status := Skipped;
        }
      case MergeCode =>
        status, effects := CodeMerge.MergeCode(CodeMerge.AsWritten, ctx, s.workingDir, s.libs, env);
      case _ =>
        status, effects := Skipped, [];
    }
  }

  lemma RunFromStep(stages: seq<Stage>, f: Fields, run: StageRunner, a: StageResult)
    requires stages != [] && a == run(stages[0], f)
    ensures RunFrom(stages, f, run) ==
      if a.status.Failed? then RunResult(a.fields, [a.status], a.effects, Some(a.status.error))
      else Preceded([a.status], a.effects, RunFrom(stages[1..], a.fields, run))
  {
  }

  lemma PrecededTwice(s1: seq<Status>, e1: seq<Effect>, s2: seq<Status>, e2: seq<Effect>, r: RunResult)
    ensures Preceded(s1, e1, Preceded(s2, e2, r)) == Preceded(s1 + s2, e1 + e2, r)
  {
    assert s1 + (s2 + r.statuses) == (s1 + s2) + r.statuses;
    assert e1 + (e2 + r.effects) == (e1 + e2) + r.effects;
  }

  /** A stage as the run treats it: a disabled stage is not run. */
  method ApplyStage(stage: Stage, ctx: Context, s: Settings, env: Env) returns (a: StageResult)
    modifies ctx
    ensures a == Apply(stage, old(ctx.Current()), s, env) && a.fields == ctx.Current()
  {
    if Enabled(stage, s) {
      var status, effects := RunStage(stage, ctx, s, env);
      a := StageResult(ctx.Current(), status, effects);
    } else {
      a := StageResult(ctx.Current(), Disabled, []);
    }
  }

  /** The Listr run: the stages in declared order over one fresh context, stopping at the first failure. */
  method RunPatch(s: Settings, env: Env) returns (r: RunResult)
    ensures r == Patch(s, env)
  {
    var ctx := new Context();
    var statuses: seq<Status> := [];
    var effects: seq<Effect> := [];
    var i := 0;
    assert Stages[0..] == Stages;
    while i < |Stages|
      invariant 0 <= i <= |Stages|
      invariant Patch(s, env) == Preceded(statuses, effects, RunFrom(Stages[i..], ctx.Current(), Runner(s, env)))
    {
      var before := ctx.Current();
      var a := ApplyStage(Stages[i], ctx, s, env);
      RunFromStep(Stages[i..], before, Runner(s, env), a);
      if a.status.Failed? {
        return RunResult(a.fields, statuses + [a.status], effects + a.effects, Some(a.status.error));
      }
      assert Stages[i..][1..] == Stages[i + 1..];
      PrecededTwice(statuses, effects, [a.status], a.effects, RunFrom(Stages[i + 1..], a.fields, Runner(s, env)));
      statuses := statuses + [a.status];
      effects := effects + a.effects;
      i := i + 1;
    }
    r := RunResult(ctx.Current(), statuses, effects, None);
  }
}
