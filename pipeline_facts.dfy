/** Facts about the patch run: stage order, the first failure, and what each stage leaves. */
module PipelineFacts {
  import opened Wrappers
  import opened Errors
  import opened Strings
  import opened Paths
  import opened FileTree
  import opened Matcher
  import opened MatcherFacts
  import opened Tasks
  import opened Pipeline
  import CodeMerge
  import Baksmali

  // ---- any list of stages ----

  /**
   * Stages run in list order, each on the context the ones before it left; the run's context
   * and effects are those of the stages it reached.
   */
  lemma {:induction false} RunInOrder(stages: seq<Stage>, f: Fields, run: StageRunner)
    ensures var r := RunFrom(stages, f, run);
      && |r.statuses| <= |stages|
      && (forall j :: 0 <= j < |r.statuses| ==>
            r.statuses[j] == run(stages[j], FieldsAfter(stages, f, run, j)).status)
      && r.fields == FieldsAfter(stages, f, run, |r.statuses|)
      && r.effects == EffectsUpTo(stages, f, run, |r.statuses|)
    decreases |stages|
  {
    if stages != [] {
      var a := run(stages[0], f);
      if !a.status.Failed? {
        RunInOrder(stages[1..], a.fields, run);
        var rest := RunFrom(stages[1..], a.fields, run);
        forall j | 1 <= j < |rest.statuses| + 1
          ensures ([a.status] + rest.statuses)[j] == run(stages[j], FieldsAfter(stages, f, run, j)).status
        {
          assert stages[1..][j - 1] == stages[j];
        }
      }
    }
  }

  /** The status of one stage the run reached, on the context the stages before it left. */
  lemma StatusAt(stages: seq<Stage>, f: Fields, run: StageRunner, j: nat)
    requires j < |RunFrom(stages, f, run).statuses|
    ensures j < |stages|
    ensures RunFrom(stages, f, run).statuses[j] == run(stages[j], FieldsAfter(stages, f, run, j)).status
  {
    RunInOrder(stages, f, run);
  }

  /**
   * The first failure ends the run: a run without a failure reached every stage and none
   * failed; a failed run ends with the failing stage's status, and no stage before it failed.
   */
  lemma {:induction false} FirstFailureStops(stages: seq<Stage>, f: Fields, run: StageRunner)
    ensures var r := RunFrom(stages, f, run);
      && (r.failure.None? ==> |r.statuses| == |stages| && forall j :: 0 <= j < |r.statuses| ==> !r.statuses[j].Failed?)
      && (r.failure.Some? ==>
            && 0 < |r.statuses| <= |stages|
            && r.statuses[|r.statuses| - 1] == Failed(r.failure.value)
            && forall j :: 0 <= j < |r.statuses| - 1 ==> !r.statuses[j].Failed?)
    decreases |stages|
  {
    if stages != [] {
      var a := run(stages[0], f);
      if !a.status.Failed? {
        FirstFailureStops(stages[1..], a.fields, run);
        var rest := RunFrom(stages[1..], a.fields, run);
        assert forall j :: 1 <= j < |rest.statuses| + 1 ==> ([a.status] + rest.statuses)[j] == rest.statuses[j - 1];
      }
    }
  }

  /** A stage that failed is the run's last, and its error is the run's. */
  lemma FailedStageEnds(stages: seq<Stage>, f: Fields, run: StageRunner, j: nat)
    requires j < |RunFrom(stages, f, run).statuses| && RunFrom(stages, f, run).statuses[j].Failed?
    ensures |RunFrom(stages, f, run).statuses| == j + 1
    ensures RunFrom(stages, f, run).failure == Some(RunFrom(stages, f, run).statuses[j].error)
  {
    FirstFailureStops(stages, f, run);
  }

  /** A stage that did not fail is followed by the next stage, if there is one. */
  lemma PassedStageContinues(stages: seq<Stage>, f: Fields, run: StageRunner, j: nat)
    requires j + 1 < |stages|
    requires j < |RunFrom(stages, f, run).statuses| && !RunFrom(stages, f, run).statuses[j].Failed?
    ensures j + 1 < |RunFrom(stages, f, run).statuses|
  {
    FirstFailureStops(stages, f, run);
  }

  lemma {:induction false} FieldsAfterNext(stages: seq<Stage>, f: Fields, run: StageRunner, j: nat)
    requires j < |stages|
    ensures FieldsAfter(stages, f, run, j + 1) == run(stages[j], FieldsAfter(stages, f, run, j)).fields
    decreases j
  {
    if j > 0 {
      FieldsAfterNext(stages[1..], run(stages[0], f).fields, run, j - 1);
    }
  }

  lemma {:induction false} EffectsUpToNext(stages: seq<Stage>, f: Fields, run: StageRunner, j: nat)
    requires j < |stages|
    ensures EffectsUpTo(stages, f, run, j + 1) ==
      EffectsUpTo(stages, f, run, j) + run(stages[j], FieldsAfter(stages, f, run, j)).effects
    decreases j
  {
    var a := run(stages[0], f);
    if j > 0 {
      EffectsUpToNext(stages[1..], a.fields, run, j - 1);
      assert stages[1..][j - 1] == stages[j];
    }
  }

  // ---- single stages ----

  /** An enabled stage never reports itself disabled, so `Disabled` marks exactly the disabled stages. */
  lemma StepNeverDisabled(stage: Stage, f: Fields, s: Settings, env: Env)
    ensures Apply(stage, f, s, env).status == Disabled <==> !Enabled(stage, s)
  {
    if Enabled(stage, s) && stage == MergeCode {
      CodeMerge.MergeStatusKinds(CodeMerge.AsWritten, f, s.workingDir, s.libs, env);
    }
  }

  /** The run's merge stage is the merge stage of `src/tasks/code-merge-task.ts` in the working directory. */
  lemma RunsMerge(s: Settings, env: Env, f: Fields)
    ensures Runner(s, env)(MergeCode, f) == CodeMerge.MergeStep(CodeMerge.AsWritten, f, s.workingDir, s.libs, env)
  {
  }

  /** The three unimplemented stages skip without touching anything. */
  lemma PlaceholdersSkip(stage: Stage, f: Fields, s: Settings, env: Env)
    requires IsPlaceholder(stage)
    ensures Apply(stage, f, s, env) == StageResult(f, Skipped, [])
    ensures Runner(s, env)(stage, f) == StageResult(f, Skipped, [])
  {
  }

  /** Only the decode stage writes the decoded directory into the context. */
  lemma OnlyDecodeSetsDir(stage: Stage, f: Fields, s: Settings, env: Env)
    requires stage != DecodeTarget
    ensures Apply(stage, f, s, env).fields.apkDecompiledDir == f.apkDecompiledDir
  {
    if Enabled(stage, s) && stage == MergeCode {
      CodeMerge.MergeFields(CodeMerge.AsWritten, f, s.workingDir, s.libs, env);
    }
  }

  /** Decoding records `workingDir/decompiled-apk` and runs apktool on the target with `force` into it. */
  lemma DecodeSetsDir(f: Fields, s: Settings, env: Env)
    ensures var r := DecodeStep(f, s, env); var dir := Join(s.workingDir, DecompiledApk);
      && r.fields == f.(apkDecompiledDir := Some(dir))
      && r.effects == [RunTool(DecodeInvocation(s))]
      && DecodeInvocation(s).args == ["decode", s.targetApk, "--output", dir, "--force"]
      && (r.status.Failed? <==> (env.run(DecodeInvocation(s))).failure.Some?)
  {
  }

  /**
   * The compatibility stage, once the candidates are listed, jetifies exactly when some
   * candidate path contains `androidx`, into `workingDir/jetified.aar` from the first source
   * (the text `undefined` when no source was given), failing exactly when that run fails;
   * otherwise it records the first source as the AAR to merge and skips.
   */
  lemma JetifyDecision(f: Fields, s: Settings, env: Env)
    requires f.apkDecompiledDir.Some? && f.apkDecompiledDir.value in env.fs
    requires FirstApkDirectories(Entry(f.apkDecompiledDir.value, env.fs[f.apkDecompiledDir.value])).Ok?
    ensures var cands := FirstApkDirectories(Entry(f.apkDecompiledDir.value, env.fs[f.apkDecompiledDir.value])).value;
      var r := CompatibilityStep(f, s, env);
      && (r.status == Skipped <==> !UsesAndroidx(cands))
      && (UsesAndroidx(cands) ==> r.fields == f.(sourceAar := Some(Join(s.workingDir, JetifiedAar))))
      && (UsesAndroidx(cands) ==>
            r.effects == [RunTool(JetifyInvocation(s))] && (r.status.Failed? <==> env.run(JetifyInvocation(s)).failure.Some?))
      && (UsesAndroidx(cands) ==>
            JetifyInvocation(s).args[1] == (if s.sourceAar.Some? then s.sourceAar.value else "undefined"))
      && (!UsesAndroidx(cands) ==> r.fields == f.(sourceAar := s.sourceAar) && r.effects == [])
  {
  }

  /** The stage fails before any effect when the directory is unset, missing or not listable. */
  lemma CompatibilityErrors(f: Fields, s: Settings, env: Env)
    ensures f.apkDecompiledDir.None? ==> CompatibilityStep(f, s, env) == StageResult(f, Failed(PathUndefined), [])
    ensures f.apkDecompiledDir.Some? && f.apkDecompiledDir.value !in env.fs ==>
      CompatibilityStep(f, s, env) == StageResult(f, Failed(NoSuchDirectory(f.apkDecompiledDir.value)), [])
    ensures f.apkDecompiledDir.Some? && f.apkDecompiledDir.value in env.fs ==>
      var listed := FirstApkDirectories(Entry(f.apkDecompiledDir.value, env.fs[f.apkDecompiledDir.value]));
      listed.Err? ==> CompatibilityStep(f, s, env) == StageResult(f, Failed(listed.error), [])
  {
  }

  /** The `androidx` test looks at the full path of every child of every smali directory. */
  lemma UsesAndroidxIff(decoded: Entry)
    requires FirstApkDirectories(decoded).Ok?
    ensures UsesAndroidx(FirstApkDirectories(decoded).value) <==>
      exists k, i, c :: CandidateAt(decoded, k, i, c) && Contains(c.path, AndroidxMarker)
  {
    var cands := FirstApkDirectories(decoded).value;
    if UsesAndroidx(cands) {
      var i :| 0 <= i < |cands| && Contains(cands[i].path, AndroidxMarker);
      CandidatesAre(decoded, cands[i]);
    }
    if exists k, i, c :: CandidateAt(decoded, k, i, c) && Contains(c.path, AndroidxMarker) {
      var k, i, c :| CandidateAt(decoded, k, i, c) && Contains(c.path, AndroidxMarker);
      CandidatesAre(decoded, c);
      var n :| 0 <= n < |cands| && cands[n] == c;
    }
  }

  // ---- the patch run ----

  /** The context the decode stage leaves. */
  function Decoded(s: Settings): Fields {
    NoFields.(apkDecompiledDir := Some(Join(s.workingDir, DecompiledApk)))
  }

  /** The workspace stage leaves the empty context, and decoding sets the decoded directory. */
  lemma FieldsBeforeCompatibility(s: Settings, env: Env)
    ensures FieldsAfter(Stages, NoFields, Runner(s, env), 1) == NoFields
    ensures FieldsAfter(Stages, NoFields, Runner(s, env), 2) == Decoded(s)
  {
    FieldsAfterNext(Stages, NoFields, Runner(s, env), 0);
    FieldsAfterNext(Stages, NoFields, Runner(s, env), 1);
  }

  /** The merge stage sees what the compatibility stage left. */
  lemma FieldsBeforeMerge(s: Settings, env: Env)
    ensures FieldsAfter(Stages, NoFields, Runner(s, env), 3) == CompatibilityStep(Decoded(s), s, env).fields
  {
    FieldsBeforeCompatibility(s, env);
    FieldsAfterNext(Stages, NoFields, Runner(s, env), 2);
  }

  /** The merge stage runs on what the compatibility stage left; its fields are the fifth context and its effects follow the earlier ones. */
  lemma MergeStageInRun(s: Settings, env: Env)
    ensures var merged := CodeMerge.MergeStep(CodeMerge.AsWritten, CompatibilityStep(Decoded(s), s, env).fields, s.workingDir, s.libs, env);
      && FieldsAfter(Stages, NoFields, Runner(s, env), 4) == merged.fields
      && EffectsUpTo(Stages, NoFields, Runner(s, env), 4) == EffectsUpTo(Stages, NoFields, Runner(s, env), 3) + merged.effects
  {
    var run := Runner(s, env);
    FieldsBeforeMerge(s, env);
    FieldsAfterNext(Stages, NoFields, run, 3);
    EffectsUpToNext(Stages, NoFields, run, 3);
    var before := FieldsAfter(Stages, NoFields, run, 3);
    RunsMerge(s, env, before);
    assert Stages[3] == MergeCode;
  }

  /** A placeholder stage passes the context it sees on unchanged and adds no effects. */
  lemma PlaceholderStage(s: Settings, env: Env, k: nat)
    requires 4 <= k < |Stages|
    ensures FieldsAfter(Stages, NoFields, Runner(s, env), k + 1) == FieldsAfter(Stages, NoFields, Runner(s, env), k)
    ensures EffectsUpTo(Stages, NoFields, Runner(s, env), k + 1) == EffectsUpTo(Stages, NoFields, Runner(s, env), k)
  {
    var run := Runner(s, env);
    var before := FieldsAfter(Stages, NoFields, run, k);
    FieldsAfterNext(Stages, NoFields, run, k);
    EffectsUpToNext(Stages, NoFields, run, k);
    assert IsPlaceholder(Stages[k]);
    PlaceholdersSkip(Stages[k], before, s, env);
    assert run(Stages[k], before) == StageResult(before, Skipped, []);
  }

  /** The placeholders keep what the merge stage left. */
  lemma FieldsAfterMerge(s: Settings, env: Env)
    ensures var merged := CodeMerge.MergeStep(CodeMerge.AsWritten, CompatibilityStep(Decoded(s), s, env).fields, s.workingDir, s.libs, env);
      && FieldsAfter(Stages, NoFields, Runner(s, env), 4) == merged.fields
      && FieldsAfter(Stages, NoFields, Runner(s, env), 5) == merged.fields
      && FieldsAfter(Stages, NoFields, Runner(s, env), 6) == merged.fields
      && FieldsAfter(Stages, NoFields, Runner(s, env), 7) == merged.fields
  {
    MergeStageInRun(s, env);
    PlaceholderStage(s, env, 4);
    PlaceholderStage(s, env, 5);
    PlaceholderStage(s, env, 6);
  }

  /**
   * The context before each stage of the patch run: the workspace stage changes nothing, the
   * decode stage sets the decoded directory, the compatibility and merge stages then add
   * their fields, and the placeholders change nothing.
   */
  lemma PatchFields(s: Settings, env: Env)
    ensures var comp := CompatibilityStep(Decoded(s), s, env);
      var merged := CodeMerge.MergeStep(CodeMerge.AsWritten, comp.fields, s.workingDir, s.libs, env);
      && FieldsAfter(Stages, NoFields, Runner(s, env), 1) == NoFields
      && FieldsAfter(Stages, NoFields, Runner(s, env), 2) == Decoded(s)
      && FieldsAfter(Stages, NoFields, Runner(s, env), 3) == comp.fields
      && FieldsAfter(Stages, NoFields, Runner(s, env), 4) == merged.fields
      && FieldsAfter(Stages, NoFields, Runner(s, env), 5) == merged.fields
      && FieldsAfter(Stages, NoFields, Runner(s, env), 6) == merged.fields
      && FieldsAfter(Stages, NoFields, Runner(s, env), 7) == merged.fields
  {
    FieldsBeforeCompatibility(s, env);
    FieldsBeforeMerge(s, env);
    FieldsAfterMerge(s, env);
  }

  /** The placeholders add no effects. */
  lemma PatchEffectsAfterMerge(s: Settings, env: Env, n: nat)
    requires 4 <= n <= |Stages|
    ensures EffectsUpTo(Stages, NoFields, Runner(s, env), n) == EffectsUpTo(Stages, NoFields, Runner(s, env), 4)
    decreases n
  {
    if n > 4 {
      PatchEffectsAfterMerge(s, env, n - 1);
      PlaceholderStage(s, env, n - 1);
    }
  }

  /** The placeholders skip wherever the run reaches them. */
  lemma PatchTailSkipped(s: Settings, env: Env)
    ensures var r := Patch(s, env);
      forall j :: 4 <= j < |r.statuses| ==> r.statuses[j] == Skipped
  {
    var r := Patch(s, env);
    LastThreePlaceholders();
    forall j | 4 <= j < |r.statuses| ensures r.statuses[j] == Skipped {
      StatusAt(Stages, NoFields, Runner(s, env), j);
      PlaceholderStatusAt(Stages, NoFields, s, env, j);
    }
  }

  /** The last three stages are the placeholders. */
  lemma LastThreePlaceholders()
    ensures forall j :: 4 <= j < |Stages| ==> IsPlaceholder(Stages[j])
  {
    assert Stages[4..] == [MergeResources, MergeAssets, BuildAndSign];
  }

  /** A placeholder the run reached skipped. */
  lemma PlaceholderStatusAt(stages: seq<Stage>, f: Fields, s: Settings, env: Env, j: nat)
    requires j < |stages| && IsPlaceholder(stages[j])
    requires j < |RunFrom(stages, f, Runner(s, env)).statuses|
    ensures RunFrom(stages, f, Runner(s, env)).statuses[j] == Skipped
  {
    StatusAt(stages, f, Runner(s, env), j);
    PlaceholdersSkip(stages[j], FieldsAfter(stages, f, Runner(s, env), j), s, env);
  }

  /**
   * The run stops at the first failure, and only the first four stages can fail: the last
   * three always skip, so a run that reaches them ends without error.
   */
  lemma LastThreeSkip(s: Settings, env: Env)
    ensures var r := Patch(s, env);
      && (forall j :: 4 <= j < |r.statuses| ==> r.statuses[j] == Skipped)
      && (r.failure.Some? ==> |r.statuses| <= 4)
      && (r.failure.None? ==> |r.statuses| == 7 && r.statuses[4..] == [Skipped, Skipped, Skipped])
  {
    var r := Patch(s, env);
    PatchTailSkipped(s, env);
    FirstFailureStops(Stages, NoFields, Runner(s, env));
    if r.failure.None? {
      assert r.statuses[4] == Skipped && r.statuses[5] == Skipped && r.statuses[6] == Skipped;
    }
  }

  /**
   * The workspace stage runs exactly in debug mode, and then it is the first effect;
   * otherwise the run starts with decoding.
   */
  lemma WorkspaceOnlyInDebug(s: Settings, env: Env)
    ensures var r := Patch(s, env);
      && |r.statuses| > 0 && |r.effects| > 0
      && (r.statuses[0] == Disabled <==> !s.isDebug)
      && (s.isDebug ==> r.effects[0] == RemoveDirectory(s.workingDir))
      && (!s.isDebug ==> r.effects[0] == RunTool(DecodeInvocation(s)))
  {
    var a0 := Apply(PrepareWorkspace, NoFields, s, env);
    RunFromStep(Stages, NoFields, Runner(s, env), a0);
    if !s.isDebug {
      var a1 := Apply(DecodeTarget, NoFields, s, env);
      assert Stages[1..][0] == DecodeTarget;
      RunFromStep(Stages[1..], NoFields, Runner(s, env), a1);
    }
  }

  /** Once decoding has run, the context holds `workingDir/decompiled-apk` to the end of the run. */
  lemma DecodedDirKept(s: Settings, env: Env)
    requires |Patch(s, env).statuses| >= 2
    ensures Patch(s, env).fields.apkDecompiledDir == Some(Join(s.workingDir, DecompiledApk))
  {
    var r := Patch(s, env);
    RunInOrder(Stages, NoFields, Runner(s, env));
    assert r.fields == FieldsAfter(Stages, NoFields, Runner(s, env), |r.statuses|);
    DirAfterDecode(s, env, |r.statuses|);
  }

  /** Every context from the third on holds the decoded directory. */
  lemma DirAfterDecode(s: Settings, env: Env, k: nat)
    requires 2 <= k <= |Stages|
    ensures FieldsAfter(Stages, NoFields, Runner(s, env), k).apkDecompiledDir == Some(Join(s.workingDir, DecompiledApk))
  {
    PatchFields(s, env);
    var comp := CompatibilityStep(Decoded(s), s, env);
    OnlyDecodeSetsDir(EnsureCompatibility, Decoded(s), s, env);
    OnlyDecodeSetsDir(MergeCode, comp.fields, s, env);
  }

  /** A run that reaches a stage ran every stage before it without failure. */
  lemma PatchNoEarlyFailure(s: Settings, env: Env, n: nat)
    requires n < |Patch(s, env).statuses|
    ensures forall j :: 0 <= j < n ==> !Patch(s, env).statuses[j].Failed?
  {
    FirstFailureStops(Stages, NoFields, Runner(s, env));
  }

  /** The third stage's status is the compatibility stage's on the decoded context. */
  lemma PatchCompatibilityStatus(s: Settings, env: Env)
    requires 2 < |Patch(s, env).statuses|
    ensures Patch(s, env).statuses[2] == CompatibilityStep(Decoded(s), s, env).status
  {
    var run := Runner(s, env);
    StatusAt(Stages, NoFields, run, 2);
    FieldsBeforeCompatibility(s, env);
    assert Stages[2] == EnsureCompatibility;
  }

  /** The fourth stage's status is the merge stage's on what the compatibility stage left. */
  lemma PatchMergeStatus(s: Settings, env: Env)
    requires 3 < |Patch(s, env).statuses|
    ensures Patch(s, env).statuses[3] ==
      CodeMerge.MergeStep(CodeMerge.AsWritten, CompatibilityStep(Decoded(s), s, env).fields, s.workingDir, s.libs, env).status
  {
    var run := Runner(s, env);
    var before := FieldsAfter(Stages, NoFields, run, 3);
    StatusAt(Stages, NoFields, run, 3);
    FieldsBeforeMerge(s, env);
    RunsMerge(s, env, before);
    assert Stages[3] == MergeCode;
  }

  /** A run that reaches a stage ran every stage before it without failure, in the contexts traced above. */
  lemma PatchReaches(s: Settings, env: Env, n: nat)
    requires n < |Patch(s, env).statuses|
    ensures var r := Patch(s, env);
      var comp := CompatibilityStep(Decoded(s), s, env);
      && (forall j :: 0 <= j < n ==> !r.statuses[j].Failed?)
      && (n >= 2 ==> r.statuses[2] == comp.status)
      && (n >= 3 ==> r.statuses[3] == CodeMerge.MergeStep(CodeMerge.AsWritten, comp.fields, s.workingDir, s.libs, env).status)
  {
    PatchNoEarlyFailure(s, env, n);
    if n >= 2 {
      PatchCompatibilityStatus(s, env);
    }
    if n >= 3 {
      PatchMergeStatus(s, env);
    }
  }

  /**
   * A compatibility stage that did not fail keeps the references the merge guard tests: the
   * source AAR when it skipped, the jetified AAR when it jetified.
   */
  lemma CompatKeepsReferences(s: Settings, env: Env)
    requires Truthy(s.sourceAar)
    requires !CompatibilityStep(Decoded(s), s, env).status.Failed?
    ensures var comp := CompatibilityStep(Decoded(s), s, env);
      && CodeMerge.HasReferences(comp.fields)
      && comp.fields.sourceAar.value ==
           (if comp.status == Skipped then s.sourceAar.value else Join(s.workingDir, JetifiedAar))
  {
    var f2 := Decoded(s);
    var dir := Join(s.workingDir, DecompiledApk);
    assert dir != "";
    assert dir in env.fs && FirstApkDirectories(Entry(dir, env.fs[dir])).Ok?;
    JetifyDecision(f2, s, env);
  }

  /**
   * With a source AAR given, the merge stage's guard never fires in the run: when the run
   * reaches that stage it extracts `classes.jar` from the jetified AAR, or from the source
   * when the compatibility stage skipped.
   */
  lemma MergeGuardPasses(s: Settings, env: Env)
    requires Truthy(s.sourceAar)
    requires |Patch(s, env).statuses| >= 4
    ensures var r := Patch(s, env);
      var aar := if r.statuses[2] == Skipped then s.sourceAar.value else Join(s.workingDir, JetifiedAar);
      && CodeMerge.HasReferences(FieldsAfter(Stages, NoFields, Runner(s, env), 3))
      && ExtractEntry(aar, CodeMerge.ClassesJar, s.workingDir) in r.effects
  {
    var r := Patch(s, env);
    PatchReaches(s, env, 3);
    FieldsBeforeMerge(s, env);
    var comp := CompatibilityStep(Decoded(s), s, env);
    CompatKeepsReferences(s, env);
    CodeMerge.GuardFirst(CodeMerge.AsWritten, comp.fields, s.workingDir, s.libs, env);
    var merged := CodeMerge.MergeStep(CodeMerge.AsWritten, comp.fields, s.workingDir, s.libs, env);
    MergeEffectsInRun(s, env);
    assert merged.effects[0] in r.effects;
  }

  /** A run that reaches the merge stage ends with that stage's effects. */
  lemma MergeEffectsInRun(s: Settings, env: Env)
    requires |Patch(s, env).statuses| >= 4
    ensures var comp := CompatibilityStep(Decoded(s), s, env);
      var merged := CodeMerge.MergeStep(CodeMerge.AsWritten, comp.fields, s.workingDir, s.libs, env);
      Patch(s, env).effects == EffectsUpTo(Stages, NoFields, Runner(s, env), 3) + merged.effects
  {
    var r := Patch(s, env);
    RunInOrder(Stages, NoFields, Runner(s, env));
    assert r.effects == EffectsUpTo(Stages, NoFields, Runner(s, env), |r.statuses|);
    PatchEffectsAfterMerge(s, env, |r.statuses|);
    MergeStageInRun(s, env);
  }

  /** A compatibility stage that skipped passes an undefined source on unchanged. */
  lemma CompatKeepsMissingSource(s: Settings, env: Env)
    requires s.sourceAar.None?
    requires CompatibilityStep(Decoded(s), s, env).status == Skipped
    ensures !CodeMerge.HasReferences(CompatibilityStep(Decoded(s), s, env).fields)
  {
    var f2 := Decoded(s);
    var dir := Join(s.workingDir, DecompiledApk);
    assert dir in env.fs && FirstApkDirectories(Entry(dir, env.fs[dir])).Ok?;
    JetifyDecision(f2, s, env);
  }

  /** Without a source AAR and without AndroidX in the target, the merge stage's guard ends the run. */
  lemma MissingSourceFailsMerge(s: Settings, env: Env)
    requires s.sourceAar.None?
    requires |Patch(s, env).statuses| >= 3 && Patch(s, env).statuses[2] == Skipped
    ensures Patch(s, env).failure == Some(ContextMissing) && |Patch(s, env).statuses| == 4
  {
    var r := Patch(s, env);
    PassedStageContinues(Stages, NoFields, Runner(s, env), 2);
    PatchCompatibilityStatus(s, env);
    PatchMergeStatus(s, env);
    var comp := CompatibilityStep(Decoded(s), s, env);
    CompatKeepsMissingSource(s, env);
    CodeMerge.GuardFirst(CodeMerge.AsWritten, comp.fields, s.workingDir, s.libs, env);
    assert r.statuses[3] == Failed(ContextMissing);
    FailedStageEnds(Stages, NoFields, Runner(s, env), 3);
  }

  /** The decoded directory ends in its own name. */
  lemma DecodedDirEndsInName(wd: string)
    ensures LastSegment(Join(wd, DecompiledApk)) == Some(DecompiledApk)
  {
    LastSegmentOfJoin(wd, DecompiledApk);
  }

  /**
   * A single-dex target ends the run in the merge stage. The run has a source AAR and reaches
   * that stage, archive and tools succeed, the first library package is the only candidate of
   * its name, and no library entry is named `decompiled-apk`. The root is then the decoded
   * directory, and the copy of the missing `decompiled-aar/decompiled-apk` fails with ENOENT.
   */
  lemma UniqueMatchRunFails(s: Settings, env: Env)
    requires Truthy(s.sourceAar) && |Patch(s, env).statuses| >= 4
    requires env.extract.None? && env.run(CodeMerge.CompileStep(s.workingDir, s.libs)).failure.None?
    requires Baksmali.Observe(env.run(CodeMerge.DisassembleStep(s.workingDir, s.libs))).failure.None?
    requires var aarDir := Join(s.workingDir, CodeMerge.DecompiledAar); var apkDir := Join(s.workingDir, DecompiledApk);
      && aarDir in env.fs && apkDir in env.fs
      && var lib := Entry(aarDir, env.fs[aarDir]); var decoded := Entry(apkDir, env.fs[apkDir]);
      && WellFormed(lib.node) && WellFormed(decoded.node)
      && lib.node.Folder? && |lib.node.children| > 0 && FirstApkDirectories(decoded).Ok?
      && UniqueMatch(Child(lib, 0), FirstApkDirectories(decoded).value)
      && !HasChildNamed(lib.node, DecompiledApk)
    ensures |Patch(s, env).statuses| == 4
    ensures Patch(s, env).failure == Some(NoSuchFile(Join(s.workingDir, CodeMerge.DecompiledAar) + "/" + DecompiledApk))
  {
    var comp := CompatibilityStep(Decoded(s), s, env);
    PatchReaches(s, env, 3);
    CompatKeepsReferences(s, env);
    DirAfterDecode(s, env, 3);
    FieldsBeforeMerge(s, env);
    DecodedDirEndsInName(s.workingDir);
    CodeMerge.UniqueMatchStage(comp.fields, s.workingDir, s.libs, env);
    FailedStageEnds(Stages, NoFields, Runner(s, env), 3);
  }
}
