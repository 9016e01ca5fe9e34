/**
 * The merge stage (`src/tasks/code-merge-task.ts`): after a guard on the context, four steps
 * run in order, the first failure ending the stage. The library's `classes.jar` is extracted
 * from the AAR, compiled to `classes.dex` and disassembled; then the shared root is located
 * and the library's package copied into it. The stage takes the search it locates the root
 * with: `getSharedRoot` as written, which the patch run uses, or the corrected search of
 * `CorrectedRoot`.
 */
module CodeMerge {
  import opened Wrappers
  import opened Errors
  import opened Paths
  import opened FileTree
  import opened ToolRun
  import opened Matcher
  import opened MatcherFacts
  import opened CorrectedRoot
  import opened Tasks
  import D8
  import Baksmali

  const ClassesJar: string := "classes.jar"
  const ClassesDex: string := "classes.dex"
  const DecompiledAar: string := "decompiled-aar"

  /** A recursive copy of `source` into `destination`. */
  datatype CopyPlan = CopyPlan(source: string, destination: string)

  /** The guard: both the AAR to merge and the decoded target directory must be set and not empty. */
  predicate HasReferences(f: Fields) {
    Truthy(f.sourceAar) && Truthy(f.apkDecompiledDir)
  }

  /** Which shared-root search the stage runs. */
  datatype Search = AsWritten | Corrected

  /** `getSharedRoot(lib, decoded, true)` as written, or with the top-level unique match corrected. */
  function Locate(search: Search, lib: Entry, decoded: Entry): Result<Option<string>, Error> {
    match search
    case AsWritten => SharedRoot(lib, decoded, true)
    case Corrected => CorrectedSharedRoot(lib, decoded)
  }

  /**
   * The search of line 40 against the trees of `fs`. The library directory is read first, so
   * its errors come first.
   */
  function Reconcile(search: Search, fs: map<string, Node>, aarDir: string, apkDir: string): Result<Option<string>, Error> {
    if aarDir !in fs then Err(NoSuchDirectory(aarDir))
    else if fs[aarDir].File? then Err(NotADirectory(aarDir))
    else if apkDir !in fs then Err(NoSuchDirectory(apkDir))
    else Locate(search, Entry(aarDir, fs[aarDir]), Entry(apkDir, fs[apkDir]))
  }

  /**
   * Whether the recursive copy finds its source: a path directly under the library directory
   * exists exactly when it is one of that directory's entries.
   */
  predicate InLibrary(fs: map<string, Node>, aarDir: string, source: string) {
    && aarDir in fs && fs[aarDir].Folder?
    && exists k :: 0 <= k < |fs[aarDir].children| && Child(Entry(aarDir, fs[aarDir]), k).path == source
  }

  /** The copy source is the root's last segment placed under `aarDir/`. */
  lemma CopySourceSegment(aarDir: string, sharedRoot: Option<string>)
    ensures sharedRoot.Some? && LastSegment(sharedRoot.value).Some? ==>
      var name := LastSegment(sharedRoot.value).value;
      && aarDir + "/" <= aarDir + "/" + name
      && LastSegment(aarDir + "/" + name) == Some(name)
  {
    if sharedRoot.Some? && LastSegment(sharedRoot.value).Some? {
      var name := LastSegment(sharedRoot.value).value;
      TailAfterSeparator(aarDir + "/", name);
    }
  }

  /**
   * What to copy for a shared root: the library directory's entry named like the root's last
   * segment, into the root. An undefined root, or one whose last segment the regular expression
   * cannot find, throws.
   */
  function PlanCopy(aarDir: string, sharedRoot: Option<string>): (r: Result<CopyPlan, Error>)
    ensures sharedRoot.None? ==> r == Err(NoSharedRoot)
    ensures sharedRoot.Some? ==> (r.Ok? <==> LastSegment(sharedRoot.value).Some?)
    ensures sharedRoot.Some? && r.Err? ==> r.error == NoPathSegment(sharedRoot.value)
    ensures r.Ok? ==> r.value.destination == sharedRoot.value
    ensures r.Ok? ==> aarDir + "/" <= r.value.source
    ensures r.Ok? ==> LastSegment(r.value.source) == LastSegment(r.value.destination)
  {
    CopySourceSegment(aarDir, sharedRoot);
    match sharedRoot
    case None => Err(NoSharedRoot)
    case Some(root) =>
      match LastSegment(root)
      case None => Err(NoPathSegment(root))
      case Some(name) => Ok(CopyPlan(aarDir + "/" + name, root))
  }

  /** For a root that ends in an entry name, the copy's source is the library entry of that name. */
  lemma PlanCopyOfJoin(aarDir: string, dir: string, name: string)
    requires IsEntryName(name)
    ensures PlanCopy(aarDir, Some(Join(dir, name))) == Ok(CopyPlan(aarDir + "/" + name, Join(dir, name)))
  {
    LastSegmentOfJoin(dir, name);
  }

  /** The D8 and baksmali runs of the stage, with their default options. */
  function CompileStep(wd: string, libs: string): Invocation {
    D8.CompileInvocation(libs, Join(wd, ClassesJar), wd)
  }

  function DisassembleStep(wd: string, libs: string): Invocation {
    Baksmali.DisassembleInvocation(libs, Join(wd, ClassesDex), Join(wd, DecompiledAar))
  }

  /**
   * The "Merge packages" sub-step on the search's answer: an error or an undefined root, or a
   * root without a last segment, fails the stage; otherwise the copy runs, failing with
   * ENOENT when its source is missing and otherwise as `copy` says.
   */
  function MergePackages(f: Fields, aarDir: string, found: Result<Option<string>, Error>, fs: map<string, Node>,
                         copy: Option<string>, done: seq<Effect>): StageResult {
    match found
    case Err(e) => StageResult(f, Failed(e), done)
    case Ok(root) =>
      match PlanCopy(aarDir, root)
      case Err(e) => StageResult(f, Failed(e), done)
      case Ok(plan) =>
        var copied := done + [CopyTree(plan.source, plan.destination)];
        if !InLibrary(fs, aarDir, plan.source) then StageResult(f, Failed(NoSuchFile(plan.source)), copied)
        else if copy.Some? then StageResult(f, Failed(CopyFailure(copy.value)), copied)
        else StageResult(f, Succeeded, copied)
  }

  /**
   * A merge that succeeded had a root with a last segment and copied the library entry named
   * by it, which exists.
   */
  lemma MergePackagesSucceeds(f: Fields, aarDir: string, found: Result<Option<string>, Error>, fs: map<string, Node>,
                              copy: Option<string>, done: seq<Effect>)
    requires MergePackages(f, aarDir, found, fs, copy, done).status == Succeeded
    ensures found.Ok? && found.value.Some? && LastSegment(found.value.value).Some? && copy.None?
    ensures InLibrary(fs, aarDir, aarDir + "/" + LastSegment(found.value.value).value)
    ensures MergePackages(f, aarDir, found, fs, copy, done) ==
      StageResult(f, Succeeded, done + [CopyTree(aarDir + "/" + LastSegment(found.value.value).value, found.value.value)])
  {
  }

  /** The sub-steps after the compile step: record the output directory, disassemble, merge. */
  function AfterCompile(search: Search, f: Fields, wd: string, libs: string, env: Env, done: seq<Effect>): StageResult
    requires f.apkDecompiledDir.Some?
  {
    var aarDir := Join(wd, DecompiledAar);
    var f' := f.(aarDecompileDir := Some(aarDir));
    var dis := DisassembleStep(wd, libs);
    var done' := done + [RunTool(dis)];
    var observed := Baksmali.Observe(env.run(dis));
    if observed.failure.Some? then StageResult(f', Failed(ToolFailure(observed.failure.value)), done')
    else MergePackages(f', aarDir, Reconcile(search, env.fs, aarDir, f.apkDecompiledDir.value), env.fs, env.copy, done')
  }

  /** The whole merge stage, run in working directory `wd` with the bundled tools in `libs`. */
  function MergeStep(search: Search, f: Fields, wd: string, libs: string, env: Env): StageResult {
    if !HasReferences(f) then StageResult(f, Failed(ContextMissing), [])
    else
      var extract := ExtractEntry(f.sourceAar.value, ClassesJar, wd);
      if env.extract.Some? then StageResult(f, Failed(ArchiveFailure(env.extract.value)), [extract])
      else
        var dex := CompileStep(wd, libs);
        var compiled := env.run(dex);
        if compiled.failure.Some? then StageResult(f, Failed(ToolFailure(compiled.failure.value)), [extract, RunTool(dex)])
        else AfterCompile(search, f, wd, libs, env, [extract, RunTool(dex)])
  }

  /** The stage as the program runs it, updating the context in place. */
  method MergeCode(search: Search, ctx: Context, wd: string, libs: string, env: Env) returns (status: Status, effects: seq<Effect>)
    modifies ctx
    ensures StageResult(ctx.Current(), status, effects) == MergeStep(search, old(ctx.Current()), wd, libs, env)
  {
    if !Truthy(ctx.sourceAar) || !Truthy(ctx.apkDecompiledDir) {
      return Failed(ContextMissing), [];
    }
    var extract := ExtractEntry(ctx.sourceAar.value, ClassesJar, wd);
    if env.extract.Some? {
      return Failed(ArchiveFailure(env.extract.value)), [extract];
    }
    var dex := CompileStep(wd, libs);
    var compiled := env.run(dex);
    if compiled.failure.Some? {
      return Failed(ToolFailure(compiled.failure.value)), [extract, RunTool(dex)];
    }
    status, effects := FinishMerge(search, ctx, wd, libs, env, [extract, RunTool(dex)]);
  }

  /** The sub-steps after compiling, updating the context in place. */
  method FinishMerge(search: Search, ctx: Context, wd: string, libs: string, env: Env, done: seq<Effect>)
    returns (status: Status, effects: seq<Effect>)
    requires ctx.apkDecompiledDir.Some?
    modifies ctx
    ensures StageResult(ctx.Current(), status, effects) == AfterCompile(search, old(ctx.Current()), wd, libs, env, done)
  {
    ctx.aarDecompileDir := Some(Join(wd, DecompiledAar));
    var dis := DisassembleStep(wd, libs);
    effects := done + [RunTool(dis)];
    var observed := Baksmali.Observe(env.run(dis));
    if observed.failure.Some? {
      return Failed(ToolFailure(observed.failure.value)), effects;
    }
    var root := Reconcile(search, env.fs, ctx.aarDecompileDir.value, ctx.apkDecompiledDir.value);
    if root.Err? {
      return Failed(root.error), effects;
    }
    var plan := PlanCopy(ctx.aarDecompileDir.value, root.value);
    if plan.Err? {
      return Failed(plan.error), effects;
    }
    effects := effects + [CopyTree(plan.value.source, plan.value.destination)];
    if !InLibrary(env.fs, ctx.aarDecompileDir.value, plan.value.source) {
      return Failed(NoSuchFile(plan.value.source)), effects;
    }
    if env.copy.Some? {
      return Failed(CopyFailure(env.copy.value)), effects;
    }
    status := Succeeded;
  }

  // ---- what the stage does, with either search ----

  /**
   * The guard fails the stage before anything happens, leaving the context alone; once it
   * passes, the stage's first effect is extracting `classes.jar` from the AAR into `wd`.
   */
  lemma GuardFirst(search: Search, f: Fields, wd: string, libs: string, env: Env)
    ensures !HasReferences(f) <==> MergeStep(search, f, wd, libs, env).effects == []
    ensures !HasReferences(f) ==> MergeStep(search, f, wd, libs, env) == StageResult(f, Failed(ContextMissing), [])
    ensures HasReferences(f) ==> MergeStep(search, f, wd, libs, env).effects[0] == ExtractEntry(f.sourceAar.value, ClassesJar, wd)
  {
    if HasReferences(f) && env.extract.None? && env.run(CompileStep(wd, libs)).failure.None? {
      var done := [ExtractEntry(f.sourceAar.value, ClassesJar, wd), RunTool(CompileStep(wd, libs))];
      assert MergeStep(search, f, wd, libs, env) == AfterCompile(search, f, wd, libs, env, done);
      AfterCompileFailures(search, f, wd, libs, env, done);
    }
  }

  /** What the sub-steps after compiling did when they succeeded. */
  lemma AfterCompileSucceeds(search: Search, f: Fields, wd: string, libs: string, env: Env, done: seq<Effect>)
    requires f.apkDecompiledDir.Some?
    requires AfterCompile(search, f, wd, libs, env, done).status == Succeeded
    ensures var r := AfterCompile(search, f, wd, libs, env, done); var aarDir := Join(wd, DecompiledAar);
      var found := Reconcile(search, env.fs, aarDir, f.apkDecompiledDir.value);
      && r.fields == f.(aarDecompileDir := Some(aarDir))
      && found.Ok? && found.value.Some?
      && var root := found.value.value;
         && LastSegment(root).Some?
         && InLibrary(env.fs, aarDir, aarDir + "/" + LastSegment(root).value)
         && r.effects == done + [RunTool(DisassembleStep(wd, libs))] + [CopyTree(aarDir + "/" + LastSegment(root).value, root)]
  {
    var aarDir := Join(wd, DecompiledAar);
    var done' := done + [RunTool(DisassembleStep(wd, libs))];
    assert Baksmali.Observe(env.run(DisassembleStep(wd, libs))).failure.None?;
    var found := Reconcile(search, env.fs, aarDir, f.apkDecompiledDir.value);
    MergePackagesSucceeds(f.(aarDecompileDir := Some(aarDir)), aarDir, found, env.fs, env.copy, done');
  }

  /**
   * A successful stage has extracted, compiled, disassembled into `wd/decompiled-aar` and
   * copied the library entry named like the shared root's last segment, which exists, into
   * the shared root.
   */
  lemma MergeSucceeds(search: Search, f: Fields, wd: string, libs: string, env: Env)
    requires MergeStep(search, f, wd, libs, env).status == Succeeded
    ensures HasReferences(f)
    ensures var r := MergeStep(search, f, wd, libs, env); var aarDir := Join(wd, DecompiledAar);
      var found := Reconcile(search, env.fs, aarDir, f.apkDecompiledDir.value);
      && r.fields == f.(aarDecompileDir := Some(aarDir))
      && found.Ok? && found.value.Some? && LastSegment(found.value.value).Some?
      && InLibrary(env.fs, aarDir, aarDir + "/" + LastSegment(found.value.value).value)
      && r.effects == [ExtractEntry(f.sourceAar.value, ClassesJar, wd), RunTool(CompileStep(wd, libs)),
                       RunTool(DisassembleStep(wd, libs)),
                       CopyTree(aarDir + "/" + LastSegment(found.value.value).value, found.value.value)]
  {
    assert HasReferences(f) && env.extract.None? && env.run(CompileStep(wd, libs)).failure.None?;
    var done := [ExtractEntry(f.sourceAar.value, ClassesJar, wd), RunTool(CompileStep(wd, libs))];
    assert MergeStep(search, f, wd, libs, env) == AfterCompile(search, f, wd, libs, env, done);
    AfterCompileSucceeds(search, f, wd, libs, env, done);
    var root := Reconcile(search, env.fs, Join(wd, DecompiledAar), f.apkDecompiledDir.value).value.value;
    FourEffects(done[0], done[1], RunTool(DisassembleStep(wd, libs)),
      CopyTree(Join(wd, DecompiledAar) + "/" + LastSegment(root).value, root));
  }

  /** Two effects followed by one and one more are the four in a row. */
  lemma FourEffects(a: Effect, b: Effect, c: Effect, d: Effect)
    ensures [a, b] + [c] + [d] == [a, b, c, d]
  {
  }

  /**
   * Before the compile step: a failed extraction ends the stage with the archive's error,
   * and a failed D8 run ends it with the tool's error; nothing runs after the failed step.
   */
  lemma MergeEarlyFailures(search: Search, f: Fields, wd: string, libs: string, env: Env)
    requires HasReferences(f)
    ensures var r := MergeStep(search, f, wd, libs, env); var extract := ExtractEntry(f.sourceAar.value, ClassesJar, wd);
      && (env.extract.Some? ==> r == StageResult(f, Failed(ArchiveFailure(env.extract.value)), [extract]))
      && (env.extract.None? && env.run(CompileStep(wd, libs)).failure.Some? ==>
            r == StageResult(f, Failed(ToolFailure(env.run(CompileStep(wd, libs)).failure.value)),
                             [extract, RunTool(CompileStep(wd, libs))]))
      && (env.extract.None? && env.run(CompileStep(wd, libs)).failure.None? ==>
            r == AfterCompile(search, f, wd, libs, env, [extract, RunTool(CompileStep(wd, libs))]))
  {
  }

  /**
   * After the compile step: a failed or fatal baksmali run, a failed search, an undefined
   * root or one without a last segment, a missing copy source and a failed copy each end the
   * stage with their own error. The effects are those of the steps up to the failed one, in
   * order.
   */
  lemma AfterCompileFailures(search: Search, f: Fields, wd: string, libs: string, env: Env, done: seq<Effect>)
    requires f.apkDecompiledDir.Some?
    ensures var r := AfterCompile(search, f, wd, libs, env, done);
      var aarDir := Join(wd, DecompiledAar);
      var dis := done + [RunTool(DisassembleStep(wd, libs))];
      var observed := Baksmali.Observe(env.run(DisassembleStep(wd, libs)));
      var found := Reconcile(search, env.fs, aarDir, f.apkDecompiledDir.value);
      && r.fields == f.(aarDecompileDir := Some(aarDir))
      && (observed.failure.Some? ==> r.status == Failed(ToolFailure(observed.failure.value)) && r.effects == dis)
      && (observed.failure.None? && found.Err? ==> r.status == Failed(found.error) && r.effects == dis)
      && (observed.failure.None? && found.Ok? && PlanCopy(aarDir, found.value).Err? ==>
            r.status == Failed(PlanCopy(aarDir, found.value).error) && r.effects == dis)
      && (observed.failure.None? && found.Ok? && PlanCopy(aarDir, found.value).Ok? ==>
            var plan := PlanCopy(aarDir, found.value).value;
            && r.effects == dis + [CopyTree(plan.source, plan.destination)]
            && r.status == (if !InLibrary(env.fs, aarDir, plan.source) then Failed(NoSuchFile(plan.source))
                            else if env.copy.Some? then Failed(CopyFailure(env.copy.value)) else Succeeded))
  {
  }

  /** Whatever its outcome, the stage leaves the context alone or records `wd/decompiled-aar` in it, and no other field. */
  lemma MergeFields(search: Search, f: Fields, wd: string, libs: string, env: Env)
    ensures var r := MergeStep(search, f, wd, libs, env);
      r.fields == f || r.fields == f.(aarDecompileDir := Some(Join(wd, DecompiledAar)))
  {
    if HasReferences(f) {
      MergeEarlyFailures(search, f, wd, libs, env);
      if env.extract.None? && env.run(CompileStep(wd, libs)).failure.None? {
        AfterCompileFailures(search, f, wd, libs, env, [ExtractEntry(f.sourceAar.value, ClassesJar, wd), RunTool(CompileStep(wd, libs))]);
      }
    }
  }

  /** The stage ends succeeded or failed, never skipped, with at most four effects and all four on success. */
  lemma MergeStatusKinds(search: Search, f: Fields, wd: string, libs: string, env: Env)
    ensures var r := MergeStep(search, f, wd, libs, env);
      && (r.status == Succeeded || r.status.Failed?)
      && |r.effects| <= 4
      && (r.status == Succeeded ==> |r.effects| == 4)
  {
    if HasReferences(f) {
      MergeEarlyFailures(search, f, wd, libs, env);
      if env.extract.None? && env.run(CompileStep(wd, libs)).failure.None? {
        AfterCompileFailures(search, f, wd, libs, env,
          [ExtractEntry(f.sourceAar.value, ClassesJar, wd), RunTool(CompileStep(wd, libs))]);
      }
    }
  }

  /** When no shared root is found the stage fails and copies nothing. */
  lemma NoRootNoCopy(search: Search, f: Fields, wd: string, libs: string, env: Env)
    requires HasReferences(f) && env.extract.None? && env.run(CompileStep(wd, libs)).failure.None?
    requires Baksmali.Observe(env.run(DisassembleStep(wd, libs))).failure.None?
    requires Reconcile(search, env.fs, Join(wd, DecompiledAar), f.apkDecompiledDir.value) == Ok(None)
    ensures MergeStep(search, f, wd, libs, env).status == Failed(NoSharedRoot)
    ensures forall e :: e in MergeStep(search, f, wd, libs, env).effects ==> !e.CopyTree?
  {
  }

  /** Past the existence checks, reconciling is the chosen search on the two trees. */
  lemma ReconcileFolders(search: Search, fs: map<string, Node>, aarDir: string, apkDir: string)
    requires Reconcile(search, fs, aarDir, apkDir).Ok?
    ensures aarDir in fs && fs[aarDir].Folder? && apkDir in fs
    ensures Reconcile(search, fs, aarDir, apkDir) == Locate(search, Entry(aarDir, fs[aarDir]), Entry(apkDir, fs[apkDir]))
  {
  }

  /** A successful stage's last effect copies into the root the reconciliation found. */
  lemma SucceededCopy(search: Search, f: Fields, wd: string, libs: string, env: Env) returns (root: string)
    requires MergeStep(search, f, wd, libs, env).status == Succeeded
    ensures f.apkDecompiledDir.Some?
    ensures Reconcile(search, env.fs, Join(wd, DecompiledAar), f.apkDecompiledDir.value) == Ok(Some(root))
    ensures LastSegment(root).Some? && |MergeStep(search, f, wd, libs, env).effects| == 4
    ensures MergeStep(search, f, wd, libs, env).effects[3] ==
      CopyTree(Join(wd, DecompiledAar) + "/" + LastSegment(root).value, root)
    ensures InLibrary(env.fs, Join(wd, DecompiledAar), Join(wd, DecompiledAar) + "/" + LastSegment(root).value)
  {
    MergeSucceeds(search, f, wd, libs, env);
    root := Reconcile(search, env.fs, Join(wd, DecompiledAar), f.apkDecompiledDir.value).value.value;
  }

  /** A child's path away from the root: the directory, a separator, the name. */
  lemma ChildPath(dir: Entry, k: nat)
    requires dir.node.Folder? && k < |dir.node.children|
    requires dir.path != "" && dir.path[|dir.path| - 1] != Separator
    ensures Child(dir, k).path == dir.path + "/" + dir.node.children[k].name
  {
  }

  /** The disassembly's output directory ends in its own name, not in a separator. */
  lemma AarDirEndsInName(wd: string)
    ensures LastSegment(Join(wd, DecompiledAar)) == Some(DecompiledAar)
    ensures Join(wd, DecompiledAar) != "" && Join(wd, DecompiledAar)[|Join(wd, DecompiledAar)| - 1] != Separator
  {
    LastSegmentOfJoin(wd, DecompiledAar);
  }

  // ---- the corrected search ----

  /**
   * For real directory trees, a root the corrected search finds plans the copy of a library
   * package into a target package of the same name: the root is that target package, and the
   * source is the library entry named like it.
   */
  lemma RootCopy(lib: Entry, decoded: Entry, root: string) returns (k: nat, m: Entry)
    requires WellFormed(lib.node) && WellFormed(decoded.node)
    requires CorrectedSharedRoot(lib, decoded) == Ok(Some(root))
    requires lib.path != "" && lib.path[|lib.path| - 1] != Separator
    ensures lib.node.Folder? && FirstApkDirectories(decoded).Ok? && LastSegment(root).Some?
    ensures k < |lib.node.children| && m in FirstApkDirectories(decoded).value
    ensures m.node.name == lib.node.children[k].name && root == m.path
    ensures Child(lib, k).path == lib.path + "/" + LastSegment(root).value
    ensures PlanCopy(lib.path, Some(root)) == Ok(CopyPlan(Child(lib, k).path, m.path))
  {
    k, m := CorrectedFound(lib, decoded, root);
    ChildPath(lib, k);
  }

  /**
   * The copy `e` takes library package `k` of `lib` into the target package `m` of the decoded
   * directory, the candidate carrying the same name.
   */
  ghost predicate CopiesPackage(lib: Entry, decoded: Entry, k: nat, m: Entry, e: Effect) {
    && lib.node.Folder? && FirstApkDirectories(decoded).Ok?
    && k < |lib.node.children| && m in FirstApkDirectories(decoded).value
    && m.node.name == lib.node.children[k].name
    && e == CopyTree(Child(lib, k).path, m.path)
  }

  /** Where a successful stage with the corrected search copies, for real directory trees. */
  lemma MergeTarget(f: Fields, wd: string, libs: string, env: Env) returns (k: nat, m: Entry)
    requires MergeStep(Corrected, f, wd, libs, env).status == Succeeded
    requires var aarDir := Join(wd, DecompiledAar); aarDir in env.fs && WellFormed(env.fs[aarDir])
    requires f.apkDecompiledDir.Some? && f.apkDecompiledDir.value in env.fs
    requires WellFormed(env.fs[f.apkDecompiledDir.value])
    ensures |MergeStep(Corrected, f, wd, libs, env).effects| == 4
    ensures var aarDir := Join(wd, DecompiledAar); var apkDir := f.apkDecompiledDir.value;
      CopiesPackage(Entry(aarDir, env.fs[aarDir]), Entry(apkDir, env.fs[apkDir]), k, m,
        MergeStep(Corrected, f, wd, libs, env).effects[3])
  {
    var aarDir := Join(wd, DecompiledAar);
    var apkDir := f.apkDecompiledDir.value;
    var root := SucceededCopy(Corrected, f, wd, libs, env);
    var lib := Entry(aarDir, env.fs[aarDir]);
    var decoded := Entry(apkDir, env.fs[apkDir]);
    AarDirEndsInName(wd);
    assert CorrectedSharedRoot(lib, decoded) == Ok(Some(root)) by {
      ReconcileFolders(Corrected, env.fs, aarDir, apkDir);
    }
    k, m := CopyInto(lib, decoded, root, MergeStep(Corrected, f, wd, libs, env).effects[3]);
  }

  /** A copy from the library's package named like the root into the root is a package copy. */
  lemma CopyInto(lib: Entry, decoded: Entry, root: string, e: Effect) returns (k: nat, m: Entry)
    requires WellFormed(lib.node) && WellFormed(decoded.node)
    requires CorrectedSharedRoot(lib, decoded) == Ok(Some(root))
    requires lib.path != "" && lib.path[|lib.path| - 1] != Separator
    requires LastSegment(root).Some? && e == CopyTree(lib.path + "/" + LastSegment(root).value, root)
    ensures CopiesPackage(lib, decoded, k, m, e)
  {
    k, m := RootCopy(lib, decoded, root);
    assert e == CopyTree(Child(lib, k).path, m.path);
  }

  // ---- the search as written ----

  /**
   * The search as written on a unique top-level match: the root is the decoded directory, so
   * the copy's source is the library entry named like the decoded directory, which is none of
   * the library's packages unless one carries that very name.
   */
  lemma AsWrittenCopiesMissingEntry(lib: Entry, decoded: Entry)
    requires WellFormed(lib.node) && WellFormed(decoded.node)
    requires lib.node.Folder? && |lib.node.children| > 0 && FirstApkDirectories(decoded).Ok?
    requires UniqueMatch(Child(lib, 0), FirstApkDirectories(decoded).value)
    requires lib.path != "" && lib.path[|lib.path| - 1] != Separator
    requires LastSegment(decoded.path).Some? && !HasChildNamed(lib.node, LastSegment(decoded.path).value)
    ensures var source := lib.path + "/" + LastSegment(decoded.path).value;
      && SharedRoot(lib, decoded, true) == Ok(Some(decoded.path))
      && PlanCopy(lib.path, Some(decoded.path)) == Ok(CopyPlan(source, decoded.path))
      && forall k :: 0 <= k < |lib.node.children| ==> Child(lib, k).path != source
  {
    TopLevelUniqueMatch(lib, decoded);
    var seg := LastSegment(decoded.path).value;
    assert PlanCopy(lib.path, Some(decoded.path)) == Ok(CopyPlan(lib.path + "/" + seg, decoded.path));
    forall k | 0 <= k < |lib.node.children| ensures Child(lib, k).path != lib.path + "/" + seg {
      ChildOtherName(lib, k, seg);
    }
  }

  /** A child's path differs from the path of any other name under the same directory. */
  lemma ChildOtherName(dir: Entry, k: nat, name: string)
    requires dir.node.Folder? && k < |dir.node.children| && dir.node.children[k].name != name
    requires dir.path != "" && dir.path[|dir.path| - 1] != Separator
    ensures Child(dir, k).path != dir.path + "/" + name
  {
    ChildPath(dir, k);
    var own := dir.node.children[k].name;
    assert (dir.path + "/" + own)[|dir.path| + 1..] == own;
    assert (dir.path + "/" + name)[|dir.path| + 1..] == name;
  }

  /**
   * As written, a unique top-level match whose library lacks an entry named like the decoded
   * directory leads to a copy whose source does not exist.
   */
  lemma AsWrittenSourceMissing(fs: map<string, Node>, aarDir: string, apkDir: string)
    requires aarDir in fs && apkDir in fs
    requires var lib := Entry(aarDir, fs[aarDir]); var decoded := Entry(apkDir, fs[apkDir]);
      && WellFormed(lib.node) && WellFormed(decoded.node)
      && lib.node.Folder? && |lib.node.children| > 0 && FirstApkDirectories(decoded).Ok?
      && UniqueMatch(Child(lib, 0), FirstApkDirectories(decoded).value)
    requires aarDir != "" && aarDir[|aarDir| - 1] != Separator
    requires LastSegment(apkDir).Some? && !HasChildNamed(fs[aarDir], LastSegment(apkDir).value)
    ensures Reconcile(AsWritten, fs, aarDir, apkDir) == Ok(Some(apkDir))
    ensures PlanCopy(aarDir, Some(apkDir)) == Ok(CopyPlan(aarDir + "/" + LastSegment(apkDir).value, apkDir))
    ensures !InLibrary(fs, aarDir, aarDir + "/" + LastSegment(apkDir).value)
  {
    AsWrittenCopiesMissingEntry(Entry(aarDir, fs[aarDir]), Entry(apkDir, fs[apkDir]));
  }

  /**
   * Corrected, the same unique match makes the root the matched candidate, and the copy's
   * source is the first library package, which exists.
   */
  lemma CorrectedSourcePresent(fs: map<string, Node>, aarDir: string, apkDir: string) returns (root: string)
    requires aarDir in fs && apkDir in fs
    requires var lib := Entry(aarDir, fs[aarDir]); var decoded := Entry(apkDir, fs[apkDir]);
      && WellFormed(lib.node) && WellFormed(decoded.node)
      && lib.node.Folder? && |lib.node.children| > 0 && FirstApkDirectories(decoded).Ok?
      && UniqueMatch(Child(lib, 0), FirstApkDirectories(decoded).value)
    requires aarDir != "" && aarDir[|aarDir| - 1] != Separator
    ensures Reconcile(Corrected, fs, aarDir, apkDir) == Ok(Some(root))
    ensures PlanCopy(aarDir, Some(root)) == Ok(CopyPlan(Child(Entry(aarDir, fs[aarDir]), 0).path, root))
    ensures InLibrary(fs, aarDir, Child(Entry(aarDir, fs[aarDir]), 0).path)
  {
    var lib := Entry(aarDir, fs[aarDir]);
    var decoded := Entry(apkDir, fs[apkDir]);
    var cands := FirstApkDirectories(decoded).value;
    CorrectedUniqueMatch(lib, decoded);
    var m := Named(cands, Child(lib, 0).node.name)[0];
    root := m.path;
    assert m in Named(cands, Child(lib, 0).node.name);
    CandidatesTidy(decoded, m);
    ChildPath(lib, 0);
    var source := Child(lib, 0).path;
    assert source == aarDir + "/" + m.node.name;
    assert PlanCopy(aarDir, Some(root)) == Ok(CopyPlan(source, root)) by {
      PlanCopyOfName(aarDir, root, m.node.name);
    }
    assert 0 < |fs[aarDir].children| && Child(Entry(aarDir, fs[aarDir]), 0).path == source;
  }

  /** A root whose last segment is `name` plans the copy of `aarDir/name`. */
  lemma PlanCopyOfName(aarDir: string, root: string, name: string)
    requires LastSegment(root) == Some(name)
    ensures PlanCopy(aarDir, Some(root)) == Ok(CopyPlan(aarDir + "/" + name, root))
  {
  }

  /**
   * A single-dex target: the first library package is the only candidate of its name, and no
   * library entry is named like the decoded directory. The stage as written then copies a
   * source that does not exist and fails with ENOENT; the corrected stage copies that package
   * and ends as the copy does.
   */
  lemma UniqueMatchStage(f: Fields, wd: string, libs: string, env: Env)
    requires HasReferences(f) && env.extract.None? && env.run(CompileStep(wd, libs)).failure.None?
    requires Baksmali.Observe(env.run(DisassembleStep(wd, libs))).failure.None?
    requires Join(wd, DecompiledAar) in env.fs && f.apkDecompiledDir.value in env.fs
    requires var lib := Entry(Join(wd, DecompiledAar), env.fs[Join(wd, DecompiledAar)]);
      var decoded := Entry(f.apkDecompiledDir.value, env.fs[f.apkDecompiledDir.value]);
      && WellFormed(lib.node) && WellFormed(decoded.node)
      && lib.node.Folder? && |lib.node.children| > 0 && FirstApkDirectories(decoded).Ok?
      && UniqueMatch(Child(lib, 0), FirstApkDirectories(decoded).value)
    requires LastSegment(f.apkDecompiledDir.value).Some?
    requires !HasChildNamed(env.fs[Join(wd, DecompiledAar)], LastSegment(f.apkDecompiledDir.value).value)
    ensures MergeStep(AsWritten, f, wd, libs, env).status ==
      Failed(NoSuchFile(Join(wd, DecompiledAar) + "/" + LastSegment(f.apkDecompiledDir.value).value))
    ensures MergeStep(Corrected, f, wd, libs, env).status ==
      if env.copy.Some? then Failed(CopyFailure(env.copy.value)) else Succeeded
  {
    var aarDir := Join(wd, DecompiledAar);
    var apkDir := f.apkDecompiledDir.value;
    var done := [ExtractEntry(f.sourceAar.value, ClassesJar, wd), RunTool(CompileStep(wd, libs))];
    AarDirEndsInName(wd);
    MergeEarlyFailures(AsWritten, f, wd, libs, env);
    AfterCompileFailures(AsWritten, f, wd, libs, env, done);
    AsWrittenSourceMissing(env.fs, aarDir, apkDir);
    MergeEarlyFailures(Corrected, f, wd, libs, env);
    AfterCompileFailures(Corrected, f, wd, libs, env, done);
    var root := CorrectedSourcePresent(env.fs, aarDir, apkDir);
  }

  /**
   * As written, a successful stage on real trees either descended, copying library package
   * `k` into the same-named candidate `m`, or met a unique match, copying the library entry
   * named like the decoded directory, which must then exist, into the decoded directory.
   */
  lemma AsWrittenTarget(f: Fields, wd: string, libs: string, env: Env) returns (k: nat, m: Entry)
    requires MergeStep(AsWritten, f, wd, libs, env).status == Succeeded
    requires var aarDir := Join(wd, DecompiledAar); aarDir in env.fs && WellFormed(env.fs[aarDir])
    requires f.apkDecompiledDir.Some? && f.apkDecompiledDir.value in env.fs
    requires WellFormed(env.fs[f.apkDecompiledDir.value])
    ensures |MergeStep(AsWritten, f, wd, libs, env).effects| == 4
    ensures var aarDir := Join(wd, DecompiledAar); var apkDir := f.apkDecompiledDir.value;
      var lib := Entry(aarDir, env.fs[aarDir]); var decoded := Entry(apkDir, env.fs[apkDir]);
      var e := MergeStep(AsWritten, f, wd, libs, env).effects[3];
      && lib.node.Folder? && FirstApkDirectories(decoded).Ok? && k < |lib.node.children|
      && ((&& UniqueMatch(Child(lib, k), FirstApkDirectories(decoded).value) && m == decoded
           && LastSegment(apkDir).Some? && HasChildNamed(lib.node, LastSegment(apkDir).value)
           && e == CopyTree(aarDir + "/" + LastSegment(apkDir).value, apkDir))
          || (DescendsTo(Child(lib, k), FirstApkDirectories(decoded).value, m)
              && e == CopyTree(Child(lib, k).path, m.path)))
  {
    var aarDir := Join(wd, DecompiledAar);
    var apkDir := f.apkDecompiledDir.value;
    var root := SucceededCopy(AsWritten, f, wd, libs, env);
    var lib := Entry(aarDir, env.fs[aarDir]);
    var decoded := Entry(apkDir, env.fs[apkDir]);
    AarDirEndsInName(wd);
    assert SharedRoot(lib, decoded, true) == Ok(Some(root)) by {
      ReconcileFolders(AsWritten, env.fs, aarDir, apkDir);
    }
    k := TopLevelFound(lib, decoded, root);
    var cands := FirstApkDirectories(decoded).value;
    if UniqueMatch(Child(lib, k), cands) && root == apkDir {
      m := decoded;
      LibraryEntryNamed(lib, aarDir + "/" + LastSegment(root).value, LastSegment(root).value);
    } else {
      m :| DescendsTo(Child(lib, k), cands, m) && root == m.path && LastSegment(root) == Some(Child(lib, k).node.name);
      ChildPath(lib, k);
    }
  }

  /** An entry of the library at `dir/name` is a child named `name`. */
  lemma LibraryEntryNamed(lib: Entry, source: string, name: string)
    requires lib.node.Folder? && lib.path != "" && lib.path[|lib.path| - 1] != Separator
    requires source == lib.path + "/" + name
    requires exists k :: 0 <= k < |lib.node.children| && Child(lib, k).path == source
    ensures HasChildNamed(lib.node, name)
  {
    var k :| 0 <= k < |lib.node.children| && Child(lib, k).path == source;
    if lib.node.children[k].name != name {
      ChildOtherName(lib, k, name);
    }
  }
}
