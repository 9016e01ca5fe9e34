# apk-weaver, modelled in Dafny

apk-weaver is a command-line tool that patches a built Android application (APK) with the
code of a library archive (AAR). It decodes the APK with apktool, jetifies the AAR when the
APK uses AndroidX, and then merges the code. Merging the code means:

- extract `classes.jar` from the AAR;
- compile it to `classes.dex` with D8;
- disassemble that into smali sources with baksmali;
- find the *shared root*, the directory of the decoded APK where the library's top package
  belongs, and copy the package there.

The remaining stages (resources, assets, build and sign) are placeholders that always skip.

This project models that core:

- **The shared-root search (`getSharedRoot` and `getFirstApkDirectories`).** It runs over an
  immutable directory tree (`FileTree`, `Matcher`). `MatcherFacts` proves the search's
  properties. The main one is a closed form of the result for real, well-formed trees:
  - at the top level, a single same-named candidate returns the decoded directory itself;
  - several same-named candidates lead one level down;
  - below the top, a directory is the answer exactly when it shares an entry name with the
    library package.

  `CorrectedRoot` is the same search with one branch corrected: the branch whose answer the
  merge stage cannot use (see "## Findings").
- **The merge stage (`CodeMerge`).** `MergeStep` is a function; `MergeCode` is a method that
  writes the shared context in place. It is proved equal to `MergeStep`. Both are given the
  search to run: `AsWritten`, which is `getSharedRoot` as the program calls it, or
  `Corrected`. The patch run uses `AsWritten`, so `Pipeline.Patch` and `Cli.Program` model
  the program as written.
- **The patch run (`Pipeline`).** It has seven stages in declared order over one context. Each
  stage is disabled, skipped, succeeded or failed, and a run stops at its first failure.
  `RunPatch` is the imperative run, proved equal to `Patch`. `PipelineFacts` proves the stage
  order, the context each stage sees, the jetify-or-skip decision, and that the last three
  stages always skip.
- **The command line (`Cli`).** It covers the check that every given path exists, the `DEBUG`
  switch, the settings taken from the arguments, and the final report.
- **The tool wrappers (`ApkTool`, `Baksmali`, `D8`, `Jetifier`).** Each argument vector has a
  reader that reads it back (a partner function), and each output-line filter has its laws.

Everything outside the program is a parameter. `Tasks.Env` holds:

- what a tool run prints and whether it fails;
- whether the workspace removal and the AAR extraction fail, and whether the recursive copy
  fails once its source exists (a missing source fails with ENOENT);
- the directory tree that the directory listings see.

`existing` is the set of paths that exist, and `installDir` and `libs` stand for `__dirname`
and the bundled `libs` directory.

**The root of a unique match.** Line 73 of `src/tasks/code-merge-task.ts` returns
`apkStartPath` when exactly one candidate carries the library package's name. At the top level
that is the decoded APK directory. Lines 42-44 then copy `<aarDecompileDir>/<last segment of
the root>`, which is `decompiled-aar/decompiled-apk`. No package of the disassembled library
has that name. The search's other answers, from the descent at lines 75-78, are same-named
candidates, so their last segment does name a library package. "## Findings" records the
branch. As written, the copy of the missing source fails with ENOENT: the stage fails
(`CodeMerge.UniqueMatchStage`), and so does the whole run on such a single-dex target
(`PipelineFacts.UniqueMatchRunFails`). The corrected stage, `MergeStep(Corrected, ...)`, uses
`CorrectedRoot`, whose unique match answers the matched candidate. It copies the library
package into the same-named target package (`CodeMerge.MergeTarget`).

## Model

| member | source | states |
|---|---|---|
| Strings.ContainsIff | src/index.ts:69 | The substring test used for `includes` and for the `/smali` test holds exactly when the text occurs at some index. |
| Strings.ParseIntToString | src/tools/d8.ts:36 | `String(n)` of any integer, negative ones included, reads back as `n`. So the API-level argument carries the level unchanged. |
| Paths.LastSegment | src/tasks/code-merge-task.ts:42 | `/[^\/]+?(?=$)/` finds a match exactly when the path is non-empty and does not end in `/`. The match is the non-empty, `/`-free suffix that starts the path or follows its last `/`. |
| Paths.LastSegmentOfJoin | src/utils.ts:46 | For any entry name, the last segment of `path.join(dir, name)` is the name. |
| Paths.TailAfterSeparator | src/utils.ts:46 | Text after a final separator, or after nothing, is the last segment. |
| Paths.JoinExtends | src/utils.ts:46 | `path.join(dir, name)` starts with `dir`. |
| Paths.JoinEndsWith | src/utils.ts:46 | `path.join(dir, name)` ends with `name`. |
| FileTree.ReadDirectory | src/utils.ts:40-50 | Listing fails with ENOTDIR exactly for a file. Otherwise it returns as many entries as the directory has children, the `i`-th holding the `i`-th child. |
| FileTree.ListingNamed | src/utils.ts:46 | Every listed path starts with the directory's path. In a well-formed tree it also ends in the name of the child listed with it. |
| FileTree.ChildTidy | src/utils.ts:46 | In a well-formed tree, every listed entry is well formed and its path ends in its own name. |
| Matcher.SmaliDirectories | src/tasks/code-merge-task.ts:59 | The `/smali` filter, specified by `Matcher.SmaliDirectoriesMembers` and `Matcher.SmaliDirectoriesInOrder`. |
| Matcher.SmaliDirectoriesMembers | src/tasks/code-merge-task.ts:59 | Keeps exactly the entries whose full path contains `/smali`. |
| Matcher.SmaliDirectoriesInOrder | src/tasks/code-merge-task.ts:59 | Keeps listing order. The `k`-th kept entry is the entry at position `idx[k]`, and the positions increase. Every entry `i` whose path contains `/smali` is among them, at `idx[pos[i]]`. |
| Matcher.ListAll | src/tasks/code-merge-task.ts:60-61 | Listing every directory succeeds exactly when all of them are directories. Otherwise the error names the first file in order. |
| Matcher.ListAllInOrder | src/tasks/code-merge-task.ts:60-61 | The concatenation keeps order. The `i`-th entry listed from `dirs[k]` sits at position `Offset(dirs, k) + i`, after the listings of all earlier directories. The whole has `Offset(dirs, |dirs|)` entries. |
| Matcher.FirstApkDirectories | src/tasks/code-merge-task.ts:57-62 | The top-level candidates, specified by `MatcherFacts.CandidatesOk`, `MatcherFacts.CandidatesAre` and `MatcherFacts.CandidatesInOrder`. |
| Matcher.SegmentOf | src/tasks/code-merge-task.ts:69 | Taking `[0]` of the match throws exactly when the path is empty or ends in `/`, and the error names the path. |
| Matcher.SegmentShape | src/tasks/code-merge-task.ts:69 | A segment taken is non-empty and `/`-free. It is a suffix of the path that is the whole path or follows a `/`. |
| Matcher.SameSegmentOk | src/tasks/code-merge-task.ts:70 | The filter on last segments throws exactly when some candidate path has no last segment. |
| Matcher.SameSegment | src/tasks/code-merge-task.ts:70 | The filter on last segments, specified by `Matcher.SameSegmentOk` and `MatcherFacts.SameSegmentTidy`. |
| Matcher.SharedRoot | src/tasks/code-merge-task.ts:64-82 | `getSharedRoot` as written, specified by `MatcherFacts.TopLevelClosedForm` and `MatcherFacts.BelowTopClosedForm`. |
| Matcher.ScanPackages | src/tasks/code-merge-task.ts:68-81 | The outer loop, specified by `MatcherFacts.ScanIsSettle`. |
| Matcher.PackageOutcome | src/tasks/code-merge-task.ts:69-80 | One iteration of the outer loop, specified by `MatcherFacts.PackageOutcomeAtTop` and `MatcherFacts.PackageOutcomeBelowTop`. |
| Matcher.TryCandidates | src/tasks/code-merge-task.ts:75-80 | The inner loop, specified by `MatcherFacts.TryIsFirstDecisive`. |
| MatcherFacts.ListAllMembers | src/tasks/code-merge-task.ts:60-61 | The concatenated listing contains exactly the children of the listed directories. |
| MatcherFacts.CandidatesOk | src/tasks/code-merge-task.ts:57-62 | The candidate listing succeeds exactly when the decoded path is a directory and every entry under it whose path contains `/smali` is a directory. |
| MatcherFacts.CandidatesAre | src/tasks/code-merge-task.ts:57-62 | The candidates are exactly the children of the `/smali` entries of the decoded directory. |
| MatcherFacts.CandidatesInOrder | src/tasks/code-merge-task.ts:57-62 | The candidates in order. The smali directories are the entries at increasing positions of the decoded directory, and every smali entry `j` is among them, at `idx[pos[j]]`. The candidates are their listings, block after block, each block in its listing's order. |
| MatcherFacts.CandidatesTidy | src/tasks/code-merge-task.ts:57-62 | In a well-formed tree, every candidate's path ends in its own name. |
| MatcherFacts.SameSegmentTidy | src/tasks/code-merge-task.ts:70 | For entries whose paths end in their names, the last-segment filter is the filter on names and never throws. |
| MatcherFacts.NamedAtMostOne | src/tasks/code-merge-task.ts:72 | Within one directory, at most one entry carries a given name, and exactly one does when some entry has it. |
| MatcherFacts.SettleNone | src/tasks/code-merge-task.ts:68-81 | The outer loop's answer is `undefined` exactly when every library package's answer is. |
| MatcherFacts.SettleFirst | src/tasks/code-merge-task.ts:68-81 | Any other answer is that of the first package whose answer is not `undefined`. Every package before it answered `undefined`. |
| MatcherFacts.SettleUniform | src/tasks/code-merge-task.ts:68-81 | When every package answers `undefined` or one same path, the loop returns that path exactly when some package gave it. |
| MatcherFacts.FirstDecisiveNone | src/tasks/code-merge-task.ts:75-80 | The inner loop finds nothing exactly when no candidate's recursive result is truthy or an error. |
| MatcherFacts.FirstDecisiveFirst | src/tasks/code-merge-task.ts:75-80 | Otherwise it returns the first truthy or failing recursive result, and every earlier one was neither. |
| MatcherFacts.ScanIsSettle | src/tasks/code-merge-task.ts:68-81 | The outer `for…of` with its early returns is the first settled answer over the library packages. |
| MatcherFacts.TryIsFirstDecisive | src/tasks/code-merge-task.ts:75-80 | The inner loop with `if (root)` is the first decisive answer over the same-named candidates. |
| MatcherFacts.PackageOutcomeBelowTop | src/tasks/code-merge-task.ts:68-80 | Below the top, a package answers the target directory's path exactly when that directory has a child of the package's name, and `undefined` otherwise. |
| MatcherFacts.ScanBelowTop | src/tasks/code-merge-task.ts:68-81 | Below the top, the loop answers the target path exactly when some library entry name also names a target entry. |
| MatcherFacts.BelowTopClosedForm | src/tasks/code-merge-task.ts:64-82 | The recursive call fails on a file, and otherwise returns the target path exactly when the two directories share an entry name. So the descent stops one level below the top. |
| MatcherFacts.PackageOutcomeAtTop | src/tasks/code-merge-task.ts:68-80 | At the top, a package answers `apkStartPath` for a unique same-named candidate. Otherwise it answers the first decisive closed-form result over the same-named candidates. |
| MatcherFacts.TopLevelClosedForm | src/tasks/code-merge-task.ts:64-82 | The whole search is the first settled package answer, or the error of listing the library or the candidates. |
| MatcherFacts.PackageAnswerSome | src/tasks/code-merge-task.ts:72-79 | A package's found root is the start path for a unique match. Otherwise it is a same-named candidate that shares an entry name with the package. |
| MatcherFacts.PackageAnswerNone | src/tasks/code-merge-task.ts:70-80 | A package answers `undefined` exactly when it has no unique match and no same-named candidate shares an entry name with it. This includes the case of zero matches. |
| MatcherFacts.TopLevelFound | src/tasks/code-merge-task.ts:64-82 | A found root comes from the first package that is not quiet. It is either the decoded directory (a unique match) or a candidate chosen by the descent whose last segment is that package's name. |
| MatcherFacts.TopLevelNoMatch | src/tasks/code-merge-task.ts:64-82 | The search returns `undefined` exactly when every library package is quiet. An empty library therefore finds nothing. |
| MatcherFacts.TopLevelUniqueMatch | src/tasks/code-merge-task.ts:72-73 | A unique match for the first library package returns the decoded directory itself. |
| ApkTool.ArgsRoundTrip | src/tools/apk-tool.ts:22-42 | Both commands give five arguments, which read back as the request. |
| ApkTool.InvocationsReadBack | src/tools/apk-tool.ts:13-42 | `decode` and `build` run the bundled `apktool_2.4.1.jar` with arguments that read back as the call's parameters. |
| ApkTool.ArgsInjective | src/tools/apk-tool.ts:22-42 | Different requests never share an argument vector. |
| ApkTool.DefaultsLeaveFlagEmpty | src/tools/apk-tool.ts:22-41 | With `force` and `useAapt2` at their default `false`, the last argument is the empty string. |
| ApkTool.StripInfoLength | src/tools/apk-tool.ts:27 | Each deletion removes exactly the three characters of `"I: "`, and nothing is inserted. |
| ApkTool.DeletedIffContains | src/tools/apk-tool.ts:27 | Something is deleted exactly when the line contains `"I: "`. |
| ApkTool.StripInfoUnchanged | src/tools/apk-tool.ts:27 | A line is left as it is exactly when it does not contain `"I: "`, and a line never grows. |
| ApkTool.StripInfoKeepsOrder | src/tools/apk-tool.ts:27 | The characters that remain keep their order. |
| ApkTool.StripInfoSplice | src/tools/apk-tool.ts:27 | An occurrence is deleted whatever text surrounds it. |
| ApkTool.StripInfoNotIdempotent | src/tools/apk-tool.ts:27 | One pass of the global replace can join a new occurrence, so filtering twice differs from filtering once. |
| ApkTool.Observe | src/tools/apk-tool.ts:27 | The filtered output, specified by `ApkTool.ObserveLines`. |
| ApkTool.ObserveLines | src/tools/apk-tool.ts:27 | The output has as many lines as the run printed, and the run's failure is untouched. Each line keeps its characters in order and never grows. It is unchanged exactly when it does not contain `"I: "`. |
| ApkTool.StripInfo | src/tools/apk-tool.ts:27 | `replace(/I: /g, '')`, specified by the `StripInfo` lemmas above. |
| ApkTool.DecodeInvocation | src/tools/apk-tool.ts:22-28 | `decode`, specified by `ApkTool.InvocationsReadBack` and `ApkTool.DefaultsLeaveFlagEmpty`. |
| ApkTool.BuildInvocation | src/tools/apk-tool.ts:37-43 | `build`, specified by `ApkTool.InvocationsReadBack` and `ApkTool.DefaultsLeaveFlagEmpty`. |
| Baksmali.DisassembleReadsBack | src/tools/baksmali.ts:13-26 | `disassemble` runs the bundled `baksmali-2.0.6.jar` with four arguments that read back as the dex file, the output and the API level. Level 0 reads back as absent. |
| Baksmali.NoApiLevelLeavesOptionEmpty | src/tools/baksmali.ts:26 | With no API level, or with level 0, the last argument is the empty string. |
| Baksmali.DisassembleInvocation | src/tools/baksmali.ts:22-26 | `disassemble`, specified by `Baksmali.DisassembleReadsBack` and `Baksmali.NoApiLevelLeavesOptionEmpty`. |
| Baksmali.Observe | src/tools/baksmali.ts:27-32 | The lines up to the first one containing `Can't find the file` pass unchanged. That line ends the stream as an error carrying its text. With no such line, the run is delivered as it is. |
| Baksmali.ObserveFails | src/tools/baksmali.ts:27-32 | The filtered run fails exactly when the run failed or printed a fatal line. |
| Baksmali.ObserveOneLine | src/tools/baksmali.ts:28-31 | A fatal line raises an error whose message is that line. Any other line passes through. |
| D8.CompileReadsBack | src/tools/d8.ts:17-38 | `compile` runs the bundled `d8.jar` with always seven arguments. They read back as jar, flavour, output, API level and ProGuard configuration, and an empty configuration reads back as absent. |
| D8.CompileDefaults | src/tools/d8.ts:28-38 | The defaults give `[jar, "--release", "--output", out, "--min-api", "1", ""]`. |
| D8.FlavorRoundTrip | src/tools/d8.ts:5-8 | `--debug` and `--release` read back as their flavours. |
| D8.CompileInvocation | src/tools/d8.ts:28-38 | `compile`, specified by `D8.CompileReadsBack` and `D8.CompileDefaults`. |
| Jetifier.InvokeReadsBack | src/tools/jetifier.ts:24-54 | Every invocation uses the main class `com.android.tools.build.jetifier.standalone.Main` and the jetifier directory as class path. Its five arguments read back as the request. |
| Jetifier.JetifyNeverReverses | src/tools/jetifier.ts:24-44 | Without a configuration, `jetify` ends in the empty string and contains `--reverse` only when a given path is literally `--reverse`. `dejetify` always starts with `--reverse`. |
| Jetifier.DirectionsDiffer | src/tools/jetifier.ts:24-44 | Jetifying and dejetifying never share an argument vector. |
| Jetifier.Invoke | src/tools/jetifier.ts:46-54 | The jetifier's own `runWithArgs`, specified by `Jetifier.InvokeReadsBack`. |
| Jetifier.JetifyInvocation | src/tools/jetifier.ts:24-30 | `jetify`, specified by `Jetifier.InvokeReadsBack`, `Jetifier.JetifyNeverReverses` and `Jetifier.DirectionsDiffer`. |
| Jetifier.DejetifyInvocation | src/tools/jetifier.ts:38-44 | `dejetify`, specified by `Jetifier.InvokeReadsBack`, `Jetifier.JetifyNeverReverses` and `Jetifier.DirectionsDiffer`. |
| Tasks.Context.constructor | src/index.ts:38 | The Listr context starts with no fields set. |
| CodeMerge.PlanCopy | src/tasks/code-merge-task.ts:40-44 | An undefined root throws on `.match`. A root without a last segment throws on `[0]`. Otherwise the copy goes into the root, from a path under `aarDecompileDir/` that ends in the same last segment as the root. |
| CodeMerge.PlanCopyOfJoin | src/tasks/code-merge-task.ts:42-44 | For a joined root, the copy's source is the library entry of the joined name. |
| CodeMerge.CopySourceSegment | src/tasks/code-merge-task.ts:42-44 | `aarDecompileDir/<segment>` lies under `aarDecompileDir/` and has that segment as its last one. |
| CodeMerge.MergeStep | src/tasks/code-merge-task.ts:10-54 | The stage with the given search. It is specified by `CodeMerge.GuardFirst`, `CodeMerge.MergeEarlyFailures`, `CodeMerge.AfterCompileFailures`, `CodeMerge.MergeSucceeds` and `CodeMerge.MergeStatusKinds`, which hold for either search, and by `CodeMerge.UniqueMatchStage` and `CodeMerge.AsWrittenTarget` for the search as written. |
| CodeMerge.AfterCompile | src/tasks/code-merge-task.ts:30-52 | The sub-steps after compiling with the given search, specified by `CodeMerge.AfterCompileSucceeds` and `CodeMerge.AfterCompileFailures`. |
| CodeMerge.MergePackages | src/tasks/code-merge-task.ts:37-52 | The `Merge packages` sub-step on the search's answer, with the copy failing with ENOENT on a missing source. It is specified by `CodeMerge.MergePackagesSucceeds` and `CodeMerge.AfterCompileFailures`. |
| CodeMerge.MergePackagesSucceeds | src/tasks/code-merge-task.ts:37-52 | A merge that succeeded had a root with a last segment and a copy that did not fail. The copy's source `aarDecompileDir/<that segment>` is an entry of the library directory. The one new effect copies it into the root. |
| CodeMerge.AarDirEndsInName | src/tasks/code-merge-task.ts:33 | `path.join(workingDirectory, 'decompiled-aar')` ends in `decompiled-aar`, never in a separator. |
| CodeMerge.Reconcile | src/tasks/code-merge-task.ts:40 | Locating the root with the given search, specified by `CodeMerge.ReconcileFolders`. |
| CodeMerge.Locate | src/tasks/code-merge-task.ts:40 | `getSharedRoot(aarDir, apkDir, true)` as written (`Matcher.SharedRoot`), or the corrected search (`CorrectedRoot.CorrectedSharedRoot`). |
| CodeMerge.MergeCode | src/tasks/code-merge-task.ts:10-54 | The stage with the given search, writing `aarDecompileDir` into the shared context in place. It gives exactly the new context, status and effects of `MergeStep` with that search. |
| CodeMerge.FinishMerge | src/tasks/code-merge-task.ts:30-52 | The sub-steps after compiling, run in place with the given search, agree with `AfterCompile`. |
| CodeMerge.GuardFirst | src/tasks/code-merge-task.ts:11-21 | Without a source AAR or a decoded directory, the stage fails with `Context missing required references!` before any effect and leaves the context alone. Otherwise its first effect extracts `classes.jar` into the workspace. |
| CodeMerge.MergeEarlyFailures | src/tasks/code-merge-task.ts:15-29 | A failed extraction ends the stage with the archive's error after the one extract effect. A failed D8 run ends it with the tool's error after extract and compile. Otherwise the stage goes on to the sub-steps after compiling. |
| CodeMerge.AfterCompileFailures | src/tasks/code-merge-task.ts:30-52 | After compiling, the stage records `decompiled-aar`. Each of these ends the stage with its own error: a failed or fatal baksmali run, a failed search, an undefined root or one without a last segment. The copy effect follows only an answered root. The copy then fails with ENOENT when its source is not an entry of the library directory, and otherwise as the copy outcome says. |
| CodeMerge.MergeFields | src/tasks/code-merge-task.ts:10-54 | Whatever its outcome, the stage changes no field of the context except `aarDecompileDir`, which it sets to `wd/decompiled-aar` (line 33) or leaves alone. |
| CodeMerge.MergeStatusKinds | src/tasks/code-merge-task.ts:10-54 | The stage ends succeeded or failed, never skipped. It has at most four effects, and all four on success. |
| CodeMerge.AfterCompileSucceeds | src/tasks/code-merge-task.ts:30-52 | After compiling, success means the output directory was recorded, baksmali ran, and the library entry named like the root's last segment was copied into the root. |
| CodeMerge.MergeSucceeds | src/tasks/code-merge-task.ts:11-52 | A successful stage, with either search, had both references. It recorded `wd/decompiled-aar` and ran exactly extract, compile, disassemble and copy, in that order. It copied an existing library entry into the found root. |
| CodeMerge.NoRootNoCopy | src/tasks/code-merge-task.ts:40-44 | When no shared root is found, the stage fails and copies nothing. |
| CodeMerge.ReconcileFolders | src/tasks/code-merge-task.ts:40 | Once both directories exist and the library is a directory, locating the root is the chosen search on the two trees. |
| CodeMerge.RootCopy | src/tasks/code-merge-task.ts:40-44 | A root the corrected search finds is a same-named candidate of some library package `k`. The planned copy goes from that package, whose path is `aarDecompileDir/<last segment of the root>`, into the root. |
| CodeMerge.MergeTarget | src/tasks/code-merge-task.ts:40-44 | A successful stage with the corrected search has four effects. The fourth copies library package `k` into the candidate `m` of the same name, which the search chose (`CodeMerge.CopiesPackage`). |
| CodeMerge.SucceededCopy | src/tasks/code-merge-task.ts:40-49 | A successful stage found a root with a last segment. Its fourth effect copies `aarDecompileDir/<that segment>`, an existing library entry, into the root. |
| CodeMerge.CopyInto | src/tasks/code-merge-task.ts:42-44 | A copy from `aarDecompileDir/<last segment of the root>` into a root the corrected search found copies library package `k` into the candidate `m` of the same name, which is the root. |
| CodeMerge.AsWrittenCopiesMissingEntry | src/tasks/code-merge-task.ts:42-73 | As written, a unique match for the first library package makes the root the decoded directory. The copy source is then `aarDecompileDir/<last segment of the decoded directory>`, which is the path of no library package unless one carries that name. |
| CodeMerge.ChildOtherName | src/utils.ts:46 | A listed entry's path differs from the path of any other name under the same directory. |
| CodeMerge.AsWrittenSourceMissing | src/tasks/code-merge-task.ts:40-44 | As written, a unique first match makes the root the decoded directory. The planned source, `aarDecompileDir/<last segment of the decoded directory>`, is then no entry of a library without that name. |
| CodeMerge.CorrectedSourcePresent | src/tasks/code-merge-task.ts:40-44 | Corrected, the same match makes the root the matched candidate. The planned source is the first library package, which exists. |
| CodeMerge.PlanCopyOfName | src/tasks/code-merge-task.ts:42-44 | A root whose last segment is `name` plans the copy of `aarDecompileDir/name` into the root. |
| CodeMerge.UniqueMatchStage | src/tasks/code-merge-task.ts:40-49 | On a single-dex target, where the first library package is the only candidate of its name and no library entry is named like the decoded directory, the stage as written fails with ENOENT for `aarDecompileDir/<that name>`. The corrected stage ends as the copy outcome says. |
| CodeMerge.AsWrittenTarget | src/tasks/code-merge-task.ts:40-78 | A successful stage as written either descended, copying library package `k` into the same-named candidate `m`, or met a unique match. In the second case it copied the library entry named like the decoded directory, which therefore exists, into the decoded directory. |
| CodeMerge.LibraryEntryNamed | src/utils.ts:46 | A listed library entry at `dir/name` is a child called `name`. |
| CorrectedRoot.CorrectedSharedRoot | src/tasks/code-merge-task.ts:64-82 | `getSharedRoot(aarDir, apkDir, true)` with a unique top-level match answering the matched candidate, specified by `CorrectedRoot.CorrectedClosedForm` and `CorrectedRoot.CorrectedFound`. |
| CorrectedRoot.CorrectedScanIsSettle | src/tasks/code-merge-task.ts:68-81 | The corrected outer loop is the first settled answer over the library packages. |
| CorrectedRoot.CorrectedOutcomeAtTop | src/tasks/code-merge-task.ts:69-80 | In a real tree, an iteration answers the unique same-named candidate, or else descends as the code does. |
| CorrectedRoot.CorrectedClosedForm | src/tasks/code-merge-task.ts:64-82 | The corrected search fails on a library file or a failed candidate listing. Otherwise it is the first settled corrected answer. |
| CorrectedRoot.CorrectedFound | src/tasks/code-merge-task.ts:64-82 | A found root is a candidate carrying the name of library package `k`, so its last segment is that name. It is the unique match, or the candidate the descent chose. |
| CorrectedRoot.CorrectedNoMatch | src/tasks/code-merge-task.ts:64-82 | The corrected search finds nothing exactly when every library package is quiet. |
| CorrectedRoot.CorrectedUniqueMatch | src/tasks/code-merge-task.ts:72-73 | When the first library package has a unique match, the corrected search answers that candidate, while the search as written answers the decoded directory. |
| Pipeline.RunStage | src/index.ts:39-97 | One stage, writing the shared context in place, gives exactly the new context, status and effects of `Step`. |
| Pipeline.ApplyStage | src/index.ts:40-41 | A disabled stage is not run and changes nothing. An enabled one is run. |
| Pipeline.RunPatch | src/index.ts:38-101 | The Listr run over one fresh context, stage by stage in declared order and stopping at the first failure, gives exactly `Patch`. |
| Pipeline.Step | src/index.ts:38-97 | One stage, specified by the `PipelineFacts` lemmas on each stage. |
| Pipeline.PrepareStep | src/index.ts:39-53 | The workspace stage, specified by `PipelineFacts.WorkspaceOnlyInDebug`. |
| Pipeline.DecodeStep | src/index.ts:54-60 | Decoding, specified by `PipelineFacts.DecodeSetsDir` and `PipelineFacts.OnlyDecodeSetsDir`. |
| Pipeline.CompatibilityStep | src/index.ts:61-81 | The compatibility stage, specified by `PipelineFacts.CompatibilityErrors`, `PipelineFacts.JetifyDecision` and `PipelineFacts.UsesAndroidxIff`. |
| Pipeline.JetifyOrSkip | src/index.ts:70-78 | Jetify or skip, specified by `PipelineFacts.JetifyDecision`. |
| Pipeline.JetifyInvocation | src/index.ts:74 | The jetifier run on the first source, specified by `PipelineFacts.JetifyDecision`. |
| Pipeline.RunFrom | src/index.ts:100-101 | Listr's sequential run, specified by `PipelineFacts.RunInOrder` and `PipelineFacts.FirstFailureStops`. |
| Pipeline.Patch | src/index.ts:38-101 | The whole run as written, specified by `Pipeline.RunPatch` and the `PipelineFacts` lemmas on `Patch`. These include `PipelineFacts.UniqueMatchRunFails`, where a single-dex target fails. |
| PipelineFacts.RunInOrder | src/index.ts:38-101 | Each stage the run reached ran on the context the stages before it left. The run's context and effects are those of the stages reached. |
| PipelineFacts.FirstFailureStops | src/index.ts:100-105 | A run without an error reached every stage and none failed. A failed run ends with the failing stage, and nothing before it failed. |
| PipelineFacts.FailedStageEnds | src/index.ts:100-105 | A failed stage is the last one run, and its error is the run's. |
| PipelineFacts.PassedStageContinues | src/index.ts:100-102 | A stage that did not fail is followed by the next declared stage. |
| PipelineFacts.StepNeverDisabled | src/index.ts:40-41 | A stage reports itself disabled exactly when it is not enabled, and only the workspace stage can be disabled. |
| PipelineFacts.RunsMerge | src/index.ts:82-85 | The run's merge stage is the merge stage in the working directory. |
| PipelineFacts.PlaceholdersSkip | src/index.ts:86-97 | Merging resources, merging assets and building skip without touching the context. |
| PipelineFacts.OnlyDecodeSetsDir | src/index.ts:57 | No stage other than decoding writes the decoded directory. |
| PipelineFacts.DecodeSetsDir | src/index.ts:55-59 | Decoding records `workingDirectory/decompiled-apk`, then runs `decode target --output dir --force`. It fails exactly when apktool does. |
| PipelineFacts.JetifyDecision | src/index.ts:65-78 | The stage jetifies exactly when some candidate contains `androidx`. It then sets `sourceAar` to `workingDirectory/jetified.aar` and runs jetify with the first source as input, or with the text `undefined` when no source was given. It fails exactly when that run fails. Otherwise it sets `sourceAar` to the first source and skips. |
| PipelineFacts.CompatibilityErrors | src/index.ts:65-68 | With the directory unset, missing, or not listable, the stage fails before any effect. |
| PipelineFacts.UsesAndroidxIff | src/index.ts:65-69 | The jetify condition holds exactly when some child of a `/smali` directory has a full path containing `androidx`. |
| PipelineFacts.FieldsBeforeCompatibility | src/index.ts:39-60 | The workspace stage leaves the empty context, and decoding leaves only the decoded directory set. |
| PipelineFacts.FieldsBeforeMerge | src/index.ts:61-84 | The merge stage sees what the compatibility stage left. |
| PipelineFacts.MergeStageInRun | src/index.ts:82-85 | The merge stage's context and effects follow those of the first three stages. |
| PipelineFacts.PlaceholderStage | src/index.ts:86-97 | A placeholder passes the context on unchanged and adds no effect. |
| PipelineFacts.FieldsAfterMerge | src/index.ts:86-97 | The last three stages keep what the merge stage left. |
| PipelineFacts.PatchFields | src/index.ts:38-98 | The context before each of the seven stages, in terms of the four real stages. |
| PipelineFacts.PatchEffectsAfterMerge | src/index.ts:86-97 | The placeholders add no effects to the run. |
| PipelineFacts.PatchTailSkipped | src/index.ts:86-97 | Wherever the run reaches the last three stages, they skip. |
| PipelineFacts.LastThreeSkip | src/index.ts:86-101 | Only the first four stages can fail. A run without an error reached all seven stages, and the last three skipped. |
| PipelineFacts.WorkspaceOnlyInDebug | src/index.ts:39-58 | The workspace stage runs exactly in debug mode and is then the first effect. Otherwise the run starts with decoding. |
| PipelineFacts.DecodedDirKept | src/index.ts:57 | Once decoding has run, the context holds `workingDirectory/decompiled-apk` to the end. |
| PipelineFacts.DirAfterDecode | src/index.ts:57-97 | Every context from the third stage on holds the decoded directory. |
| PipelineFacts.PatchNoEarlyFailure | src/index.ts:100-101 | A run that reached a stage had no failure before it. |
| PipelineFacts.PatchCompatibilityStatus | src/index.ts:61-81 | The third stage's status is the compatibility check's, run on the decoded context. |
| PipelineFacts.PatchMergeStatus | src/index.ts:82-85 | The fourth stage's status is the merge stage's, run on what the compatibility stage left. |
| PipelineFacts.PatchReaches | src/index.ts:38-98 | A run reaching stage `n` ran the stages before it without failure, in the contexts computed above. |
| PipelineFacts.CompatKeepsReferences | src/index.ts:70-78 | A compatibility stage that did not fail leaves both references the merge guard needs. The AAR is the first source if the stage skipped, and the jetified one if it jetified. |
| PipelineFacts.MergeGuardPasses | src/tasks/code-merge-task.ts:11-21 | With a non-empty source, a run reaching the merge stage passes its guard and extracts `classes.jar` from the AAR the compatibility stage chose. |
| PipelineFacts.MergeEffectsInRun | src/index.ts:82-97 | A run reaching the merge stage ends with that stage's effects. |
| PipelineFacts.CompatKeepsMissingSource | src/index.ts:76 | Without a source, a compatibility stage that skipped leaves no AAR. |
| PipelineFacts.MissingSourceFailsMerge | src/tasks/code-merge-task.ts:11 | Without a source and without AndroidX, the merge guard fails and ends the run at the fourth stage. |
| PipelineFacts.DecodedDirEndsInName | src/index.ts:57 | The decoded directory `path.join(workingDirectory, 'decompiled-apk')` ends in `decompiled-apk`. |
| PipelineFacts.UniqueMatchRunFails | src/index.ts:82-101 | Take a run with a source AAR that reaches the merge stage, where archive and tools succeed, the first library package is the only candidate of its name, and no library entry is named `decompiled-apk`. That run fails in the merge stage with ENOENT for `decompiled-aar/decompiled-apk`, and no later stage runs. |
| Cli.FirstMissing | src/index.ts:17-22 | Finds the first path that does not exist. It finds none exactly when all exist, and every path before the one it finds exists. |
| Cli.CheckArguments | src/index.ts:16-24 | The check visits the target, then every source. It passes exactly when all of them exist. |
| Cli.CheckNamesFirstMissing | src/index.ts:17-22 | The error names the target when it is missing, and otherwise the first missing source. |
| Cli.TrimStart | src/index.ts:28 | Removes exactly the leading JSON white space. |
| Cli.TrimEnd | src/index.ts:28 | Removes exactly the trailing JSON white space. |
| Cli.DebugIsPaddedTrue | src/index.ts:28 | If debug mode is on, `DEBUG` is `true` surrounded only by JSON white space. |
| Cli.PaddedTrueIsDebug | src/index.ts:28 | Any such value turns debug mode on. |
| Cli.DebugIffPaddedTrue | src/index.ts:28 | Debug mode is on exactly when `DEBUG` is `true` surrounded only by JSON white space. |
| Cli.IsDebug | src/index.ts:28 | The `DEBUG` switch, specified by `Cli.DebugIffPaddedTrue`. |
| Cli.DebugOffUnlessTrue | src/index.ts:28 | Examples: debug mode is off without `DEBUG`, and for `""`, `false` and `1`. |
| Cli.DebugOnForTrue | src/index.ts:28 | Examples: debug mode is on for `true`, also with white space around it. |
| Cli.SettingsFor | src/index.ts:28-36 | The workspace lies under the install directory and ends in `temp/`. The target is kept. A source is taken exactly when one was given, and it is the first. Debug mode is on exactly for a padded `true`. |
| Cli.WorkspaceEndsInSeparator | src/index.ts:34 | The workspace path ends in `/`, so the stage directories are joined directly onto it. |
| Cli.ReportVerdict | src/index.ts:100-110 | The last line is the success line exactly when no stage failed, and the failure line otherwise. The raw error goes to standard error exactly when a run failed in debug mode. |
| Cli.Report | src/index.ts:100-110 | The final report, specified by `Cli.ReportVerdict`. |
| Cli.RunsOnlyWhenPathsExist | src/index.ts:12-25 | The stages run exactly when every given path exists. Otherwise the only line printed names a missing path. |
| Cli.ProgramReports | src/index.ts:100-110 | A run that started reports success exactly when it had no error. It writes to standard error exactly when it failed in debug mode. |
| Cli.OnlyFirstSourceMatters | src/index.ts:36 | Two argument lists that pass the check and agree on the first source behave alike. |
| Cli.SuccessRanAllStages | src/index.ts:86-103 | A program that printed only the success line ran all seven stages, and the last three skipped. |
| Cli.Program | src/index.ts:12-110 | The program as written, specified by `Cli.RunsOnlyWhenPathsExist`, `Cli.ProgramReports`, `Cli.OnlyFirstSourceMatters` and `Cli.SuccessRanAllStages`. `Cli.ProgramReports` ties its verdict to `Patch`, so on the single-dex target of `PipelineFacts.UniqueMatchRunFails` it prints the failure line. |

## Left out

- Tool processes are not modelled. This covers `executeJar`, `executeJarWithClassPath`, `observeProcess` and the base `runWithArgs` (`src/utils.ts:57-90`, `src/tools/tool.ts`). A run is `Env.run`: the lines it prints and whether it fails. The `java -jar` and `-classpath temp.jar:<dir>/*` command lines are reduced to `ToolRun.Invocation`. The trimming of output chunks, and chunks that are not whole lines, are not modelled.
- `src/tools/uber-apk-signer.ts` is not part of this model. No stage uses it.
- Filesystem effects are outcomes in `Env`. `fs.rmdir`, the AdmZip extraction and the `ncp` copy appear only as effects and as failures. The failures do not depend on the arguments, except that the copy fails with ENOENT when its source is not an entry of the library directory. `ncp` collects its errors into a list; the model keeps one error. What the effects write is not applied to the tree. The directory listings read one tree, `Env.fs`, taken after decoding and disassembly.
- `fs.accessSync` is not modelled. The existence check reads the set `existing`.
- `path.join` does not normalise `.`, `..` or repeated separators. `Join` only places one separator between a directory and a name. The bundled tool directory `../../libs` relative to `__dirname` is the parameter `libs`.
- Output formatting is not modelled: chalk colours, Listr titles and `task.output`, skip messages, and yargs usage and help text. `Cli.Program` prints the plain message of each line, and `Errors.Message` approximates the texts of the Node errors.
- `main().catch` (`src/index.ts:113-120`) is not modelled. The model has no error that escapes the run.
- Cli.IsDebug: a `DEBUG` value that is not valid JSON makes `JSON.parse` throw before any stage runs. The model treats such a value as debug mode off, because the JSON grammar is not modelled.
- `Promise.all`, Observables and Listr are modelled as sequential. When several smali directories cannot be listed, the model reports the first in listing order. The source rejects with whichever listing fails first in time.
- D8.CompileReadsBack: `apiLevel` is an integer. `String` of a fractional or non-finite JavaScript number is not modelled.
- Baksmali.DisassembleReadsBack: `apiLevel` is an integer too, so an option such as `--api 1.5` is not modelled.
- CodeMerge.MergeTarget: this is the corrected stage, and the copy's destination is stated only for well-formed trees. In those, entry names are distinct within a directory and never empty, `.`, `..` or containing `/`, as in every real directory listing. `CodeMerge.MergeSucceeds` states the copy for every tree.
- CodeMerge.AsWrittenTarget and CodeMerge.UniqueMatchStage are stated for well-formed trees too, for the same reason.
- The `ncp` callback in `src/tasks/code-merge-task.ts:44-49` calls `resolve` after `reject`. The second call has no effect, so the model has one outcome per copy.

## Findings

| source | as written | input that shows it | evidently intended | confidence | as-written member | corrected member |
|---|---|---|---|---|---|---|
| src/tasks/code-merge-task.ts:42-73 | A unique same-named candidate at the top level returns `apkStartPath`, the decoded directory. The copy source is then `<aarDecompileDir>/decompiled-apk`. | An AAR whose only top package `com` is also the name of exactly one child of the APK's smali directories. The root is `<wd>decompiled-apk`, and the copy source `<wd>decompiled-aar/decompiled-apk` is no library entry. `ncp` then calls back with ENOENT, line 46 rejects, and the run fails in the merge stage. | The root is the matched candidate, `<wd>decompiled-apk/smali/com`, as the descent at lines 75-78 answers a same-named candidate. The copy then goes from `<wd>decompiled-aar/com`, which exists, into it. | not executed | PipelineFacts.UniqueMatchRunFails | CodeMerge.MergeTarget |
