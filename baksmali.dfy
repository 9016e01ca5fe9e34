/** Baksmali (`src/tools/baksmali.ts`): disassembling a dex file into smali sources. */
module Baksmali {
  import opened Wrappers
  import opened Strings
  import opened Paths
  import opened ToolRun

  const JarName: string := "baksmali-2.0.6.jar"

  /** The text of the one line the wrapper treats as fatal. */
  const FatalMarker: string := "Can't find the file"

  function ToolPath(libs: string): string {
    Join(libs, JarName)
  }

  /** The API-level option as one argument; absent, and also for level 0, the empty string. */
  function ApiOption(apiLevel: Option<int>): string {
    if apiLevel.Some? && apiLevel.value != 0 then "--api " + IntToString(apiLevel.value) else ""
  }

  function DisassembleArgs(dex: string, output: string, apiLevel: Option<int>): seq<string> {
    [dex, "--output", output, ApiOption(apiLevel)]
  }

  /** The API level an argument vector asks for: 0 and absence are the same request. */
  function Normalized(apiLevel: Option<int>): Option<int> {
    if apiLevel == Some(0) then None else apiLevel
  }

  /** Reads dex file, output directory and API level back from an argument vector. */
  function ReadArgs(args: seq<string>): Option<(string, string, Option<int>)> {
    if |args| != 4 || args[1] != "--output" then None
    else if args[3] == "" then Some((args[0], args[2], None))
    else if HasPrefix(args[3], "--api ") then
      match ParseInt(args[3][6..])
      case Some(n) => if n == 0 then None else Some((args[0], args[2], Some(n)))
      case None => None
    else None
  }

  /** `disassemble(pathToDex, outputPath, apiLevel?)`. */
  function DisassembleInvocation(libs: string, dex: string, output: string, apiLevel: Option<int> := None): Invocation {
    JarInvocation(ToolPath(libs), DisassembleArgs(dex, output, apiLevel))
  }

  /** The run uses the bundled jar with four arguments that read back as the call's parameters. */
  lemma DisassembleReadsBack(libs: string, dex: string, output: string, apiLevel: Option<int>)
    ensures var inv := DisassembleInvocation(libs, dex, output, apiLevel);
      && inv.JarInvocation? && inv.jar == ToolPath(libs) && |inv.args| == 4
      && ReadArgs(inv.args) == Some((dex, output, Normalized(apiLevel)))
  {
    var args := DisassembleArgs(dex, output, apiLevel);
    ParseIntToString(if apiLevel.Some? then apiLevel.value else 0);
    assert apiLevel.Some? && apiLevel.value != 0 ==> args[3][6..] == IntToString(apiLevel.value);
  }

  /** Without an API level, or with level 0, the last argument is the empty string. */
  lemma NoApiLevelLeavesOptionEmpty(libs: string, dex: string, output: string)
    ensures DisassembleInvocation(libs, dex, output).args[3] == ""
    ensures DisassembleInvocation(libs, dex, output, Some(0)).args[3] == ""
  {
  }

  /** A line the wrapper turns into an error. */
  predicate IsFatal(line: string) {
    Contains(line, FatalMarker)
  }

  /**
   * What the wrapper's observable delivers: the lines up to the first fatal one unchanged, and
   * then an error carrying that line; with no fatal line, the run as it is.
   */
  function Observe(run: RunOutcome): (o: RunOutcome)
    ensures |o.lines| <= |run.lines| && o.lines == run.lines[..|o.lines|]
    ensures forall i :: 0 <= i < |o.lines| ==> !IsFatal(o.lines[i])
    ensures |o.lines| < |run.lines| ==> IsFatal(run.lines[|o.lines|]) && o.failure == Some(run.lines[|o.lines|])
    ensures |o.lines| == |run.lines| ==> o.failure == run.failure
    decreases |run.lines|
  {
    if run.lines == [] then run
    else if IsFatal(run.lines[0]) then RunOutcome([], Some(run.lines[0]))
    else
      var rest := Observe(RunOutcome(run.lines[1..], run.failure));
      RunOutcome([run.lines[0]] + rest.lines, rest.failure)
  }

  /** The run fails after filtering exactly when it failed already or printed a fatal line. */
  lemma ObserveFails(run: RunOutcome)
    ensures Observe(run).failure.Some? <==>
      run.failure.Some? || exists i :: 0 <= i < |run.lines| && IsFatal(run.lines[i])
  {
    var o := Observe(run);
    if |o.lines| < |run.lines| {
      assert IsFatal(run.lines[|o.lines|]);
    } else {
      forall i | 0 <= i < |run.lines| ensures !IsFatal(run.lines[i]) {
        assert run.lines[i] == o.lines[i];
      }
    }
  }

  /** A line without the marker passes, and a fatal line ends the stream with its own text. */
  lemma ObserveOneLine(line: string, failure: Option<string>)
    ensures Observe(RunOutcome([line], failure)) ==
      if IsFatal(line) then RunOutcome([], Some(line)) else RunOutcome([line], failure)
  {
  }
}
