/** Apktool (`src/tools/apk-tool.ts`): decoding an APK into a directory and building it back. */
module ApkTool {
  import opened Wrappers
  import opened Strings
  import opened Paths
  import opened ToolRun

  const JarName: string := "apktool_2.4.1.jar"

  /** The prefix apktool puts on its informational lines. */
  const InfoPrefix: string := "I: "

  /** The jar, in the directory of bundled tools. */
  function ToolPath(libs: string): string {
    Join(libs, JarName)
  }

  /** The two commands the wrapper issues, with their options. */
  datatype Request =
    | Decode(input: string, output: string, force: bool)
    | Build(input: string, output: string, useAapt2: bool)

  /** The argument vector of a request: verb, input, `--output`, output and one flag or "". */
  function Args(r: Request): seq<string> {
    match r
    case Decode(i, o, force) => ["decode", i, "--output", o, if force then "--force" else ""]
    case Build(i, o, aapt2) => ["build", i, "--output", o, if aapt2 then "--use-aapt2" else ""]
  }

  /** Reads a request back from an argument vector; the partner of `Args`. */
  function ReadArgs(args: seq<string>): Option<Request> {
    if |args| != 5 || args[2] != "--output" then None
    else if args[0] == "decode" && args[4] in {"--force", ""} then Some(Decode(args[1], args[3], args[4] == "--force"))
    else if args[0] == "build" && args[4] in {"--use-aapt2", ""} then Some(Build(args[1], args[3], args[4] == "--use-aapt2"))
    else None
  }

  /** `decode(inputApkPath, outputPath, force = false)`. */
  function DecodeInvocation(libs: string, input: string, output: string, force: bool := false): Invocation {
    JarInvocation(ToolPath(libs), Args(Decode(input, output, force)))
  }

  /** `build(inputPath, outputApkPath, useAapt2 = false)`. */
  function BuildInvocation(libs: string, input: string, output: string, useAapt2: bool := false): Invocation {
    JarInvocation(ToolPath(libs), Args(Build(input, output, useAapt2)))
  }

  /** Every request has an argument vector of five elements that reads back as that request. */
  lemma ArgsRoundTrip(r: Request)
    ensures |Args(r)| == 5
    ensures ReadArgs(Args(r)) == Some(r)
  {
  }

  /** Both commands run the bundled jar, with arguments that read back as the call's parameters. */
  lemma InvocationsReadBack(libs: string, input: string, output: string, flag: bool)
    ensures var inv := DecodeInvocation(libs, input, output, flag);
      inv.JarInvocation? && inv.jar == ToolPath(libs) && ReadArgs(inv.args) == Some(Decode(input, output, flag))
    ensures var inv := BuildInvocation(libs, input, output, flag);
      inv.JarInvocation? && inv.jar == ToolPath(libs) && ReadArgs(inv.args) == Some(Build(input, output, flag))
  {
    ArgsRoundTrip(Decode(input, output, flag));
    ArgsRoundTrip(Build(input, output, flag));
  }

  /** Different requests never share an argument vector. */
  lemma ArgsInjective(r1: Request, r2: Request)
    ensures Args(r1) == Args(r2) ==> r1 == r2
  {
    ArgsRoundTrip(r1);
    ArgsRoundTrip(r2);
  }

  /** Without the optional flag the last argument is the empty string. */
  lemma DefaultsLeaveFlagEmpty(libs: string, input: string, output: string)
    ensures DecodeInvocation(libs, input, output).args[4] == ""
    ensures BuildInvocation(libs, input, output).args[4] == ""
  {
  }

  // ---- the line filter ----

  /**
   * `line.replace(/I: /g, '')`: scanning left to right, every occurrence of the prefix is
   * deleted and the scan resumes after it.
   */
  function StripInfo(s: string): (r: string)
    decreases |s|
  {
    if HasPrefix(s, InfoPrefix) then StripInfo(s[|InfoPrefix|..])
    else if s == [] then []
    else [s[0]] + StripInfo(s[1..])
  }

  /** How many occurrences the left-to-right scan deletes. */
  function Deleted(s: string): nat
    decreases |s|
  {
    if HasPrefix(s, InfoPrefix) then 1 + Deleted(s[|InfoPrefix|..])
    else if s == [] then 0
    else Deleted(s[1..])
  }

  /** `r` keeps some of the characters of `s`, in their order. */
  predicate IsSubsequence(r: string, s: string)
    decreases |s|
  {
    if r == [] then true
    else if s == [] then false
    else if r[0] == s[0] then IsSubsequence(r[1..], s[1..])
    else IsSubsequence(r, s[1..])
  }

  /** Each deletion removes exactly the three characters of the prefix; nothing is inserted. */
  lemma {:induction false} StripInfoLength(s: string)
    ensures |StripInfo(s)| + |InfoPrefix| * Deleted(s) == |s|
    decreases |s|
  {
    if HasPrefix(s, InfoPrefix) {
      StripInfoLength(s[|InfoPrefix|..]);
    } else if s != [] {
      StripInfoLength(s[1..]);
    }
  }

  /** Something is deleted exactly when the line contains the prefix. */
  lemma {:induction false} DeletedIffContains(s: string)
    ensures Deleted(s) > 0 <==> Contains(s, InfoPrefix)
    decreases |s|
  {
    if !HasPrefix(s, InfoPrefix) && s != [] {
      DeletedIffContains(s[1..]);
    }
  }

  /** A line is left as it is exactly when it does not contain the prefix, and never grows. */
  lemma StripInfoUnchanged(s: string)
    ensures StripInfo(s) == s <==> !Contains(s, InfoPrefix)
    ensures |StripInfo(s)| <= |s|
  {
    StripInfoLength(s);
    DeletedIffContains(s);
  }

  /** The characters that remain keep their order. */
  lemma {:induction false} StripInfoKeepsOrder(s: string)
    ensures IsSubsequence(StripInfo(s), s)
    decreases |s|
  {
    if HasPrefix(s, InfoPrefix) {
      StripInfoKeepsOrder(s[|InfoPrefix|..]);
      SubsequenceOfSuffix(StripInfo(s), s, |InfoPrefix|);
    } else if s != [] {
      StripInfoKeepsOrder(s[1..]);
      assert ([s[0]] + StripInfo(s[1..]))[1..] == StripInfo(s[1..]);
    }
  }

  lemma {:induction false} SubsequenceOfSuffix(r: string, s: string, k: nat)
    requires k <= |s| && IsSubsequence(r, s[k..])
    ensures IsSubsequence(r, s)
    decreases k
  {
    if k > 0 {
      assert s[1..][k - 1..] == s[k..];
      SubsequenceOfSuffix(r, s[1..], k - 1);
      SubsequenceSkip(r, s);
    }
  }

  /** A subsequence of the tail is a subsequence of the whole. */
  lemma {:induction false} SubsequenceSkip(r: string, s: string)
    requires s != [] && IsSubsequence(r, s[1..])
    ensures IsSubsequence(r, s)
    decreases |s|, 1
  {
    if r != [] && r[0] == s[0] {
      SubsequenceDropHead(r, s[1..]);
    }
  }

  lemma {:induction false} SubsequenceDropHead(r: string, t: string)
    requires r != [] && IsSubsequence(r, t)
    ensures IsSubsequence(r[1..], t)
    decreases |t|, 2
  {
    if r[0] == t[0] {
      if r[1..] != [] {
        SubsequenceSkip(r[1..], t);
      }
    } else {
      SubsequenceDropHead(r, t[1..]);
      if r[1..] != [] {
        SubsequenceSkip(r[1..], t);
      }
    }
  }

  /** A text that does not start with the prefix keeps not starting with it when the prefix follows it. */
  lemma NoPrefixBeforeSplice(a: string, b: string)
    requires a != [] && !HasPrefix(a, InfoPrefix)
    ensures !HasPrefix(a + InfoPrefix + b, InfoPrefix)
  {
    var s := a + InfoPrefix + b;
    if |a| >= 3 {
      assert s[..3] == a[..3];
    } else if |a| == 1 {
      assert s[..3] == [a[0], 'I', ':'];
    } else {
      assert s[..3] == [a[0], a[1], 'I'];
    }
  }

  /**
   * An occurrence of the prefix is deleted whatever surrounds it: no occurrence can start in
   * the text before it and run into it.
   */
  lemma {:induction false} StripInfoSplice(a: string, b: string)
    ensures StripInfo(a + InfoPrefix + b) == StripInfo(a) + StripInfo(b)
    decreases |a|
  {
    var s := a + InfoPrefix + b;
    if a == [] {
      assert s[|InfoPrefix|..] == b;
    } else if HasPrefix(a, InfoPrefix) {
      assert s[|InfoPrefix|..] == a[|InfoPrefix|..] + InfoPrefix + b;
      StripInfoSplice(a[|InfoPrefix|..], b);
    } else {
      NoPrefixBeforeSplice(a, b);
      assert s[1..] == a[1..] + InfoPrefix + b;
      StripInfoSplice(a[1..], b);
    }
  }

  /** Deleting is not idempotent: removing an inner occurrence can join a new one. */
  lemma StripInfoNotIdempotent()
    ensures StripInfo("II: : ") == "I: "
    ensures StripInfo(StripInfo("II: : ")) == ""
  {
    assert !HasPrefix("II: : ", InfoPrefix);
    assert ("II: : ")[1..] == "I: : ";
    assert HasPrefix("I: : ", InfoPrefix);
    assert ("I: : ")[3..] == ": ";
    assert !HasPrefix(": ", InfoPrefix);
    assert (": ")[1..] == " ";
    assert !HasPrefix(" ", InfoPrefix);
    assert (" ")[1..] == "";
    assert HasPrefix("I: ", InfoPrefix);
    assert ("I: ")[3..] == "";
  }

  /** What the wrapper's observable delivers: every line filtered, the run's end untouched. */
  function Observe(run: RunOutcome): RunOutcome {
    RunOutcome(seq(|run.lines|, i requires 0 <= i < |run.lines| => StripInfo(run.lines[i])), run.failure)
  }

  /**
   * The observable passes on as many lines as the tool printed, and how the run ended; each
   * line keeps its characters in order, never grows, and comes through unchanged exactly when
   * it does not contain the prefix.
   */
  lemma ObserveLines(run: RunOutcome)
    ensures |Observe(run).lines| == |run.lines| && Observe(run).failure == run.failure
    ensures forall i :: 0 <= i < |run.lines| ==>
      && IsSubsequence(Observe(run).lines[i], run.lines[i])
      && |Observe(run).lines[i]| <= |run.lines[i]|
      && (Observe(run).lines[i] == run.lines[i] <==> !Contains(run.lines[i], InfoPrefix))
  {
    forall i | 0 <= i < |run.lines|
      ensures IsSubsequence(Observe(run).lines[i], run.lines[i])
      ensures |Observe(run).lines[i]| <= |run.lines[i]|
      ensures Observe(run).lines[i] == run.lines[i] <==> !Contains(run.lines[i], InfoPrefix)
    {
      StripInfoKeepsOrder(run.lines[i]);
      StripInfoUnchanged(run.lines[i]);
    }
  }
}
