/** D8 (`src/tools/d8.ts`): compiling the Java byte code of a jar into a dex file. */
module D8 {
  import opened Wrappers
  import opened Strings
  import opened Paths
  import opened ToolRun

  const JarName: string := "d8.jar"

  datatype BuildFlavor = Debug | Release

  /** The command-line flag of each flavour. */
  function FlavorFlag(f: BuildFlavor): string {
    match f
    case Debug => "--debug"
    case Release => "--release"
  }

  function ReadFlavor(flag: string): Option<BuildFlavor> {
    if flag == "--debug" then Some(Debug) else if flag == "--release" then Some(Release) else None
  }

  function ToolPath(libs: string): string {
    Join(libs, JarName)
  }

  /** The ProGuard option as one argument; absent or empty, the empty string. */
  function ProguardOption(config: Option<string>): string {
    if config.Some? && config.value != "" then "--pg-conf " + config.value else ""
  }

  /** The configuration an argument vector asks for: an empty path and absence are the same request. */
  function Normalized(config: Option<string>): Option<string> {
    if config == Some("") then None else config
  }

  datatype CompileRequest = CompileRequest(jar: string, output: string, flavor: BuildFlavor, apiLevel: int, proguardConfig: Option<string>)

  function CompileArgs(r: CompileRequest): seq<string> {
    [r.jar, FlavorFlag(r.flavor), "--output", r.output, "--min-api", IntToString(r.apiLevel), ProguardOption(r.proguardConfig)]
  }

  /** Reads a request back from an argument vector; the partner of `CompileArgs`. */
  function ReadArgs(args: seq<string>): Option<CompileRequest> {
    if |args| != 7 || args[2] != "--output" || args[4] != "--min-api" then None
    else
      match (ReadFlavor(args[1]), ParseInt(args[5]))
      case (Some(f), Some(n)) =>
        if args[6] == "" then Some(CompileRequest(args[0], args[3], f, n, None))
        else if HasPrefix(args[6], "--pg-conf ") && args[6][10..] != "" then
          Some(CompileRequest(args[0], args[3], f, n, Some(args[6][10..])))
        else None
      case _ => None
  }

  /** `compile(pathToJar, outputPath, buildFlavor = RELEASE, apiLevel = 1, pathToProguardConfig?)`. */
  function CompileInvocation(libs: string, jar: string, output: string, flavor: BuildFlavor := Release,
                             apiLevel: int := 1, proguardConfig: Option<string> := None): Invocation
  {
    JarInvocation(ToolPath(libs), CompileArgs(CompileRequest(jar, output, flavor, apiLevel, proguardConfig)))
  }

  /** The run uses the bundled jar with always seven arguments, which read back as the request. */
  lemma CompileReadsBack(libs: string, jar: string, output: string, flavor: BuildFlavor, apiLevel: int,
                         proguardConfig: Option<string>)
    ensures var inv := CompileInvocation(libs, jar, output, flavor, apiLevel, proguardConfig);
      && inv.JarInvocation? && inv.jar == ToolPath(libs) && |inv.args| == 7
      && ReadArgs(inv.args) == Some(CompileRequest(jar, output, flavor, apiLevel, Normalized(proguardConfig)))
  {
    var args := CompileArgs(CompileRequest(jar, output, flavor, apiLevel, proguardConfig));
    ParseIntToString(apiLevel);
    assert proguardConfig.Some? && proguardConfig.value != "" ==> args[6][10..] == proguardConfig.value;
  }

  /** The defaults are the release flavour, API level 1 and no ProGuard configuration. */
  lemma CompileDefaults(libs: string, jar: string, output: string)
    ensures CompileInvocation(libs, jar, output).args == [jar, "--release", "--output", output, "--min-api", "1", ""]
  {
  }

  /** The flag of a flavour reads back as that flavour, so the two flags differ. */
  lemma FlavorRoundTrip(f: BuildFlavor)
    ensures ReadFlavor(FlavorFlag(f)) == Some(f)
  {
  }
}
