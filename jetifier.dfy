/**
 * Jetifier (`src/tools/jetifier.ts`): rewriting a library's Support Library references to
 * AndroidX, or back. It runs as a main class over a directory of jars.
 */
module Jetifier {
  import opened Wrappers
  import opened Strings
  import opened Paths
  import opened ToolRun

  const MainClass: string := "com.android.tools.build.jetifier.standalone.Main"

  /** The directory of bundled tools holds the jetifier's jars in this directory. */
  const LibDirectory: string := "jetifier"

  function ClassPath(libs: string): string {
    Join(libs, LibDirectory)
  }

  datatype Request =
    | Jetify(input: string, output: string, config: Option<string>)
    | Dejetify(input: string, output: string)

  /** The mapping-configuration option as one argument; absent or empty, the empty string. */
  function ConfigOption(config: Option<string>): string {
    if config.Some? && config.value != "" then "--config " + config.value else ""
  }

  function Args(r: Request): seq<string> {
    match r
    case Jetify(i, o, c) => ["--input", i, "--output", o, ConfigOption(c)]
    case Dejetify(i, o) => ["--reverse", "--input", i, "--output", o]
  }

  /** An empty configuration path and an absent one are the same request. */
  function Normalized(r: Request): Request {
    if r.Jetify? && r.config == Some("") then Jetify(r.input, r.output, None) else r
  }

  /** Reads a request back from an argument vector; the partner of `Args`. */
  function ReadArgs(args: seq<string>): Option<Request> {
    if |args| != 5 then None
    else if args[0] == "--reverse" && args[1] == "--input" && args[3] == "--output" then Some(Dejetify(args[2], args[4]))
    else if args[0] == "--input" && args[2] == "--output" then
      if args[4] == "" then Some(Jetify(args[1], args[3], None))
      else if HasPrefix(args[4], "--config ") && args[4][9..] != "" then Some(Jetify(args[1], args[3], Some(args[4][9..])))
      else None
    else None
  }

  /** Both commands run the fixed main class with the jetifier directory as class path. */
  function Invoke(libs: string, r: Request): Invocation {
    ClassPathInvocation(ClassPath(libs), MainClass, Args(r))
  }

  /** The run uses the fixed main class and class path, with five arguments that read back as the request. */
  lemma InvokeReadsBack(libs: string, r: Request)
    ensures var inv := Invoke(libs, r);
      && inv.ClassPathInvocation? && inv.classPath == ClassPath(libs) && inv.mainClass == MainClass
      && |inv.args| == 5 && ReadArgs(inv.args) == Some(Normalized(r))
  {
    assert r.Jetify? && r.config.Some? && r.config.value != "" ==> Args(r)[4][9..] == r.config.value;
  }

  /** `jetify(pathToInputAar, pathToOutputAar, pathToMappingConfig?)`. */
  function JetifyInvocation(libs: string, input: string, output: string, config: Option<string> := None): Invocation {
    Invoke(libs, Jetify(input, output, config))
  }

  /** `dejetify(pathToInputAar, pathToOutputAar)`. */
  function DejetifyInvocation(libs: string, input: string, output: string): Invocation {
    Invoke(libs, Dejetify(input, output))
  }

  /**
   * Without a configuration the last argument is empty, and `--reverse` appears only when a
   * path given is literally `--reverse`; the reverse direction always starts with it.
   */
  lemma JetifyNeverReverses(libs: string, input: string, output: string)
    ensures JetifyInvocation(libs, input, output).args[4] == ""
    ensures "--reverse" in JetifyInvocation(libs, input, output).args <==> input == "--reverse" || output == "--reverse"
    ensures DejetifyInvocation(libs, input, output).args[0] == "--reverse"
  {
  }

  /** Jetifying and dejetifying never share an argument vector. */
  lemma DirectionsDiffer(libs: string, i1: string, o1: string, c: Option<string>, i2: string, o2: string)
    ensures JetifyInvocation(libs, i1, o1, c).args != DejetifyInvocation(libs, i2, o2).args
  {
    var j := JetifyInvocation(libs, i1, o1, c);
    var d := DejetifyInvocation(libs, i2, o2);
    assert ReadArgs(j.args) != ReadArgs(d.args);
  }
}
