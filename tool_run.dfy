/**
 * How a tool of the pipeline is started, and what a run of it reports. Starting the process
 * and streaming its output are not modelled: a run is given as the lines it printed and the
 * failure it ended with, if any.
 */
module ToolRun {
  import opened Wrappers

  /**
   * A `java` process: either `java -jar <jar> <args>` or, for a tool shipped as a directory of
   * jars, `java -classpath <class path> <mainClass> <args>` with every jar of that directory on
   * the class path.
   */
  datatype Invocation =
    | JarInvocation(jar: string, args: seq<string>)
    | ClassPathInvocation(classPath: string, mainClass: string, args: seq<string>)

  /** The trimmed lines a run printed, in order, and the error it ended with (`None`: exit 0). */
  datatype RunOutcome = RunOutcome(lines: seq<string>, failure: Option<string>)
}
