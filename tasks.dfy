/**
 * What the stages of a patch run share: the context object they read and write, the status
 * each ends with, the effects each has on the outside world, and the outside world itself.
 */
module Tasks {
  import opened Wrappers
  import opened Errors
  import opened FileTree
  import opened ToolRun

  /** The context's fields, as a value. */
  datatype Fields = Fields(apkDecompiledDir: Option<string>, sourceAar: Option<string>, aarDecompileDir: Option<string>)

  const NoFields: Fields := Fields(None, None, None)

  /** The context object every stage receives and updates in place. */
  class Context {
    var apkDecompiledDir: Option<string>
    var sourceAar: Option<string>
    var aarDecompileDir: Option<string>

    constructor ()
      ensures Current() == NoFields
    {
      apkDecompiledDir := None;
      sourceAar := None;
      aarDecompileDir := None;
    }

    function Current(): Fields
      reads this
    {
      Fields(apkDecompiledDir, sourceAar, aarDecompileDir)
    }
  }

  /** JavaScript truthiness of an optional string: set and not empty. */
  predicate Truthy(o: Option<string>) {
    o.Some? && o.value != ""
  }

  /** How a stage ends. A disabled stage is never run; a skipped one ran and marked itself skipped. */
  datatype Status = Disabled | Skipped | Succeeded | Failed(error: Error)

  /** What a stage does to the outside world, in the order it does it. */
  datatype Effect =
    | RemoveDirectory(path: string)
    | RunTool(invocation: Invocation)
    | ExtractEntry(archive: string, entry: string, destination: string)
    | CopyTree(source: string, destination: string)

  /**
   * The outside world as the stages see it: whether removing the workspace, extracting from the
   * archive and copying fail (and with which message), what each tool run reports, and the
   * directory trees found at the paths the stages list.
   */
  datatype Env = Env(
    remove: Option<string>,
    run: Invocation -> RunOutcome,
    extract: Option<string>,
    copy: Option<string>,
    fs: map<string, Node>)

  datatype StageResult = StageResult(fields: Fields, status: Status, effects: seq<Effect>)

  /** A tool's stage succeeds exactly when the observed run ends without an error. */
  function ToolStatus(observed: RunOutcome): Status {
    match observed.failure
    case Some(m) => Failed(ToolFailure(m))
    case None => Succeeded
  }
}
