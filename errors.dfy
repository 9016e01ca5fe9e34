/** The ways a patch run can fail, each with the message the program reports. */
module Errors {

  datatype Error =
    | FileDoesNotExist(path: string)   // argument validation (src/index.ts:20)
    | PathUndefined                    // fs.readdir called with an undefined path
    | NoSuchDirectory(path: string)    // fs.readdir on a missing path (ENOENT)
    | NotADirectory(path: string)      // fs.readdir on a file (ENOTDIR)
    | NoPathSegment(path: string)      // `path.match(...)` gave null and `[0]` threw
    | ToolFailure(message: string)     // a tool exited non-zero or printed a fatal line
    | ContextMissing                   // the merge stage's guard (src/tasks/code-merge-task.ts:11)
    | ArchiveFailure(message: string)  // the AAR could not be opened or lacks classes.jar
    | NoSharedRoot                     // `sharedRoot.match` on an undefined root
    | NoSuchFile(path: string)         // the recursive copy's source is missing (ENOENT)
    | CopyFailure(message: string)     // the recursive copy reported an error
    | RemoveFailure(message: string)   // the workspace could not be removed

  /** The text of the error as the program would report it. */
  function Message(e: Error): string {
    match e
    case FileDoesNotExist(p) => "File does not exist! Provided path: " + p
    case PathUndefined => "The \"path\" argument must be of type string. Received undefined"
    case NoSuchDirectory(p) => "ENOENT: no such file or directory, scandir '" + p + "'"
    case NotADirectory(p) => "ENOTDIR: not a directory, scandir '" + p + "'"
    case NoPathSegment(_) => "Cannot read property '0' of null"
    case ToolFailure(m) => m
    case ContextMissing => "Context missing required references!"
    case ArchiveFailure(m) => m
    case NoSharedRoot => "Cannot read property 'match' of undefined"
    case NoSuchFile(p) => "ENOENT: no such file or directory, lstat '" + p + "'"
    case CopyFailure(m) => m
    case RemoveFailure(m) => m
  }
}
