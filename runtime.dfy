/**
 * The process the command-line tool runs in, reduced to what the report and
 * exit logic do to it: lines and documents written to the console, the
 * hand-over of unused exceptions, and the exit status. A process that has
 * exited writes nothing more.
 */
module Runtime {
  import opened Base
  import opened Types

  /** One thing the process emits, in the order it is emitted. */
  datatype Output =
    | ErrorLine(text: string)
      // `console.error`
    | InfoLine(text: string)
      // `console.info` of a message
    | SecurityTable(headers: seq<SecurityReportHeader>, rows: Report, titleWidth: int, pathsWidth: int)
      // the security report table: its header row, its data rows and the widths of the Title and Paths columns
    | JsonDocument(doc: JsonOutput)
      // `console.info` of the machine-readable document
    | UnusedExceptionsHandled(ids: seq<string>, modules: seq<string>)
      // the unused exceptions passed on to the exception bookkeeping

  class Process {
    /** Everything emitted so far, oldest first. */
    var outputs: seq<Output>
    /** The status passed to `process.exit`, once it has been called. */
    var exitCode: Option<int>

    constructor ()
      ensures outputs == [] && exitCode == None
    {
      outputs := [];
      exitCode := None;
    }

    /** Writes one output; only a running process can. */
    method Emit(o: Output)
      requires exitCode == None
      modifies this
      ensures outputs == old(outputs) + [o]
      ensures exitCode == None
    {
      outputs := outputs + [o];
    }

    /** `process.exit(code)`: the process stops with that status. */
    method Exit(code: int)
      requires exitCode == None
      modifies this
      ensures exitCode == Some(code)
      ensures outputs == old(outputs)
    {
      exitCode := Some(code);
    }
  }
}
