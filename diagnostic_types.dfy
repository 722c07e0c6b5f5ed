/** The records the daemon passes between clang-tidy's output and the JSON-RPC
    results (daemon/src/main.rs, `Position` … `InternalDiagnostic`). */
module DiagnosticTypes {
  import opened Wrappers
  import opened Machine

  /** A 0-based line and a 0-based UTF-16 column. */
  datatype Position = Position(line: nat, character: nat)

  datatype Range = Range(start: Position, end: Position)

  datatype TextEdit = TextEdit(range: Range, newText: string)

  datatype Fix = Fix(title: string, edits: seq<TextEdit>)

  /** A diagnostic as it is sent to the client and kept in the caches. */
  datatype RpcDiagnostic = RpcDiagnostic(
    range: Range,
    severity: string,
    code: Option<string>,
    message: string,
    fixes: Option<seq<Fix>>)

  /** A diagnostic while the daemon still knows which file it came from. */
  datatype InternalDiagnostic = InternalDiagnostic(
    file: Path,
    range: Range,
    severity: string,
    code: Option<string>,
    message: string,
    fixes: seq<Fix>)
}
