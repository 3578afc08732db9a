/** Protocol value types the capability handlers produce, in the shape of
    the Language Server Protocol 3.17 structures they are copied into. */
module Lsp {

  datatype Option<+T> = None | Some(value: T)

  /** A failed request: the handler returns an error instead of a response. */
  datatype Result<+T> = Ok(value: T) | Err(reason: Failure)

  datatype Failure =
    | UnreadableText(node: nat)   // get_text of that node did not succeed
    | RowOverflow                 // the document's row count does not fit a u32

  type Uri = string

  /** A (line, character) pair; both are u32 in the protocol. */
  datatype Position = Position(line: nat, character: nat)

  /** Lexicographic order on (line, character), as Rust's tuple comparison. */
  predicate PosLe(a: Position, b: Position) {
    a.line < b.line || (a.line == b.line && a.character <= b.character)
  }

  predicate PosLt(a: Position, b: Position) {
    !PosLe(b, a)
  }

  /** A range whose end is exclusive (LSP 3.17). */
  datatype Range = Range(start: Position, end: Position)

  /** `start <= pos < end`: the range covers the position. */
  predicate Covers(r: Range, pos: Position) {
    PosLe(r.start, pos) && PosLt(pos, r.end)
  }

  datatype Location = Location(uri: Uri, range: Range)

  datatype Severity = SevError | SevWarning | SevInformation | SevHint

  datatype RelatedInformation = RelatedInformation(location: Location, message: string)

  datatype Diagnostic = Diagnostic(
    range: Range,
    severity: Option<Severity>,
    message: string,
    related: Option<seq<RelatedInformation>>)

  datatype TextEdit = TextEdit(range: Range, newText: string)

  /** A workspace edit's `changes` map, one entry per document. */
  datatype WorkspaceEdit = WorkspaceEdit(changes: map<Uri, seq<TextEdit>>)

  lemma PosLeTransitive(a: Position, b: Position, c: Position)
    requires PosLe(a, b) && PosLe(b, c)
    ensures PosLe(a, c)
  {
  }
}
