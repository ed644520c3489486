/** Option and Result wrappers, and the error kinds the tree operations report. */
module Wrappers {

  /** A possibly missing value; stands for a Go pointer that may be nil. */
  datatype Option<+T> = None | Some(value: T)

  /** The failures of the tree operations: RemoveChild's two error returns,
      UpDistance's missing ancestor (a process exit in nwk.go), and
      the ways the tree builder fails: a nil cursor dereferenced, an empty
      token indexed, a length that does not parse (both process exits in
      nwk.go), and the two commas that the Go code lets corrupt the tree
      (one on a node that already has a sibling, one on a root). */
  datatype Error =
    | NoChildren | ChildNotFound | NotAncestor
    | NilCursor | EmptyToken | BadLength | SibOverwrite | TopLevelComma

  datatype Result<+T> = Ok(value: T) | Err(error: Error)

  /** A Go `error` return: nil or an error. */
  datatype Outcome = Pass | Fail(error: Error)
}
