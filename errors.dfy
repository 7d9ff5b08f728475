/** The Go `error` values the upload pipeline creates and inspects. */
module Errors {
  import opened Base

  /**
   * An `error`: the `io.EOF` sentinel, an error with its own message (from a
   * collaborator: the database, the file system, the transport), or an error
   * made by `fmt.Errorf` with a `%w` verb, which keeps its cause.
   */
  datatype Error = Eof | Leaf(msg: string) | Wrapped(prefix: string, cause: Error)

  /** `err.Error()`; the `%v` and `%w` verbs print this text. */
  function Message(e: Error): string
  {
    match e
    case Eof => "EOF"
    case Leaf(m) => m
    case Wrapped(p, c) => p + Message(c)
  }

  /** `errors.Unwrap`. */
  function Unwrap(e: Error): Option<Error>
  {
    if e.Wrapped? then Some(e.cause) else None
  }

  /** `fmt.Errorf(prefix + "%w", cause)`. */
  function Wrap(prefix: string, cause: Error): (r: Error)
    ensures Unwrap(r) == Some(cause)
    ensures EndsWith(Message(r), Message(cause))
    ensures r != Eof
  {
    Wrapped(prefix, cause)
  }
}
