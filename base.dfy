/** Values shared by every part of the model: optional values and Go-style error results. */
module Base {

  /** A value that may be missing: Go's `nil` for a lookup that finds nothing. */
  datatype Option<T> = None | Some(value: T)

  /** The outcome of a Go call that returns `error`: `Ok(v)` when the error is nil,
      `Err(message)` otherwise. */
  datatype Result<T> = Ok(value: T) | Err(message: string)

  /** The outcome of a Go call that returns only `error`. */
  datatype Outcome = Success | Failure(message: string)

  /** Concatenation regroups freely. Stated once so that proofs about long command
      histories need not redo it inside larger contexts. */
  lemma AppendAssoc<T>(a: seq<T>, b: seq<T>, c: seq<T>)
    ensures a + b + c == a + (b + c)
  {
  }
}
