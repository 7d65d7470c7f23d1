/** Small value types shared by the calculator panes. */
module Common {

  /** An optional value. */
  datatype Option<+T> = None | Some(value: T)

  /** The outcome of a step that can fail with a message, as the panes'
      `try`/`catch` blocks and early `return`s with a message do. */
  datatype Result<+T, +E> = Success(value: T) | Failure(error: E)

  /** A JavaScript number as the panes see it: NaN, or a finite value.
      `Number` has no infinite value: Infinity is not modelled. */
  datatype Number = NaN | Num(value: real)
}
