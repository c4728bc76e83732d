/** The optional-value type that the container's lookups and insertions return. */
module Wrappers {

  /** `None` for absence, `Some(value)` for a present value. */
  datatype Option<+T> = None | Some(value: T)
}
