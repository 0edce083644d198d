/** Wrappers used across the model: `Option` for values that may be absent
    (a JS `null`/`undefined`/`NaN`), `Outcome` for checks that either pass
    or throw. */
module Wrappers {

  datatype Option<+T> = None | Some(value: T)

  /** Pass, or Fail with the error a JS function would have thrown. */
  datatype Outcome<+E> = Pass | Fail(error: E)
}
