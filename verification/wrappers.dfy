/** Option and the codec's pass/fail outcome, shared by the other modules. */
module Wrappers {

  /** Rust's `Option<T>`. */
  datatype Option<+T> = None | Some(value: T) {

    /** `Option::or`: this value if present, otherwise `other`. */
    function Or(other: Option<T>): Option<T> {
      if Some? then this else other
    }

    /** `Option::and`: `other` if this value is present, otherwise `None`. */
    function And<U>(other: Option<U>): Option<U> {
      if Some? then other else None
    }
  }

  /** The success-or-error result of an operation that returns no value (`Result<(), E>`). */
  datatype Outcome<+E> = Pass | Fail(error: E)
}
