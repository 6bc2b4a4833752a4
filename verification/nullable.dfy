/** Java references that may be null, and calls that may throw an
    IllegalArgumentException. */
module Nullable {

  /** `None` is Java's `null`; `Some(v)` is a non-null reference to `v`. */
  datatype Option<+T> = None | Some(value: T)

  /** The result of a call that either completes with `value` or rejects its
      argument with an IllegalArgumentException carrying `message`. */
  datatype Outcome<+T> = Done(value: T) | IllegalArgument(message: string)
}

/** Entities are identified by their integer id. */
module Entities {

  type EntityId = nat
}
