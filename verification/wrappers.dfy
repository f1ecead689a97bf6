/** Failure-compatible value types shared by every component.

    `Option` stands for the TypeScript `T | null | undefined` fields and props;
    `Outcome` is what one call to the hosted store returns: the rows, or an
    opaque error. Each store call is modelled as atomic.
 */
module Wrappers {

  datatype Option<+T> = None | Some(value: T) {

    /** The value held in `Some`, or `default` for `None`. */
    function GetOr(default: T): T {
      match this
      case Some(v) => v
      case None => default
    }
  }

  /** The `{ data, error }` pair a store call resolves to: exactly one side is meaningful. */
  datatype Outcome<+R> = Ok(value: R) | Err {

    predicate IsFailure() {
      Err?
    }
  }
}
