/** Failure-carrying results shared by every module of the model.

    Go functions here return `(value, error)` or just `error`. A pure query
    becomes a `Result`; a keeper call that writes to stores becomes an
    `Outcome`, which keeps the state as it stands after the call together
    with the error, if any, because keeper writes in the source take effect
    immediately and are not rolled back by a later error in the same call. */
module Outcomes {

  datatype Option<+T> = None | Some(value: T) {

    function GetOr(default: T): T {
      match this
      case Some(v) => v
      case None => default
    }
  }

  datatype Result<+T, +E> = Ok(value: T) | Err(error: E)

  /** The store state left behind by a keeper call, and the error it returned. */
  datatype Outcome<+S, +E> = Outcome(state: S, failure: Option<E>) {

    predicate Succeeded() {
      failure.None?
    }
  }
}
