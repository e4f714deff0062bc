/** Optional values and results, as returned by the finders and decoders of the model. */
module Wrappers {

  /** `None` stands for Python's `None` returned by a finder that found nothing. */
  datatype Option<+T> = None | Some(value: T)

  /** A decoder either succeeds or reports why it raised; usable with `:-`. */
  datatype Result<+T, +E> = Success(value: T) | Failure(error: E) {
    predicate IsFailure() {
      Failure?
    }

    function PropagateFailure<U>(): Result<U, E>
      requires Failure?
    {
      Failure(error)
    }

    function Extract(): T
      requires Success?
    {
      value
    }
  }

  /** Python's truth test on an optional integer filter: `None` and `0` are both false. */
  predicate Truthy(o: Option<int>) {
    o.Some? && o.value != 0
  }
}
