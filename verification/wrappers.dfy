/** Failure-carrying values shared by the whole model.

    The modelled Python code signals failure by raising; the few exception
    classes it can raise are named by `Error`, and every operation that can
    raise returns a `Result`. */
module Wrappers {

  /** The Python exceptions the modelled code can raise.
      `OSError` stands for every failure of reading an image file: PIL's
      `UnidentifiedImageError` from `Image.open`, the error `convert`
      raises on a truncated file, and `FileNotFoundError` for a missing
      path are all subclasses of it. */
  datatype Error = IndexError | ValueError | AssertionError | OSError

  /** Python's `None` or a present value. */
  datatype Option<+T> = None | Some(value: T)

  /** A value, or the exception raised while computing it. */
  datatype Result<+T> = Success(value: T) | Failure(error: Error) {

    predicate IsFailure() {
      Failure?
    }

    function PropagateFailure<U>(): Result<U>
      requires Failure?
    {
      Failure(error)
    }

    function Extract(): T
      requires Success?
    {
      value
    }
  }
}
