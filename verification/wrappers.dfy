/** Option and Result types shared by every handler of the credit store.

    The HTTP layer answers a rejected request with a status code; the model
    keeps only the kind of rejection. */
module Wrappers {

  /** Python's `Optional[T]`: a value or `None`. */
  datatype Option<+T> = None | Some(value: T) {

    /** Python's `x if x is not None else default`. */
    function GetOr(default: T): T {
      match this
      case Some(v) => v
      case None => default
    }
  }

  /** The kinds of rejection a handler can answer with.
      - BadRequest: status 400 (also FastAPI's 422 for an out-of-range query parameter)
      - NotFound: status 404
      - Unhandled: an exception the handler does not catch (status 500) */
  datatype Err = BadRequest | NotFound | Unhandled

  /** The answer of a read-only handler. */
  datatype Result<+T> = Ok(value: T) | Error(err: Err)
}
