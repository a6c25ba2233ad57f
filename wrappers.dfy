/** Option and the outcome of a Python call that may raise. */
module Wrappers {

  datatype Option<+T> = None | Some(value: T)

  /** The Python exception classes the modelled code raises, catches or lets through. */
  datatype ExceptionKind =
    | JSONDecodeError
    | IndexError
    | KeyError
    | ValueError
    | AttributeError
    | HTTPStatusError(statusCode: int)
    | RequestError
    | APIError

  /** A raised exception: its class and `str(exception)`. */
  datatype Exception = Exception(kind: ExceptionKind, message: string)

  /** What a Python call does: return a value or raise an exception. */
  datatype Result<+T> = Ok(value: T) | Raise(exception: Exception)
}
