/** The option and result types used throughout the model. A Go function that
    returns `(value, ok)` or `(value, err)` becomes an `Option` or a `Result`;
    a `log.Fatalf` branch becomes a `Failure` carrying the reason. */
module Wrappers {

  datatype Option<+T> = None | Some(value: T)

  datatype Result<+R, +E> = Success(value: R) | Failure(error: E)
}
