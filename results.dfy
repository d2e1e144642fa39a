/// Option and Result values used wherever the scripts either produce a value
/// or stop (an exception, a failed regular-expression match, `sys.exit`).
module Results {

  datatype Option<+T> = None | Some(value: T)

  datatype Result<+T, +E> = Success(value: T) | Failure(error: E)
}
