/*
 * Go `error` values as far as the server inspects them: the resolver asks
 * only whether an error is an *os.PathError, and renderers only print its
 * message.
 */
module Errors {
  import opened Strings

  /** The dynamic type of an error, as far as `switch err.(type)` tells. */
  datatype ErrorKind = PathError | OtherError

  /** An error value; `message` is what err.Error() returns. */
  datatype Error = Error(kind: ErrorKind, message: Str)

  /** A (value, error) pair where exactly one of the two is meaningful. */
  datatype Result<+T> = Ok(value: T) | Err(error: Error)

  /** What io/fs reports for a name that does not exist. */
  function NotExist(name: Str): Error {
    Error(PathError, Ascii("open ") + name + Ascii(": file does not exist"))
  }

  /** What a write on a connection the peer has dropped reports. */
  const BrokenPipe: Error := Error(OtherError, Ascii("write: broken pipe"))

  /** What using a closed file or connection reports. */
  const AlreadyClosed: Error := Error(OtherError, Ascii("use of closed file"))
}
