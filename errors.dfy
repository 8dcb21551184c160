/** Error values and the small result wrappers shared by the whole model. */
module Errors {

  /** Every error the bootstrap code can observe: its own two messages, the
      failure of the user lookup, and the classes of error the os package
      reports (os.ErrNotExist, os.ErrExist, ENOTDIR, EISDIR, EACCES, EINVAL). */
  datatype Error =
    | CannotExpandHomeDir            // "cannot expand user-specific home dir"
    | UserLookupFailed(reason: string)
    | NoHomeDir                      // "cannot find user-specific home dir"
    | ErrNotExist
    | ErrExist
    | ErrNotDir
    | ErrIsDir
    | ErrPermission
    | ErrInvalid

  datatype Option<+T> = None | Some(value: T)

  /** A Go `(T, error)` pair: exactly one of the two is meaningful. */
  datatype Result<+T> = Ok(value: T) | Err(error: Error) {

    /** The value, or `default` where Go code discards the error with `v, _ :=`. */
    function GetOr(default: T): T {
      match this
      case Ok(v) => v
      case Err(_) => default
    }
  }
}
