/** Small failure-carrying datatypes shared by the whole model. */
module Wrappers {

  /** Go's nil-or-value results (a nil `net.IP`, an absent map entry). */
  datatype Option<+T> = None | Some(value: T)

  /** A recoverable error returned to the caller, as Go's `(value, error)` pair. */
  datatype Result<+T> = Success(value: T) | Failure(error: string)

  /** The outcome of a tracker operation: `Fatal` stands for `klog.Exitf`, which ends the
      process, so nothing after a `Fatal` is ever observable. */
  datatype Fallible<+T> = Ok(value: T) | Fatal(message: string)
}
