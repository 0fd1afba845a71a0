/** Failure-carrying return values of the shim: the Python code raises
    RuntimeError or KeyError where these return `Err`. */
module Results {

  /** A value that may be absent (Python's `None`). */
  datatype Option<+T> = None | Some(value: T)

  /** The errors the shim raises. */
  datatype Error =
    | NotBound      // hardware call from a thread that never bound a robot id
    | UnknownRobot  // robot id missing from the registry (KeyError)
    | WorldNotSet   // hardware call before the world was installed

  datatype Result<+T> = Ok(value: T) | Err(error: Error)
}
