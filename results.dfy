/** The success-or-error value that stands for the generator's fatal
    error() exits and uncaught exceptions. */
module Results {

  datatype Result<+T, +E> = Ok(value: T) | Err(error: E)

  datatype Option<+T> = None | Some(value: T)
}
