/** Failure-carrying values shared by every module of the model: Rust's `Option`,
    `Result` and the parts of `std::io::Error` the program produces or inspects. */
module Results {

  datatype Option<+T> = None | Some(value: T)

  datatype Result<+T, +E> = Ok(value: T) | Err(error: E)

  /** `std::io::Error`: either a raw OS error number (`from_raw_os_error`,
      `last_os_error`) or an `ErrorKind::InvalidInput` error built around a message. */
  datatype IoError = Os(errno: int) | InvalidInput(description: string)

  /** Linux errno values the program names (asm-generic/errno-base.h). */
  const EINTR: int := 4
  const EAGAIN: int := 11
  const EINVAL: int := 22
}
