/** Bytes and the I/O error values that the terminal device and the readers
    of the model may report. */
module Io {

  /** One octet (Rust `u8`, C `cc_t`). */
  type byte = x: int | 0 <= x < 256

  /** An operating-system error, identified by its `errno` value. The model
      never inspects the code; it only carries it back to the caller. */
  datatype IoError = IoError(errno: int)

  /** `ENOTTY`: the descriptor does not refer to a terminal. */
  const ENOTTY: int := 25
}
