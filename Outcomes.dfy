/** How a decoding step ends: a value, or the exception the original code raises. */
module Outcomes {

  /** The failures of the decoding engine.
      - UnpackError: `struct.unpack` was given a buffer of the wrong length.
      - ValueError: `f.read` was given a negative count other than -1.
      - IndexError: a block number lies outside the chain table.
      - AttributeError: `.append` called on the dictionary that replaced the
        shared child list after the first directory of a batch.
      - Hangs: the directory loop can never leave its `while True`.
      - RecursionLimit: the depth budget of the directory expansion is spent
        (Python raises RecursionError at its interpreter limit). */
  datatype Error = UnpackError | ValueError | IndexError | AttributeError | Hangs | RecursionLimit

  datatype Result<T> = Ok(value: T) | Err(error: Error)

  datatype Option<T> = None | Some(value: T)
}
