/** Small result types shared by the modules of the model. */
module Wrappers {

  /** A value that may be missing (Python's `None`). */
  datatype Option<+T> = None | Some(value: T)

  /** Whether a command returned normally or raised an error with a message. */
  datatype Outcome = Pass | Fail(error: string)
}
