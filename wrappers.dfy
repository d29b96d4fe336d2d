/** The optional value every early-exit stage of the log parser returns. */
module Wrappers {

  /** `None` for a line (or a stage) that is skipped, `Some` for one that yields a value. */
  datatype Option<+T> = None | Some(value: T)
}
