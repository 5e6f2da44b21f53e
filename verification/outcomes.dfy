/** Values that may be absent, and the ways a routine of the editor can end
    without returning a value. */
module Outcomes {

  datatype Option<T> = None | Some(value: T)

  /** How a call ends abnormally. */
  datatype Fault =
    | TypeError   // a property read on `undefined`, which JavaScript raises
    | Diverges    // a loop whose exit condition can never become true

  datatype Result<T> = Ok(value: T) | Fail(fault: Fault)
}
