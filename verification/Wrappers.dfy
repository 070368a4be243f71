/** The optional and fallible results the daemon and the scripts pass around. */
module Wrappers {
  datatype Option<+T> = None | Some(value: T)

  /** A transaction that reports success or an error whose text does not matter. */
  datatype Outcome = Ok | Err
}
