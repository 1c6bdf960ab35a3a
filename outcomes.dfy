/** Result shapes shared by the store, the selector and the command layer. */
module Outcomes {

  /** A value that may be absent. */
  datatype Option<+T> = None | Some(value: T)

  /** How an operation ends: normally with a value, or by ending the whole
      process with an exit code (the program calls `process::exit` deep inside
      the store and the selector). */
  datatype Outcome<+T> = Ok(value: T) | Exit(code: int)

  function Min(a: nat, b: nat): nat
  {
    if a <= b then a else b
  }
}
