/** Optional values and pass/fail outcomes shared by the other modules. */
module Wrappers {

  datatype Option<+T> = None | Some(value: T)

  /** The result of a collaborator that either yields a value or throws. */
  datatype Outcome<+T> = Ok(value: T) | Failed
}
