/** Optional values and error results shared by the automaton modules. */
module Wrappers {

  /** An optional value. As an NFA edge label, `None` is the epsilon label;
      as a scan result, `None` is "no match". */
  datatype Option<+T> = None | Some(value: T)

  /** The outcome of an operation that can fail with a message. */
  datatype Result<+R> = Success(value: R) | Failure(error: string)
}
