/** Small value wrappers shared by the model. */
module Wrappers {

  /** A value that may be missing (`null` or `undefined` in the services' return types). */
  datatype Option<+T> = None | Some(value: T)

  /**
   * An optional GraphQL argument or input property as a resolver receives it:
   * left out (`undefined`), sent as `null`, or given a value.
   */
  datatype Arg<+T> = Absent | Null | Given(value: T)

  /** How an asynchronous call ends: with a value, or with an exception that propagates. */
  datatype Outcome<+T> = Returned(value: T) | Threw
}
