/** Option and Result values, and the error kinds that Watson's Python code raises. */
module Wrappers {

  datatype Option<+T> = None | Some(value: T)

  /** The exceptions the modelled code can raise. `WatsonError` and `ClickError`
      carry the message shown to the user; `ExclusiveError` is the click error naming
      the options that cannot be given together; the others are Python built-ins. */
  datatype Error =
    | WatsonError(message: string)
    | ClickError(message: string)
    | KeyError
    | IndexError
    | TypeError
    | ValueError
    | AttributeError
    | ExclusiveError(options: set<string>)

  datatype Result<+T> = Ok(value: T) | Err(error: Error)

  /** A result that carries no value. */
  datatype Outcome = Pass | Fail(error: Error)
}
