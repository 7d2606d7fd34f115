/** Option and Result carriers; Result supports `:-` so that a raised
    exception propagates the way it does in the modelled code. */
module Wrappers {

  datatype Option<+T> = None | Some(value: T)

  datatype Result<+T, +E> = Ok(value: T) | Err(error: E) {

    predicate IsFailure() {
      Err?
    }

    function PropagateFailure<U>(): Result<U, E>
      requires Err?
    {
      Err(error)
    }

    function Extract(): T
      requires Ok?
    {
      value
    }
  }
}

/** The Python exceptions the cleaning and linking code can raise. */
module Errors {

  datatype PyError =
    | KeyError(key: string)             // dict or column lookup of a missing key
    | TypeError                          // len(None), re.sub on None, int(None)
    | ValueError                         // int() of a non-numeric text
    | AttributeError(attribute: string)  // None.strip(), df.<missing column>
    | DateParseError(text: string)       // a date text no format recognises
}
