/** Shared value types: an optional value, the Python exceptions the bridge
    can raise, and a result that carries either a value or one of them. */
module Base {

  datatype Option<T> = None | Some(value: T)

  /** The exceptions raised by the modelled code (Python built-ins and the
      one exception class of pymodbus it uses). */
  datatype Exception =
    | IndexError          // a list indexed past its end
    | KeyError            // a dict (or row) looked up at a missing key
    | TypeError           // None ordered against an int, len() of an int
    | ValueError          // int() of a malformed string, a non-integer fill value
    | AttributeError      // a method called on None (a register block that was not built)
    | ParameterException  // pymodbus configuration error

  /** Either a value or the exception that was raised instead. */
  datatype Result<T> = Ok(value: T) | Err(error: Exception) {
    predicate IsFailure() {
      Err?
    }

    function PropagateFailure<U>(): Result<U>
      requires Err?
    {
      Err(error)
    }

    function Extract(): T
      requires Ok?
    {
      value
    }
  }
}
