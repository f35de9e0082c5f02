/** The Python-level outcomes the scripts produce: a value, `None`, or a
    raised exception. */
module Py {

  datatype Option<+T> = None | Some(value: T) {
    predicate IsFailure() { None? }

    function PropagateFailure<U>(): Option<U>
      requires None?
    {
      None
    }

    function Extract(): T
      requires Some?
    {
      value
    }
  }

  /** The exceptions the modelled code can raise. */
  datatype Exception =
    | KeyError          // a missing dictionary key, `del d[k]` or `d[k]`
    | IndexError        // a list index past the end
    | ValueError        // a failed `int(...)`, unpacking or address conversion
    | TypeError         // `int(None)`, `str + int`
    | AttributeError    // an attribute the object does not have
    | ZeroDivisionError // division by `0.0`

  /** Either the value an expression evaluates to, or the exception it raises. */
  datatype Result<+T> = Ok(value: T) | Raise(exc: Exception) {
    predicate IsFailure() { Raise? }

    function PropagateFailure<U>(): Result<U>
      requires Raise?
    {
      Raise(exc)
    }

    function Extract(): T
      requires Ok?
    {
      value
    }
  }

  function Max(a: int, b: int): int { if a >= b then a else b }
}
