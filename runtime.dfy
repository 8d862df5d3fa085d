/** Values and failures of the Python runtime that the modelled code can produce. */
module Runtime {

  datatype Option<T> = None | Some(value: T)

  /** A Python value of the two kinds the modelled code returns or looks up: a `str` or an `int`. */
  datatype PyValue = Str(s: string) | Int(i: int)

  /** The Python exceptions the modelled code can raise. */
  datatype Error =
    | KeyError(key: PyValue)    // a dict or table lookup of a missing key
    | NameError(name: string)   // a reference to a name that is not bound

  /** The outcome of a Python call: the value it returns, or the exception it raises. */
  datatype Result<T> = Ok(value: T) | Err(error: Error)
}
