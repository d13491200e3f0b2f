/** The exceptions the modelled code can raise, and a Result type that carries them
    in place of Python's raise. */
module Outcomes {

  datatype Error =
    | ZeroDivisionError        // `indx / increment_bar` with a zero capacity, or a zero population
    | ValueError(name: string) // `list.remove(name)` when `name` is not in the list; `name`
                               // records which call failed (Python's message does not carry it)

  datatype Result<+T> = Ok(value: T) | Err(error: Error)

  datatype Option<+T> = None | Some(value: T)
}
