/** How a generator routine ends: with a value, or with the exception Python raises. */
module Outcomes {

  /** The exceptions the generator's routines can raise. */
  datatype PyError =
    | NameError          // an undefined name is read
    | TypeError          // a call with the wrong number of arguments
    | ValueError         // random.choices with no positive total weight
    | DivisionByZero     // decimal: x / 0 with x != 0
    | InvalidOperation   // decimal: 0 / 0
    | StopIteration      // next() on an exhausted iterator

  datatype Outcome<+T> = Returned(value: T) | Raised(error: PyError)
}
