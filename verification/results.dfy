/** Failure-carrying results for the operations that throw in the original code. */
module Results {

  /** The exceptions the modelled code can raise. */
  datatype Error =
    | FormatError      // IllegalArgumentException from the decimal-text constructor
    | ArithmeticError  // ArithmeticException from BigInteger.modPow with a modulus <= 0

  datatype Result<+T> = Ok(value: T) | Err(error: Error) {
    predicate IsFailure() {
      Err?
    }

    function PropagateFailure<U>(): Result<U>
      requires Err?
    {
      Err(error)
    }

    function Extract(): T
      requires Ok?
    {
      value
    }
  }
}
