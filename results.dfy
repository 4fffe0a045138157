/** Outcomes of the request handlers: a value, or one of the input errors that
    the handlers report back to the caller instead of a value. */
module Results {

  /** The error kinds the handlers report. */
  datatype Error =
    | InvalidFormat(field: string)  // a numeric field is not a positive decimal integer
    | TooLarge                      // the Diffie-Hellman modulus exceeds the parameter ceiling
    | InvalidGroup                  // the modulus is not prime, or the generator is not in (1, p)
    | ModulusTooLarge               // the discrete-logarithm search bound is exceeded
    | NoSolutionFound               // the exhaustive discrete-logarithm search found nothing
    | InvalidColor                  // a colour is not of the form #RRGGBB

  /** A value, or the first error met while computing it. Usable with `:-`. */
  datatype Result<+T> = Ok(value: T) | Err(error: Error) {
    predicate IsFailure() {
      Err?
    }

    function PropagateFailure<U>(): Result<U>
      requires Err?
    {
      Err(error)
    }

    function Extract(): T
      requires Ok?
    {
      value
    }
  }

  datatype Option<+T> = None | Some(value: T)
}
