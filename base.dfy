/** Shared vocabulary of the booking core: Java's nullable references, the
    outcome of a call that may throw, and the exceptions the core raises.

    Conventions used throughout the model:
    - a `LocalDateTime` is an `int` number of minutes on one time line, and the
      current time is passed in as `now`;
    - a `BigDecimal` price with scale 2 is an `int` number of cents. */
module Base {

  /** A Java reference that may be null. */
  datatype Option<+T> = None | Some(value: T)

  /** The exceptions thrown by the modelled code, each with its message. */
  datatype Error =
    | BookingError(message: string)     // com.cinema.movie.exception.BookingException
    | IllegalState(message: string)     // java.lang.IllegalStateException
    | IllegalArgument(message: string)  // java.lang.IllegalArgumentException

  /** A call that either returns a value or throws. */
  datatype Outcome<+T> = Success(value: T) | Failure(error: Error)

  /** `Math.min` on ints. */
  function Min(a: int, b: int): (m: int)
    ensures m <= a && m <= b
    ensures m == a || m == b
  {
    if a <= b then a else b
  }
}
