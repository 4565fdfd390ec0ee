/** Failure-carrying values used in place of Java's null results and exceptions. */
module Wrappers {

  datatype Option<+T> = None | Some(value: T)

  /** Why a java.time call threw a DateTimeException (or NumberFormatException). */
  datatype TimeError =
    | InvalidOffset       // ZoneOffset.ofHoursMinutesSeconds rejected its arguments
    | InvalidDate         // LocalDate.of rejected year, month or day
    | InvalidTime         // LocalTime.of rejected hour, minute, second or nano
    | UnknownZone         // ZoneId.of could not resolve the identifier
    | Unparsable          // a formatter could not parse the text
    | Unprintable         // a formatter could not print a field of the value
    | NumberFormat        // Integer.parseInt rejected a component

  datatype Result<+T> = Success(value: T) | Failure(error: TimeError) {
    predicate IsFailure() {
      Failure?
    }

    function PropagateFailure<U>(): Result<U>
      requires Failure?
    {
      Failure(error)
    }

    function Extract(): T
      requires Success?
    {
      value
    }
  }
}
