/** Outcomes shared by the zone modules: an optional value (a Java reference
    that may be null) and a result that is either a value or one of the
    distinguishable rejection kinds. */
module ZoneErrors {

  datatype Option<+T> = None | Some(value: T)

  /** Why a caller's input was rejected. */
  datatype ZoneError =
    | NullArgument   // a null identifier (NullPointerException)
    | FormatError    // malformed offset text (IllegalArgumentException)
    | UnknownZone    // a region name the catalogue does not know (IllegalArgumentException)

  datatype Result<+T> = Ok(value: T) | Err(error: ZoneError) {

    predicate IsFailure() {
      Err?
    }

    function PropagateFailure<U>(): Result<U>
      requires Err?
    {
      Err(error)
    }

    function Extract(): T
      requires Ok?
    {
      value
    }
  }
}
