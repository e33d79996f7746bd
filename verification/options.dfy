/** An optional value: the shape of every .NET `TryParse(…, out value)` result. */
module Options {

  datatype Option<+T> = None | Some(value: T) {

    /** The value when present, `default` otherwise (what a failed `TryParse` leaves in its out-parameter). */
    function GetOr(default: T): T {
      match this
      case Some(v) => v
      case None => default
    }
  }
}
