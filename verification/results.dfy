/** Outcomes of the calls the assistant makes into code it cannot see: a
    loader, the chat model, the search client. A Python exception becomes
    `Failure(msg)`, where `msg` is the exception's string form. */
module Results {

  datatype Result<+T> = Success(value: T) | Failure(error: string) {

    /** The value of a success, or `default` when the call raised. */
    function GetOr(default: T): T {
      match this
      case Success(v) => v
      case Failure(_) => default
    }
  }

  datatype Option<+T> = None | Some(value: T)
}
