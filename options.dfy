/** The optional value used across the model. */
module Options {

  datatype Option<+T> = None | Some(value: T) {

    /** The carried value, or a default when there is none */
    function GetOr(default: T): T
    {
      match this
      case Some(v) => v
      case None => default
    }
  }
}
