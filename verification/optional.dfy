/** A value that may be missing. In the registration handler this is a body
    field that is `null` or `undefined`, a validator with nothing to say, or
    a response without a `Location` header. */
module Optional {

  datatype Option<+T> = None | Some(value: T) {

    /** The value if there is one, and `default` otherwise. */
    function GetOr(default: T): (r: T) {
      if Some? then value else default
    }
  }
}
