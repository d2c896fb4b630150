/** Small shared vocabulary: optional values, results, and JavaScript truthiness
    of the request fields the server inspects. */
module Common {

  /** A value that may be missing; `None` plays the role of JavaScript `undefined`. */
  datatype Option<T> = None | Some(value: T) {

    /** The value, or `default` when missing (JavaScript `v || default` for non-falsy values). */
    function GetOr(default: T): T {
      match this
      case Some(v) => v
      case None => default
    }
  }

  /** The outcome of an operation that can throw; `Err` carries what was thrown. */
  datatype Result<T, E> = Ok(value: T) | Err(error: E)

  /** JavaScript truthiness of an optional string: `undefined` and "" are falsy. */
  predicate TruthyText(v: Option<string>) {
    v.Some? && v.value != ""
  }

  /** JavaScript truthiness of an optional integer: `undefined` and 0 are falsy. */
  predicate TruthyNumber(v: Option<int>) {
    v.Some? && v.value != 0
  }
}
