/** Values shared by every module: an optional value (JavaScript `undefined`,
    Java `null`) and JavaScript truthiness of an optional string. */
module Common {

  datatype Option<T> = None | Some(value: T)
  {
    /** The value, or `default` when absent (JavaScript `x ?? default`). */
    function GetOr(default: T): T
    {
      match this
      case Some(v) => v
      case None => default
    }
  }

  /** JavaScript truthiness of a value of type `string | undefined`:
      both `undefined` and the empty string are falsy. */
  predicate Truthy(s: Option<string>)
  {
    s.Some? && s.value != ""
  }
}
