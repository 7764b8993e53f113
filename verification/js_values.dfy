/** JavaScript value conventions the handlers rely on, reduced to what the
    handlers observe: a request field is either absent (or null) or a string,
    and a string field is "truthy" exactly when it is present and non-empty. */
module JsValues {

  /** An optional value: `None` stands for both `undefined` and `null`. */
  datatype Option<+T> = None | Some(value: T) {

    /** The value, or `default` when absent. */
    function GetOr(default: T): (r: T)
      ensures Some? ==> r == value
      ensures None? ==> r == default
    {
      match this
      case Some(v) => v
      case None => default
    }
  }

  /** `!!s` for a field that is absent or a string. */
  predicate Truthy(s: Option<string>) {
    s.Some? && s.value != ""
  }

  /** `s || fallback`: the field when it is truthy, otherwise the fallback. */
  function OrElse(s: Option<string>, fallback: string): (r: string)
    ensures Truthy(s) ==> r == s.value
    ensures !Truthy(s) ==> r == fallback
    ensures fallback != "" ==> r != ""
  {
    if Truthy(s) then s.value else fallback
  }
}
