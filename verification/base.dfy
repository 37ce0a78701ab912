/** Small shared vocabulary: optional values and the JavaScript notion of a
    "truthy" request field that every handler's validation relies on. */
module Base {

  /** A value that may be absent: `undefined`/`null` in the handlers, a
      nullable column in the database. */
  datatype Option<T> = None | Some(value: T) {

    /** The value, or `default` when absent (the `a || b` idiom on objects). */
    function GetOr(default: T): T {
      match this
      case Some(v) => v
      case None => default
    }
  }

  /** A string field of `req.body` is truthy in JavaScript iff it is present
      and non-empty; `!field` is the negation. */
  predicate Present(f: Option<string>) {
    f.Some? && f.value != ""
  }

  /** `field || fallback` for a string field. */
  function OrKeep(f: Option<string>, fallback: string): (r: string)
    ensures Present(f) ==> r == f.value
    ensures !Present(f) ==> r == fallback
  {
    if Present(f) then f.value else fallback
  }
}
