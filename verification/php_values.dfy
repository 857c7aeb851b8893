/**
 The slice of PHP's value model that the database object touches: column values,
 primary-key values and driver results, together with PHP's notions of
 "empty" (the `empty()` construct and boolean coercion) and "set" (`isset`).
 */
module PhpValues {

  /** An optional value: a missing array key, a missing argument or a driver that found nothing. */
  datatype Option<+T> = None | Some(value: T) {

    /** The wrapped value, or `default` when there is none. */
    function GetOr(default: T): T
    {
      match this
      case Some(v) => v
      case None => default
    }
  }

  /** A PHP scalar as it flows through the class (floats and nested arrays are not modelled). */
  datatype Value = Null | Bool(b: bool) | Int(i: int) | Str(s: string)

  /** A string PHP's `empty()` treats as empty: the empty string and "0". */
  predicate EmptyString(s: string)
  {
    s == "" || s == "0"
  }

  /** PHP's `empty()` on a scalar: null, false, 0, "" and "0". */
  predicate IsEmpty(v: Value)
  {
    match v
    case Null => true
    case Bool(b) => !b
    case Int(i) => i == 0
    case Str(s) => EmptyString(s)
  }

  /** PHP's boolean coercion (`if ($v)`): true exactly for the values `empty()` rejects. */
  predicate Truthy(v: Value)
  {
    !IsEmpty(v)
  }

  /** PHP's `isset()` on a value that is present: everything except null. */
  predicate IsSet(v: Value)
  {
    !v.Null?
  }
}
