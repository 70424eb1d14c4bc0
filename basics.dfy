/** Small failure-carrying datatypes shared by the other modules. */
module Basics {

  /** A value that may be missing (Python's None, JavaScript's undefined). */
  datatype Option<+T> = None | Some(value: T) {
    function GetOr(default: T): T {
      match this
      case Some(v) => v
      case None => default
    }
  }

  /** The result of an operation that either produces a value or raises an error. */
  datatype Result<+T, +E> = Ok(value: T) | Err(error: E)

  /** The result of an operation that only succeeds or raises an error. */
  datatype Outcome<+E> = Pass | Fail(error: E)

  /**
    A string that is truthy in Python and JavaScript: present (not None, null
    or undefined) and not the empty string.
  */
  predicate Given(s: Option<string>) {
    s.Some? && s.value != ""
  }

  /** Dictionary lookup that yields None for a missing key (Python's dict.get). */
  function Get<K, V>(m: map<K, V>, k: K): (r: Option<V>)
    ensures r.Some? <==> k in m
    ensures r.Some? ==> r.value == m[k]
  {
    if k in m then Some(m[k]) else None
  }
}
