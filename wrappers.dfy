/** Optional values, standing for JavaScript's `undefined`/`null` next to a present value. */
module Wrappers {

  datatype Option<+T> = None | Some(value: T) {

    /** The value when present, otherwise `default`. */
    function GetOr(default: T): T {
      match this
      case Some(v) => v
      case None => default
    }
  }
}

/**
 * JavaScript truthiness of the few kinds of value the handlers test with `||`, `&&` and `if`.
 * An absent value is falsy, and so are the empty string and the number 0.
 * (NaN, which `parseInt` returns for a non-numeric string, is modelled as an absent number.)
 */
module Truthiness {
  import opened Wrappers

  predicate StringTruthy(s: Option<string>) {
    s.Some? && s.value != ""
  }

  predicate IntTruthy(n: Option<int>) {
    n.Some? && n.value != 0
  }

  /** `n || d` on a number: the number when it is truthy, else the fallback `d`. */
  function IntOr(n: Option<int>, d: int): (v: int)
    ensures IntTruthy(n) ==> v == n.value
    ensures !IntTruthy(n) ==> v == d
    ensures d != 0 ==> v != 0
  {
    if IntTruthy(n) then n.value else d
  }

  /** `s || d` on a string: the string when it is non-empty, else the fallback `d`. */
  function StringOr(s: Option<string>, d: string): (v: string)
    ensures StringTruthy(s) ==> v == s.value
    ensures !StringTruthy(s) ==> v == d
    ensures d != "" ==> v != ""
  {
    if StringTruthy(s) then s.value else d
  }
}
