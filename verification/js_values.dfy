/** Request inputs as the handlers see them. A query parameter or body field is
    either absent (`undefined`) or carries a value, and a present value can still
    be "falsy": the handlers test most fields with JavaScript truthiness, where
    the empty string and the number 0 count as false. */
module JsValues {

  /** `None` is an absent field (`undefined`), `Some(v)` a supplied one. */
  datatype Option<+T> = None | Some(value: T) {

    /** The value if supplied, otherwise `fallback` (the `x !== undefined ? x : fallback` idiom). */
    function GetOr(fallback: T): T {
      match this
      case Some(v) => v
      case None => fallback
    }
  }

  /** Truthiness of an optional string: `undefined` and `""` are falsy. */
  predicate TruthyString(v: Option<string>) {
    v.Some? && v.value != ""
  }

  /** Truthiness of an optional number: `undefined` and `0` are falsy. */
  predicate TruthyNumber(v: Option<int>) {
    v.Some? && v.value != 0
  }

  /** `v || fallback` for a string field. */
  function OrString(v: Option<string>, fallback: string): string {
    if TruthyString(v) then v.value else fallback
  }

  /** `v || fallback` for a numeric field. */
  function OrNumber(v: Option<int>, fallback: int): int {
    if TruthyNumber(v) then v.value else fallback
  }
}
