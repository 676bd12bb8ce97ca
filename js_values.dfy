/** The few JavaScript value rules the dashboard relies on: optional values,
    truthiness of optional strings, and Math.floor / Math.ceil / `%` applied
    to integers. */
module JsValues {

  /** A value that may be absent (`undefined` or `null` in the page). */
  datatype Option<+T> = None | Some(value: T)

  /** JavaScript truthiness of an optional string: absent and "" are falsy. */
  predicate Truthy(s: Option<string>)
  {
    s.Some? && s.value != ""
  }

  /** `Math.floor(a / d)` for a positive divisor. */
  function FloorDiv(a: int, d: int): (q: int)
    requires d > 0
    ensures q * d <= a < q * d + d
  {
    a / d
  }

  /** `Math.ceil(a / d)` for a positive divisor. */
  function CeilDiv(a: int, d: int): (q: int)
    requires d > 0
    ensures q * d - d < a <= q * d
  {
    var f := a / d;
    if f * d == a then f else f + 1
  }

  /** JavaScript's `a % d` for a positive divisor: the remainder takes the
      sign of the dividend (truncating division), unlike Dafny's `%`. */
  function TruncRem(a: int, d: int): (r: int)
    requires d > 0
    ensures a >= 0 ==> 0 <= r < d && r == a - FloorDiv(a, d) * d
    ensures a < 0 ==> -d < r <= 0 && r == a + FloorDiv(-a, d) * d
  {
    if a >= 0 then a % d else -((-a) % d)
  }

  /** `Math.max(a, b)`. */
  function Max(a: int, b: int): (m: int)
    ensures m >= a && m >= b
    ensures m == a || m == b
  {
    if a >= b then a else b
  }
}
