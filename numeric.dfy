/** `Program.clamp`, over real numbers. */
module Numeric {

  /** `Math.Max` on two numbers. */
  function Max(a: real, b: real): (r: real)
    ensures r >= a && r >= b && (r == a || r == b)
  {
    if a >= b then a else b
  }

  /** `Math.Min` on two numbers. */
  function Min(a: real, b: real): (r: real)
    ensures r <= a && r <= b && (r == a || r == b)
  {
    if a <= b then a else b
  }

  /**
   * `clamp(num, min, max) = Math.Min(Math.Max(num, min), max)`.
   * With `min <= max` the result is `num` pulled into `[min, max]`; with
   * `min > max` the outer `Math.Min` makes it `max` whatever `num` is.
   */
  function Clamp(num: real, min: real, max: real): (r: real)
    ensures min <= max ==> min <= r <= max
    ensures min <= num <= max ==> r == num
    ensures num < min && min <= max ==> r == min
    ensures num > max ==> r == max
    ensures min > max ==> r == max
  {
    Min(Max(num, min), max)
  }

  /** Clamping is monotone in the clamped number. */
  lemma ClampMonotone(a: real, b: real, min: real, max: real)
    requires a <= b
    ensures Clamp(a, min, max) <= Clamp(b, min, max)
  {
  }
}
