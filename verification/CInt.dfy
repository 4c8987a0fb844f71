/** C integer arithmetic: truncating division and two's-complement wrap-around. */
module CInt {

  datatype Option<+T> = None | Some(value: T)

  const INT_HALF := 0x8000_0000
  const INT_MIN := -0x8000_0000
  const INT_MAX := 0x7FFF_FFFF

  /** A signed type with values [-half, half). */
  predicate Fits(x: int, half: int) {
    -half <= x < half
  }

  predicate IsInt(x: int) {
    INT_MIN <= x <= INT_MAX
  }

  /** C's `/`: the quotient truncated toward zero. */
  function Div(a: int, b: int): int
    requires b > 0
  {
    if a >= 0 then a / b else -(-a / b)
  }

  /** C's `%`: it takes the sign of the dividend. */
  function Mod(a: int, b: int): int
    requires b > 0
  {
    a - b * Div(a, b)
  }

  /** The value a store into a signed type of 2 * half values leaves. */
  function Wrap(x: int, half: int): int
    requires half > 0
  {
    (x + half) % (2 * half) - half
  }

  function Wrap32(x: int): int { Wrap(x, INT_HALF) }

  /** A store keeps the value exactly when it fits; otherwise it is off by whole turns. */
  lemma WrapFits(x: int)
    ensures IsInt(Wrap32(x)) && (Wrap32(x) == x <==> IsInt(x))
  {
  }

  /** The half ranges of a 32-bit and a 64-bit signed type. */
  predicate IsLongHalf(half: int) {
    half == INT_HALF || half == 0x8000_0000_0000_0000
  }

  /** `increment_overflow` (half = INT_HALF) and `long_increment_overflow`: the number is stored
      wrapped, and overflow is reported exactly when the true sum leaves the type. */
  method IncrementOverflow(number: int, delta: int, half: int) returns (number': int, overflow: bool)
    requires IsLongHalf(half) && Fits(number, half) && IsInt(delta)
    ensures overflow <==> !Fits(number + delta, half)
    ensures !overflow ==> number' == number + delta
    ensures Fits(number', half)
  {
    number' := Wrap(number + delta, half);
    if delta >= 0 {
      overflow := number' < number;
    } else {
      overflow := number' > number;
    }
  }
}
