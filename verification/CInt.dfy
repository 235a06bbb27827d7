/** C's `int`: 32 bits, with division that truncates toward zero. */
module CInt {
  const INT_MIN := -0x8000_0000
  const INT_MAX := 0x7fff_ffff
  const UINT_RANGE := 0x1_0000_0000

  predicate IsInt(n: int) {
    INT_MIN <= n <= INT_MAX
  }

  /** Conversion to `uint32_t`. */
  function ToUint32(n: int): (r: int)
    ensures 0 <= r < UINT_RANGE && (n - r) % UINT_RANGE == 0
    ensures 0 <= n < UINT_RANGE ==> r == n
  {
    n % UINT_RANGE
  }

  /** Conversion to `int`, by two's complement. */
  function ToInt32(n: int): (r: int)
    ensures IsInt(r) && (n - r) % UINT_RANGE == 0
    ensures IsInt(n) ==> r == n
  {
    var u := n % UINT_RANGE;
    if u > INT_MAX then u - UINT_RANGE else u
  }

  function Div(a: int, b: int): int
    requires b != 0
  {
    if a >= 0 then a / b else -(-a / b)
  }

  function Mod(a: int, b: int): int
    requires b != 0
  {
    a - Div(a, b) * b
  }

  /** Quotient and remainder of C: the quotient is the one nearest to zero, the remainder takes the sign of
      the dividend. */
  lemma DivTruncates(a: int, b: int)
    requires b > 0
    ensures a == Div(a, b) * b + Mod(a, b) && -b < Mod(a, b) < b
    ensures a >= 0 ==> Mod(a, b) >= 0
    ensures a <= 0 ==> Mod(a, b) <= 0
    ensures Div(-a, b) == -Div(a, b)
  {
    assert a >= 0 ==> a == (a / b) * b + a % b;
    assert a <= 0 ==> -a == (-a / b) * b + -a % b;
  }
}
