/** Go's fixed-width integers and its integer division, which rounds toward zero
    (Dafny's own `/` and `%` are Euclidean). */
module GoNumeric {

  const TwoTo63: int := 0x8000_0000_0000_0000
  const TwoTo64: int := 0x1_0000_0000_0000_0000

  type int64 = x: int | -0x8000_0000_0000_0000 <= x < 0x8000_0000_0000_0000
  type uint64 = x: int | 0 <= x < 0x1_0000_0000_0000_0000

  /** Go's `a % b` for a positive divisor: the remainder takes the sign of `a`. */
  function Rem(a: int, b: int): (r: int)
    requires b > 0
    ensures -b < r < b
    ensures a >= 0 ==> r >= 0
    ensures a < 0 ==> r <= 0
  {
    if a >= 0 then a % b else -((-a) % b)
  }

  /** Go's `a / b` for a positive divisor: the quotient is rounded toward zero,
      so that `Quo(a, b) * b + Rem(a, b) == a`. */
  function Quo(a: int, b: int): (q: int)
    requires b > 0
    ensures q * b + Rem(a, b) == a
    ensures a >= 0 ==> q >= 0
    ensures a < 0 ==> q <= 0
  {
    var n := if a >= 0 then a else -a;
    NatDivision(n, b);
    if a >= 0 then n / b
    else
      assert -(n / b) * b == -((n / b) * b);
      -(n / b)
  }

  /** Euclidean division of a natural number by a positive divisor. */
  lemma NatDivision(n: nat, b: int)
    requires b > 0
    ensures (n / b) * b + n % b == n
    ensures 0 <= n / b
  {
  }

  /** The conversion `uint64(x)` of an int64: the same 64 bits, read unsigned. */
  function ToUint64(x: int64): (u: uint64)
    ensures (u - x) % TwoTo64 == 0
    ensures x >= 0 <==> u < TwoTo63
  {
    if x < 0 then x + TwoTo64 else x
  }

  /** The conversion `int64(u)` of a uint64: the same 64 bits, read as two's complement. */
  function ToInt64(u: uint64): (x: int64)
    ensures ToUint64(x) == u
  {
    if u >= TwoTo63 then u - TwoTo64 else u
  }

  /** Converting to uint64 and back loses nothing. */
  lemma ToInt64ToUint64(x: int64)
    ensures ToInt64(ToUint64(x)) == x
  {
  }
}
