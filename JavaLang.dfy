/** Java's 32-bit integer arithmetic and the runtime exceptions the picture code can raise. */
module JavaLang {
  import opened Arithmetic

  const TWO_31: int := 0x8000_0000
  const TWO_32: int := 0x1_0000_0000

  /** The values of a Java `int`. */
  type int32 = v: int | -TWO_31 <= v < TWO_31

  /** The Java `int` with the same low 32 bits as `v`: two's-complement wrap-around. */
  function Wrap(v: int): (r: int32)
    ensures -TWO_31 <= v < TWO_31 ==> r == v
    ensures (r - v) % TWO_32 == 0
  {
    WrapAsMultiple(v);
    (v + TWO_31) % TWO_32 - TWO_31
  }

  /** Wrapping changes a value by a whole number of 2^32. */
  lemma WrapAsMultiple(v: int)
    ensures (v + TWO_31) % TWO_32 - TWO_31 == v - TWO_32 * ((v + TWO_31) / TWO_32)
  {
  }

  function Abs(a: int): nat
  {
    if a < 0 then -a else a
  }

  /** Java `a / b`: the quotient is rounded toward zero. */
  function Div(a: int, b: int): (q: int)
    requires b != 0
    ensures 0 <= a && 0 < b ==> 0 <= q && q == a / b
  {
    if (a < 0) == (b < 0) then
      QuotientNonnegative(Abs(a), Abs(b));
      Abs(a) / Abs(b)
    else
      -(Abs(a) / Abs(b))
  }

  /** Java `a % b`: the remainder takes the sign of the dividend and is smaller than the divisor. */
  function Rem(a: int, b: int): (r: int)
    requires b != 0
    ensures Abs(r) < Abs(b)
    ensures r != 0 ==> (r < 0 <==> a < 0)
    ensures 0 <= a ==> r == a % Abs(b)
  {
    if a < 0 then -(Abs(a) % Abs(b)) else Abs(a) % Abs(b)
  }

  /** Java's division identity: (a / b) * b + a % b == a. */
  lemma DivRem(a: int, b: int)
    requires b != 0
    ensures a == b * Div(a, b) + Rem(a, b)
  {
    var q, m := Abs(a) / Abs(b), Abs(a) % Abs(b);
    assert Abs(a) == Abs(b) * q + m;
  }

  /** The exceptions the modelled code raises on bad arguments. */
  datatype Error =
    | IndexOutOfBounds  // List.get on an index outside the list
    | DivisionByZero    // integer `/` or `%` by zero (ArithmeticException)
    | IllegalArgument   // a BufferedImage of zero width or height

  /** The outcome of an operation that returns a value or throws. */
  datatype Result<+T> = Ok(value: T) | Err(error: Error)
}
