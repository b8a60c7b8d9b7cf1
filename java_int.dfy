/**
 * The few pieces of Java and Kotlin integer semantics the application relies on:
 * division that truncates toward zero, the narrowing `(byte)` cast and the
 * widening `b.toInt() and 0xFF` that reads a byte back as unsigned.
 */
module JavaInt {

  /** A Java `byte`: a signed 8-bit value. */
  type JByte = b: int | -128 <= b < 128

  function Abs(x: int): nat { if x < 0 then -x else x }

  /** `Math.min`. */
  function Min(a: int, b: int): int { if a < b then a else b }

  /**
   * Java's `a / b` on `int`: the quotient rounded toward zero. Its magnitude is
   * the floor of `|a| / |b|` and it is negative exactly when the signs differ.
   */
  function Quot(a: int, b: int): (q: int)
    requires b != 0
    ensures Abs(q) == Abs(a) / Abs(b)
    ensures q < 0 ==> (a < 0) != (b < 0)
    ensures q > 0 ==> (a < 0) == (b < 0)
    ensures 0 <= a && 0 < b ==> q == a / b
  {
    var m := Abs(a) / Abs(b);
    DivOfNaturals(Abs(a), Abs(b));
    if (a < 0) == (b < 0) then m else -m
  }

  /** Multiplying by a non-negative factor keeps the order of non-negative numbers. */
  lemma MulMonotone(a: int, b: int, c: int)
    requires 0 <= a <= b && c >= 0
    ensures 0 <= a * c <= b * c
  {
  }

  lemma DivOfNaturals(a: nat, b: nat)
    requires b > 0
    ensures a / b >= 0
  {
  }

  /** Java's narrowing cast `(byte) v`: keeps the low eight bits, read as signed. */
  function ToJByte(v: int): (b: JByte)
    ensures (b - v) % 256 == 0
  {
    var low := v % 256;
    if low < 128 then low else low - 256
  }

  /** Kotlin's `b.toInt() and 0xFF`: the byte's eight bits read as unsigned. */
  function Unsigned(b: JByte): (u: int)
    ensures 0 <= u < 256
    ensures (u - b) % 256 == 0
  {
    if b < 0 then b + 256 else b
  }

  /** Storing an octet with `(byte)` and reading it back with `and 0xFF` gives it back. */
  lemma UnsignedOfToJByte(v: int)
    requires 0 <= v < 256
    ensures Unsigned(ToJByte(v)) == v
  {
  }

  /** Every byte is the cast of exactly one octet. */
  lemma ToJByteOfUnsigned(b: JByte)
    ensures ToJByte(Unsigned(b)) == b
  {
  }
}
