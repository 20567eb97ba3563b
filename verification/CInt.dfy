/** The fixed-width integers of the controller's C++ compiler. */
module CInt {
  type U8 = x: int | 0 <= x < 0x100
  type U16 = x: int | 0 <= x < 0x1_0000
  type U32 = x: int | 0 <= x < 0x1_0000_0000
  type I32 = x: int | -0x8000_0000 <= x < 0x8000_0000

  /** Conversion to U32: the value modulo 2^32. */
  function ToU32(x: int): U32 {
    x % 0x1_0000_0000
  }

  /** Conversion to I32: the two's complement reading of the low 32 bits. */
  function ToI32(x: int): I32 {
    var u := x % 0x1_0000_0000;
    if u < 0x8000_0000 then u else u - 0x1_0000_0000
  }

  /** C division, which truncates toward zero. */
  function TruncDiv(a: int, b: int): int
    requires b > 0
  {
    if a >= 0 then a / b else -((-a) / b)
  }

  /** C remainder, which takes the sign of the dividend. */
  function TruncMod(a: int, b: int): int
    requires b > 0
  {
    a - b * TruncDiv(a, b)
  }

  /** Quotient and remainder, from a decomposition. */
  lemma DivMod(x: int, period: int, q: int, r: int)
    requires 0 <= r < period && x == period * q + r
    ensures x / period == q && x % period == r
  {
    var d := x / period - q;
    assert period * d == r - x % period;
    assert d >= 1 ==> period * d >= period;
    assert d <= -1 ==> period * d <= -period;
  }

  /** Reducing early or late makes no difference to a 32-bit sum. */
  lemma AddU32(a: int, b: int)
    ensures ToU32(ToU32(a) + b) == ToU32(a + b)
    ensures ToU32(ToI32(a) + b) == ToU32(a + b)
  {
    var m := 0x1_0000_0000;
    assert a == m * (a / m) + a % m;
    ModShift(a % m + b, a / m);
    ModShift(ToI32(a) + b, if a % m < 0x8000_0000 then a / m else a / m + 1);
  }

  lemma AddI32(a: int, b: int)
    ensures ToI32(ToI32(a) + b) == ToI32(a + b)
  {
    AddU32(a, b);
  }

  /** A U32 stored in a C int reads back unchanged. */
  lemma StoredU32(x: U32)
    ensures ToU32(x) == x && ToU32(ToI32(x)) == x
  {
  }

  lemma ModShift(a: int, k: int)
    ensures ToU32(a + k * 0x1_0000_0000) == ToU32(a)
  {
    var m := 0x1_0000_0000;
    var q, r := a / m, a % m;
    assert a + k * m == (q + k) * m + r;
    assert (a + k * m) / m == q + k && (a + k * m) % m == r;
  }
}
