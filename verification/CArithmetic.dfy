/** The C integer operators and conversions the sources rely on, over unbounded integers. */
module CArithmetic {

  /** C division: the quotient is truncated toward zero. */
  function Quot(a: int, b: int): int
    requires b != 0
  {
    if a >= 0 then a / b else -((-a) / b)
  }

  /** C remainder: it takes the sign of the dividend. */
  function Rem(a: int, b: int): int
    requires b != 0
  {
    a - Quot(a, b) * b
  }

  /** Conversion to int16_t. */
  function ToInt16(x: int): (r: int)
    ensures -0x8000 <= r < 0x8000 && (x - r) % 0x1_0000 == 0
  {
    (x + 0x8000) % 0x1_0000 - 0x8000
  }

  /** Conversion to a 32-bit long, as on Windows. */
  function ToInt32(x: int): (r: int)
    ensures -0x8000_0000 <= r < 0x8000_0000 && (x - r) % 0x1_0000_0000 == 0
  {
    (x + 0x8000_0000) % 0x1_0000_0000 - 0x8000_0000
  }

  /** Conversion to a 64-bit long, as on X11 platforms. */
  function ToInt64(x: int): (r: int)
    ensures -0x8000_0000_0000_0000 <= r < 0x8000_0000_0000_0000
    ensures (x - r) % 0x1_0000_0000_0000_0000 == 0
  {
    (x + 0x8000_0000_0000_0000) % 0x1_0000_0000_0000_0000 - 0x8000_0000_0000_0000
  }

  /** Conversion to an unsigned 32-bit DWORD. */
  function ToUInt32(x: int): (r: int)
    ensures 0 <= r < 0x1_0000_0000 && (x - r) % 0x1_0000_0000 == 0
  {
    x % 0x1_0000_0000
  }

  /** Conversion to an unsigned 64-bit time. */
  function ToUInt64(x: int): (r: int)
    ensures 0 <= r < 0x1_0000_0000_0000_0000 && (x - r) % 0x1_0000_0000_0000_0000 == 0
  {
    x % 0x1_0000_0000_0000_0000
  }

  /** Truncated division recovers the dividend with a remainder smaller than the
      divisor and of the dividend's sign. */
  lemma QuotRem(a: int, b: int)
    requires b > 0
    ensures a == Quot(a, b) * b + Rem(a, b)
    ensures -b < Rem(a, b) < b
    ensures Rem(a, b) != 0 ==> (Rem(a, b) > 0 <==> a > 0)
    ensures Quot(a, -b) == -Quot(a, b)
  {}

  /** The signed 32-bit distance between two wrapped tick counts depends on their true
      distance only. */
  lemma WrappedDistance(t: int, u: int)
    ensures ToInt32(ToUInt32(t) - ToUInt32(u)) == ToInt32(t - u)
  {
    var a, b := ToUInt32(t), ToUInt32(u);
    var k := (t - a) / 0x1_0000_0000 - (u - b) / 0x1_0000_0000;
    assert (t - u) - (a - b) == k * 0x1_0000_0000;
  }
}
