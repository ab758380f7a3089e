/** The C integer arithmetic the sources rely on, written over unbounded integers. */
module CInt {
  const INT32_MAX := 0x7fff_ffff
  const INT32_MIN := -0x8000_0000
  const UINT32_SIZE := 0x1_0000_0000

  newtype Byte = x: int | 0 <= x < 256

  predicate IsInt32(x: int) { INT32_MIN <= x <= INT32_MAX }

  /** Division truncating towards zero, as C's `/` does. */
  function Div(a: int, b: int): int
    requires b > 0
  {
    if a >= 0 then a / b else -((-a) / b)
  }

  /** The remainder that goes with `Div`: it has the sign of the dividend. */
  function Mod(a: int, b: int): int
    requires b > 0
  {
    a - b * Div(a, b)
  }

  /** Two's complement wrap-around of a 32-bit signed result. */
  function Wrap32(x: int): int {
    if IsInt32(x) then x else (x + 0x8000_0000) % UINT32_SIZE - 0x8000_0000
  }

  /** Conversion of any integer to a 32-bit unsigned one. */
  function ToUint32(x: int): nat {
    if 0 <= x < UINT32_SIZE then x else x % UINT32_SIZE
  }

  /** Within one wrap, both conversions move by exactly 2^32. */
  lemma OneWrap(x: int)
    requires -UINT32_SIZE <= x < UINT32_SIZE
    ensures Wrap32(x) == if x > INT32_MAX then x - UINT32_SIZE else if x < INT32_MIN then x + UINT32_SIZE else x
    ensures ToUint32(x) == if x < 0 then x + UINT32_SIZE else x
  {
  }

  /** Going through a signed 32-bit value keeps the unsigned one. */
  lemma UnsignedOfWrapped(x: int)
    requires -UINT32_SIZE <= x < UINT32_SIZE
    ensures IsInt32(Wrap32(x)) && ToUint32(Wrap32(x)) == ToUint32(x)
  {
    OneWrap(x);
    OneWrap(Wrap32(x));
  }

  lemma WrapPeriod(x: int, k: int)
    ensures Wrap32(x + k * UINT32_SIZE) == Wrap32(x)
  {
    ResiduePeriod(x + 0x8000_0000, k);
    WrapIsResidue(x);
    WrapIsResidue(x + k * UINT32_SIZE);
  }

  lemma WrapIsResidue(x: int)
    ensures Wrap32(x) == (x + 0x8000_0000) % UINT32_SIZE - 0x8000_0000
  {
  }

  lemma {:induction false} ResiduePeriod(x: int, k: int)
    ensures (x + k * UINT32_SIZE) % UINT32_SIZE == x % UINT32_SIZE
    decreases if k < 0 then -k else k
  {
    if k > 0 {
      ResiduePeriod(x, k - 1);
      assert x + k * UINT32_SIZE == x + (k - 1) * UINT32_SIZE + UINT32_SIZE;
    } else if k < 0 {
      ResiduePeriod(x, k + 1);
      assert x + k * UINT32_SIZE == x + (k + 1) * UINT32_SIZE - UINT32_SIZE;
    }
  }

  /** Wrapping before a multiplication or an addition makes no difference in the end. */
  lemma WrapAbsorbed(x: int, a: int, b: int)
    ensures Wrap32(a * Wrap32(x) + b) == Wrap32(a * x + b)
  {
    var k := (x - Wrap32(x)) / UINT32_SIZE;
    WrapIsResidue(x);
    assert x == Wrap32(x) + k * UINT32_SIZE;
    assert a * x + b == a * Wrap32(x) + b + (a * k) * UINT32_SIZE;
    WrapPeriod(a * Wrap32(x) + b, a * k);
  }

  lemma WrapSum(x: int, b: int)
    ensures Wrap32(Wrap32(x) + b) == Wrap32(x + b)
  {
    WrapAbsorbed(x, 1, b);
  }
}
