/** What the four bytes of a binary32 number stand for, so that telemetry can be compared with limits. */
module Floats {
  import opened Bytes
  import opened Status

  datatype FloatValue = NaN | Infinite(negative: bool) | Finite(value: real)

  function PowerOfTwo(e: int): (p: real)
    ensures p > 0.0
    decreases if e < 0 then -e else e
  {
    if e == 0 then 1.0 else if e > 0 then 2.0 * PowerOfTwo(e - 1) else PowerOfTwo(e + 1) / 2.0
  }

  /** The size of a number, from its exponent and fraction fields. */
  function SizeOf(exponent: nat, fraction: nat): real {
    if exponent == 0 then fraction as real * PowerOfTwo(-149) else (0x80_0000 + fraction) as real * PowerOfTwo(exponent - 150)
  }

  /** One sign bit, eight exponent bits, twenty-three fraction bits. */
  function ValueOf(f: Float32): FloatValue {
    var n := FromLe(f);
    var negative, exponent, fraction := n >= 0x8000_0000, n / 0x80_0000 % 256, n % 0x80_0000;
    if exponent == 255 then (if fraction == 0 then Infinite(negative) else NaN)
    else
      var size := SizeOf(exponent, fraction);
      Finite(if negative then -size else size)
  }

  /** `f > limit`: false for a NaN, as in Python. */
  predicate Above(f: Float32, limit: real) {
    match ValueOf(f)
    case NaN => false
    case Infinite(negative) => !negative
    case Finite(value) => value > limit
  }

  // ---------- The order of numbers and the order of their bits ----------

  /** The value of the non-negative number with these bits, below those of infinity. */
  function Magnitude(n: nat): real
    requires n < 0x7F80_0000
  {
    SizeOf(n / 0x80_0000, n % 0x80_0000)
  }

  lemma {:induction false} ScaledLess(a: int, b: int, scale: real)
    requires a < b && scale > 0.0
    ensures a as real * scale < b as real * scale
  {
  }

  lemma {:induction false} Doubled(e: int, x: real)
    ensures 2.0 * x * PowerOfTwo(e) == x * PowerOfTwo(e + 1)
  {
    assert PowerOfTwo(e + 1) == 2.0 * PowerOfTwo(e);
  }

  lemma {:induction false} NextFraction(exponent: nat, fraction: nat)
    ensures SizeOf(exponent, fraction) < SizeOf(exponent, fraction + 1)
  {
    if exponent == 0 {
      ScaledLess(fraction, fraction + 1, PowerOfTwo(-149));
    } else {
      ScaledLess(0x80_0000 + fraction, 0x80_0000 + fraction + 1, PowerOfTwo(exponent - 150));
    }
  }

  /** The full fraction field of one exponent is the empty one of the next. */
  lemma {:induction false} NextExponent(exponent: nat)
    ensures SizeOf(exponent, 0x80_0000) == SizeOf(exponent + 1, 0)
  {
    if exponent > 0 {
      Doubled(exponent - 150, 0x80_0000 as real);
    }
  }

  lemma {:induction false} NextFields(n: nat)
    ensures n % 0x80_0000 + 1 < 0x80_0000 ==>
              (n + 1) / 0x80_0000 == n / 0x80_0000 && (n + 1) % 0x80_0000 == n % 0x80_0000 + 1
    ensures n % 0x80_0000 + 1 == 0x80_0000 ==> (n + 1) / 0x80_0000 == n / 0x80_0000 + 1 && (n + 1) % 0x80_0000 == 0
  {
  }

  /** The next number up is larger. */
  lemma {:induction false} NextIsLarger(n: nat)
    requires n + 1 < 0x7F80_0000
    ensures Magnitude(n) < Magnitude(n + 1)
  {
    NextFields(n);
    NextFraction(n / 0x80_0000, n % 0x80_0000);
    NextExponent(n / 0x80_0000);
  }

  lemma {:induction false} LargerBitsLargerValue(n: nat, m: nat)
    requires n < m < 0x7F80_0000
    ensures Magnitude(n) < Magnitude(m)
    decreases m - n
  {
    NextIsLarger(m - 1);
    if n < m - 1 {
      LargerBitsLargerValue(n, m - 1);
    }
  }

  /** What the bits say: the sign bit, then numbers, then infinity, then NaNs. */
  lemma {:induction false} ValueByBits(f: Float32)
    ensures var n := FromLe(f);
            && n < 0x1_0000_0000
            && (n < 0x7F80_0000 ==> ValueOf(f) == Finite(Magnitude(n)))
            && (n == 0x7F80_0000 ==> ValueOf(f) == Infinite(false))
            && (0x7F80_0000 < n < 0x8000_0000 ==> ValueOf(f) == NaN)
            && (0x8000_0000 <= n < 0xFF80_0000 ==> ValueOf(f) == Finite(-Magnitude(n - 0x8000_0000)))
            && (n == 0xFF80_0000 ==> ValueOf(f) == Infinite(true))
            && (n > 0xFF80_0000 ==> ValueOf(f) == NaN)
  {
    FourBytes();
    FromLeBounded(f);
    var n: nat := FromLe(f);
    if n >= 0x8000_0000 {
      var m := n - 0x8000_0000;
      assert n / 0x80_0000 == 256 + m / 0x80_0000 && n % 0x80_0000 == m % 0x80_0000;
      assert n / 0x80_0000 % 256 == m / 0x80_0000;
    } else {
      assert n / 0x80_0000 % 256 == n / 0x80_0000;
    }
  }

  lemma {:induction false} NotNegative(n: nat)
    requires n < 0x7F80_0000
    ensures Magnitude(n) >= 0.0
  {
    if n > 0 {
      LargerBitsLargerValue(0, n);
    }
  }

  /** Comparing with a positive limit is comparing bits with the limit's, up to infinity. */
  lemma {:induction false} AboveByBits(f: Float32, limit: nat)
    requires limit < 0x7F80_0000
    ensures Above(f, Magnitude(limit)) <==> limit < FromLe(f) <= 0x7F80_0000
  {
    var n: nat := FromLe(f);
    ValueByBits(f);
    NotNegative(limit);
    if n < 0x7F80_0000 {
      if n < limit {
        LargerBitsLargerValue(n, limit);
      } else if limit < n {
        LargerBitsLargerValue(limit, n);
      }
    } else if 0x8000_0000 <= n < 0xFF80_0000 {
      NotNegative(n - 0x8000_0000);
    }
  }

  lemma {:induction false} SmallPowers()
    ensures PowerOfTwo(-15) == 1.0 / 32768.0 && PowerOfTwo(-16) == 1.0 / 65536.0 && PowerOfTwo(-17) == 1.0 / 131072.0
    ensures PowerOfTwo(-18) == 1.0 / 262144.0 && PowerOfTwo(-19) == 1.0 / 524288.0 && PowerOfTwo(-20) == 1.0 / 1048576.0
  {
    assert PowerOfTwo(-2) == 0.25;
    assert PowerOfTwo(-4) == 0.0625;
    assert PowerOfTwo(-6) == 1.0 / 64.0;
    assert PowerOfTwo(-8) == 1.0 / 256.0;
    assert PowerOfTwo(-10) == 1.0 / 1024.0;
    assert PowerOfTwo(-12) == 1.0 / 4096.0;
    assert PowerOfTwo(-14) == 1.0 / 16384.0;
    assert PowerOfTwo(-16) == 1.0 / 65536.0;
    assert PowerOfTwo(-18) == 1.0 / 262144.0;
  }

  /** A number from its exponent and fraction fields. */
  lemma {:induction false} NormalMagnitude(n: nat, exponent: nat, fraction: nat, unit: real)
    requires 0 < exponent < 255 && fraction < 0x80_0000 && n == 0x80_0000 * exponent + fraction
    requires PowerOfTwo(exponent - 150) == unit
    ensures n < 0x7F80_0000 && Magnitude(n) == (0x80_0000 + fraction) as real * unit
  {
    assert n / 0x80_0000 == exponent && n % 0x80_0000 == fraction;
  }

  /** Comparing with a limit given by its exponent and fraction fields. */
  lemma {:induction false} AboveLimit(f: Float32, limit: real, n: nat, exponent: nat, fraction: nat, unit: real)
    requires 0 < exponent < 255 && fraction < 0x80_0000 && n == 0x80_0000 * exponent + fraction
    requires PowerOfTwo(exponent - 150) == unit && limit == (0x80_0000 + fraction) as real * unit
    ensures Above(f, limit) <==> n < FromLe(f) <= 0x7F80_0000
  {
    NormalMagnitude(n, exponent, fraction, unit);
    AboveByBits(f, n);
  }

  /** The comparisons with the six limits, on the bits: false for negative numbers and NaNs, true for infinity. */
  lemma {:induction false} AboveLimits(f: Float32)
    ensures Above(f, 95.0) <==> 0x42BE_0000 < FromLe(f) <= 0x7F80_0000
    ensures Above(f, 100.0) <==> 0x42C8_0000 < FromLe(f) <= 0x7F80_0000
    ensures Above(f, 140.0) <==> 0x430C_0000 < FromLe(f) <= 0x7F80_0000
    ensures Above(f, 150.0) <==> 0x4316_0000 < FromLe(f) <= 0x7F80_0000
    ensures Above(f, 450.0) <==> 0x43E1_0000 < FromLe(f) <= 0x7F80_0000
    ensures Above(f, 500.0) <==> 0x43FA_0000 < FromLe(f) <= 0x7F80_0000
  {
    SmallPowers();
    AboveLimit(f, 95.0, 0x42BE_0000, 133, 0x3E_0000, 1.0 / 131072.0);
    AboveLimit(f, 100.0, 0x42C8_0000, 133, 0x48_0000, 1.0 / 131072.0);
    AboveLimit(f, 140.0, 0x430C_0000, 134, 0x0C_0000, 1.0 / 65536.0);
    AboveLimit(f, 150.0, 0x4316_0000, 134, 0x16_0000, 1.0 / 65536.0);
    AboveLimit(f, 450.0, 0x43E1_0000, 135, 0x61_0000, 1.0 / 32768.0);
    AboveLimit(f, 500.0, 0x43FA_0000, 135, 0x7A_0000, 1.0 / 32768.0);
  }
}
