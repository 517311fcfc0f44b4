/** Bytes, and the little-endian integers the frames are made of. */
module Bytes {
  type byte = x: int | 0 <= x < 256

  type bytes = seq<byte>

  function Min(a: int, b: int): int {
    if a <= b then a else b
  }

  function Zeros(n: nat): bytes {
    seq(n, _ => 0)
  }

  /** `data[start:]` as Python slices it: a start beyond the end gives no bytes. */
  function From(data: bytes, start: nat): bytes {
    if start <= |data| then data[start..] else []
  }

  /** `[n & 0xFF, (n >> 8) & 0xFF]` for a non-negative n. */
  function Le16(n: nat): bytes {
    [n % 256, n / 256 % 256]
  }

  /** `low | (high << 8)` for two bytes. */
  function FromLe16(low: byte, high: byte): (n: nat)
    ensures n < 0x1_0000
  {
    low + 256 * high
  }

  /** The k low bytes of n, lowest first. */
  function Le(n: nat, k: nat): (b: bytes)
    ensures |b| == k
  {
    if k == 0 then [] else [n % 256] + Le(n / 256, k - 1)
  }

  function FromLe(b: bytes): nat {
    if b == [] then 0 else b[0] + 256 * FromLe(b[1..])
  }

  /** 256 to the power k. */
  function Power256(k: nat): (p: nat)
    ensures p >= 1
  {
    if k == 0 then 1 else 256 * Power256(k - 1)
  }

  lemma {:induction false} FromLeBounded(b: bytes)
    ensures FromLe(b) < Power256(|b|)
  {
    if b != [] {
      FromLeBounded(b[1..]);
    }
  }

  lemma {:induction false} LeRoundTrip(n: nat, k: nat)
    requires n < Power256(k)
    ensures FromLe(Le(n, k)) == n
  {
    if k > 0 {
      LeRoundTrip(n / 256, k - 1);
      assert Le(n, k)[1..] == Le(n / 256, k - 1);
    }
  }

  lemma {:induction false} FromLeRoundTrip(b: bytes)
    ensures Le(FromLe(b), |b|) == b
  {
    if b != [] {
      FromLeRoundTrip(b[1..]);
      var low, high := b[0], FromLe(b[1..]);
      assert (low + 256 * high) % 256 == low && (low + 256 * high) / 256 == high;
    }
  }

  lemma {:induction false} Le16RoundTrip(n: nat)
    requires n < 0x1_0000
    ensures FromLe16(Le16(n)[0], Le16(n)[1]) == n
  {
  }

  /** Four bytes are a number, the lowest first. */
  lemma {:induction false} FromLeOfFour(b: bytes)
    requires |b| == 4
    ensures FromLe(b) == b[0] + 0x100 * b[1] + 0x1_0000 * b[2] + 0x100_0000 * b[3] as int
  {
    assert b[1..][1..] == b[2..] && b[2..][1..] == b[3..] && b[3..][1..] == [];
    assert FromLe(b[3..]) == b[3] && FromLe(b[2..]) == b[2] + 256 * FromLe(b[3..]);
    assert FromLe(b[1..]) == b[1] + 256 * FromLe(b[2..]);
  }
}
