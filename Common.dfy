/** Types and helpers shared by the whole firmware model: serial bytes, an
    Option type, the 32-bit integer widths of the ESP8266 toolchain (`int`,
    `long` and `unsigned` are all 32 bits wide there) and bitwise exclusive or
    on the bit patterns of non-negative integers. */
module Common {

  /** One 8-bit value as delivered by the serial port and stored in `char buffer[]`. */
  type byte = x: int | 0 <= x < 256

  /** A signed 32-bit `int`/`long`. */
  type int32 = x: int | -0x8000_0000 <= x < 0x8000_0000

  datatype Option<T> = None | Some(value: T)

  const LONG_MIN: int := -0x8000_0000
  const LONG_MAX: int := 0x7FFF_FFFF
  const UINT_MAX: int := 0xFFFF_FFFF
  const TWO_32: int := 0x1_0000_0000

  /** Conversion of a `long` to `unsigned`: reduction modulo 2^32, which is
      also the two's-complement bit pattern of the `long`. */
  function ToUnsigned(v: int): (r: nat)
    ensures r <= UINT_MAX
    ensures 0 <= v <= UINT_MAX ==> r == v
    ensures LONG_MIN <= v < 0 ==> r == v + TWO_32
  {
    v % TWO_32
  }

  /** Two `long` values are equal exactly when their bit patterns are. */
  lemma ToUnsignedInjective(v: int, w: int)
    requires LONG_MIN <= v <= LONG_MAX && LONG_MIN <= w <= LONG_MAX
    ensures ToUnsigned(v) == ToUnsigned(w) <==> v == w
  {
  }

  /** A slice of a slice is a slice of the original. */
  lemma SliceOfSlice<T>(s: seq<T>, i: nat, j: nat, a: nat, b: nat)
    requires i <= j <= |s| && a <= b <= j - i
    ensures s[i..j][a..b] == s[i + a..i + b]
  {
    assert |s[i..j][a..b]| == |s[i + a..i + b]|;
    forall k | 0 <= k < b - a ensures s[i..j][a..b][k] == s[i + a..i + b][k] {
    }
  }

  function Pow2(n: nat): (r: nat)
    ensures r >= 1
  {
    if n == 0 then 1 else 2 * Pow2(n - 1)
  }

  /** The powers of two the firmware's bit widths need. */
  lemma Pow2Table()
    ensures Pow2(7) == 0x80 && Pow2(8) == 0x100 && Pow2(16) == 0x1_0000 && Pow2(23) == 0x80_0000 && Pow2(24) == 0x100_0000
  {
    assert Pow2(1) == 2;
    assert Pow2(2) == 4;
    assert Pow2(3) == 8;
    assert Pow2(4) == 16;
    assert Pow2(5) == 32;
    assert Pow2(6) == 64;
    assert Pow2(7) == 128;
    assert Pow2(8) == 256;
    assert Pow2(9) == 512;
    assert Pow2(10) == 1024;
    assert Pow2(11) == 2048;
    assert Pow2(12) == 4096;
    assert Pow2(13) == 8192;
    assert Pow2(14) == 16384;
    assert Pow2(15) == 32768;
    assert Pow2(16) == 65536;
    assert Pow2(17) == 131072;
    assert Pow2(18) == 262144;
    assert Pow2(19) == 524288;
    assert Pow2(20) == 1048576;
    assert Pow2(21) == 2097152;
    assert Pow2(22) == 4194304;
    assert Pow2(23) == 8388608;
    assert Pow2(24) == 16777216;
  }

  lemma {:induction false} Pow2Mono(m: nat, n: nat)
    requires m <= n
    ensures Pow2(m) <= Pow2(n)
    decreases n
  {
    if m < n {
      Pow2Mono(m, n - 1);
    }
  }

  /** Bitwise exclusive or (`^`) of two bit patterns, bit by bit from the least significant end. */
  function Xor(a: nat, b: nat): (r: nat)
    decreases a + b
  {
    if a == 0 then b
    else if b == 0 then a
    else 2 * Xor(a / 2, b / 2) + (if a % 2 == b % 2 then 0 else 1)
  }

  lemma {:induction false} XorZeroRight(a: nat)
    ensures Xor(a, 0) == a
  {
  }

  /** Exclusive or of two n-bit patterns is an n-bit pattern. */
  lemma {:induction false} XorBound(a: nat, b: nat, n: nat)
    requires a < Pow2(n) && b < Pow2(n)
    ensures Xor(a, b) < Pow2(n)
    decreases n
  {
    if a != 0 && b != 0 {
      XorBound(a / 2, b / 2, n - 1);
    }
  }

  /** Exclusive or with a fixed pattern is injective, so flipping any bit of
      an operand flips the result. */
  lemma {:induction false} XorCancel(a: nat, b: nat, c: nat)
    requires Xor(a, b) == Xor(a, c)
    ensures b == c
    decreases a + b + c
  {
    if a != 0 && b != 0 && c != 0 {
      XorCancel(a / 2, b / 2, c / 2);
    } else if a != 0 && b != 0 && c == 0 {
      // Xor(a, b) == a: the low bits differ unless a and b agree there, and then the high halves recurse.
      assert 2 * Xor(a / 2, b / 2) + (if a % 2 == b % 2 then 0 else 1) == 2 * (a / 2) + a % 2;
      XorZeroRight(a / 2);
      XorCancel(a / 2, b / 2, 0);
    } else if a != 0 && b == 0 && c != 0 {
      assert 2 * Xor(a / 2, c / 2) + (if a % 2 == c % 2 then 0 else 1) == 2 * (a / 2) + a % 2;
      XorZeroRight(a / 2);
      XorCancel(a / 2, 0, c / 2);
    }
  }

  /** Bit k of a bit pattern (0 or 1). */
  function Bit(v: nat, k: nat): (r: nat)
    ensures r < 2
  {
    if k == 0 then v % 2 else Bit(v / 2, k - 1)
  }

  /** Exclusive or with the single bit k adds 2^k when that bit is clear and
      subtracts it when it is set. */
  lemma {:induction false} XorPow2(v: nat, k: nat)
    ensures Xor(v, Pow2(k)) == if Bit(v, k) == 0 then v + Pow2(k) else v - Pow2(k)
    decreases k
  {
    if k == 0 {
      if v != 0 {
        XorZeroRight(v / 2);
        assert Xor(v, 1) == 2 * (v / 2) + (if v % 2 == 1 then 0 else 1);
      }
    } else {
      XorPow2(v / 2, k - 1);
      assert Pow2(k) / 2 == Pow2(k - 1) && Pow2(k) % 2 == 0;
      if v != 0 {
        assert Xor(v, Pow2(k)) == 2 * Xor(v / 2, Pow2(k - 1)) + v % 2;
      }
    }
  }

  /** Below 2^(k+1), bit k is set exactly from 2^k upwards. */
  lemma {:induction false} TopBit(v: nat, k: nat)
    requires v < Pow2(k + 1)
    ensures Bit(v, k) == 0 <==> v < Pow2(k)
    decreases k
  {
    if k > 0 {
      TopBit(v / 2, k - 1);
    }
  }
}
