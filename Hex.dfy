/** ASCII hexadecimal text and the C library's `strtol(s, NULL, 16)` with a
    32-bit `long`, which is what `hexstr_to_value` calls on its copied window. */
module Hex {
  import opened Common

  predicate IsHexDigit(c: byte) {
    ('0' as int <= c <= '9' as int) || ('A' as int <= c <= 'F' as int) || ('a' as int <= c <= 'f' as int)
  }

  function DigitValue(c: byte): (v: nat)
    requires IsHexDigit(c)
    ensures v < 16
  {
    if c <= '9' as int then c - '0' as int
    else if c <= 'F' as int then c - 'A' as int + 10
    else c - 'a' as int + 10
  }

  predicate AllHex(s: seq<byte>) {
    forall i :: 0 <= i < |s| ==> IsHexDigit(s[i])
  }

  /** Every window of an all-hex string is all hex. */
  lemma AllHexSlice(s: seq<byte>, a: nat, b: nat)
    requires AllHex(s) && a <= b <= |s|
    ensures AllHex(s[a..b])
  {
    forall i | 0 <= i < b - a ensures IsHexDigit(s[a..b][i]) {
      assert s[a..b][i] == s[a + i];
    }
  }

  function Pow16(n: nat): (r: nat)
    ensures r >= 1
  {
    if n == 0 then 1 else 16 * Pow16(n - 1)
  }

  /** Seven hex digits or fewer always fit in a non-negative `long`. */
  lemma {:induction false} Pow16Seven(n: nat)
    requires n <= 7
    ensures Pow16(n) <= 0x1000_0000
    decreases 7 - n
  {
    if n < 7 {
      Pow16Seven(n + 1);
    } else {
      assert Pow16(7) == 0x1000_0000 by {
        assert Pow16(1) == 16 && Pow16(2) == 256 && Pow16(3) == 0x1000 && Pow16(4) == 0x1_0000;
        assert Pow16(5) == 0x10_0000 && Pow16(6) == 0x100_0000;
      }
    }
  }

  /** The big-endian base-16 value of a string of hex digits. */
  function HexValue(s: seq<byte>): (v: nat)
    requires AllHex(s)
    ensures v < Pow16(|s|)
  {
    if s == [] then 0 else 16 * HexValue(s[..|s| - 1]) + DigitValue(s[|s| - 1])
  }

  /** Length of the longest prefix of `s` made of hex digits. */
  function HexRun(s: seq<byte>): (n: nat)
    ensures n <= |s| && AllHex(s[..n])
    ensures n < |s| ==> !IsHexDigit(s[n])
  {
    if s == [] || !IsHexDigit(s[0]) then 0
    else
      var n := 1 + HexRun(s[1..]);
      assert s[..n] == [s[0]] + s[1..][..n - 1];
      n
  }

  /** `isspace` in the C locale. */
  predicate IsSpace(c: byte) {
    c == ' ' as int || 9 <= c <= 13
  }

  function SkipSpace(s: seq<byte>): (t: seq<byte>)
    ensures |t| <= |s|
    ensures |t| > 0 ==> !IsSpace(t[0])
  {
    if s != [] && IsSpace(s[0]) then SkipSpace(s[1..]) else s
  }

  /** `strtol(s, NULL, 16)` on a 32-bit target: leading white space, an
      optional sign, an optional `0x`/`0X` prefix, then as many hex digits as
      follow; no digits gives 0; a magnitude out of range saturates at
      `LONG_MAX` (or `LONG_MIN` for a negative number). */
  function StrToLong16(s: seq<byte>): (r: int)
    ensures LONG_MIN <= r <= LONG_MAX
  {
    var t := SkipSpace(s);
    if |t| > 0 && t[0] == '-' as int then NegativeValue(Magnitude(t[1..]))
    else if |t| > 0 && t[0] == '+' as int then PositiveValue(Magnitude(t[1..]))
    else PositiveValue(Magnitude(t))
  }

  /** The digits after an optional `0x`/`0X` prefix, read as far as they go. */
  function Magnitude(u: seq<byte>): nat {
    var w := if |u| >= 2 && u[0] == '0' as int && (u[1] == 'x' as int || u[1] == 'X' as int) then u[2..] else u;
    HexValue(w[..HexRun(w)])
  }

  function PositiveValue(m: nat): (r: int)
    ensures 0 <= r <= LONG_MAX
  {
    if m > LONG_MAX then LONG_MAX else m
  }

  function NegativeValue(m: nat): (r: int)
    ensures LONG_MIN <= r <= 0
  {
    if m > -LONG_MIN then LONG_MIN else 0 - m as int
  }

  lemma {:induction false} HexRunOfHex(s: seq<byte>)
    requires AllHex(s)
    ensures HexRun(s) == |s|
  {
    if s != [] {
      HexRunOfHex(s[1..]);
    }
  }

  /** On a window made only of hex digits, `strtol` is the big-endian base-16
      value of exactly those digits, saturated at `LONG_MAX`. */
  lemma StrToLong16OfHex(s: seq<byte>)
    requires AllHex(s)
    ensures StrToLong16(s) == PositiveValue(HexValue(s))
  {
    HexRunOfHex(s);
    assert s[..|s|] == s;
  }

  /** The value of two digit strings written one after the other splits by place value. */
  lemma {:induction false} HexValueAppend(a: seq<byte>, b: seq<byte>)
    requires AllHex(a) && AllHex(b)
    ensures AllHex(a + b)
    ensures HexValue(a + b) == HexValue(a) * Pow16(|b|) + HexValue(b)
  {
    assert AllHex(a + b) by {
      forall i | 0 <= i < |a + b| ensures IsHexDigit((a + b)[i]) {
        if i < |a| { assert (a + b)[i] == a[i]; } else { assert (a + b)[i] == b[i - |a|]; }
      }
    }
    if b == [] {
      assert a + b == a;
    } else {
      var b' := b[..|b| - 1];
      assert (a + b)[..|a + b| - 1] == a + b';
      HexValueAppend(a, b');
      var x, p, y, d := HexValue(a), Pow16(|b'|), HexValue(b'), DigitValue(b[|b| - 1]);
      assert b[..|b| - 1] == b';
      assert HexValue(a + b) == 16 * HexValue(a + b') + d;
      assert HexValue(b) == 16 * y + d;
      assert Pow16(|b|) == 16 * p;
      PlaceValue(x, p, y, d);
    }
  }

  lemma PlaceValue(x: nat, p: nat, y: nat, d: nat)
    ensures 16 * (x * p + y) + d == x * (16 * p) + (16 * y + d)
  {
  }

  /** The upper-case ASCII digit for a value below 16, as the RDM630/RDM6300 sends it. */
  function HexDigitChar(d: nat): (c: byte)
    requires d < 16
    ensures IsHexDigit(c) && DigitValue(c) == d
  {
    if d < 10 then '0' as int + d else 'A' as int + d - 10
  }

  /** The two-character upper-case hex encoding of one byte. */
  function HexByte(b: byte): (s: seq<byte>)
    ensures |s| == 2 && AllHex(s)
  {
    [HexDigitChar(b / 16), HexDigitChar(b % 16)]
  }

  lemma HexByteValue(b: byte)
    ensures HexValue(HexByte(b)) == b
  {
    var s := HexByte(b);
    assert s[..1] == [s[0]];
    assert s[..1][..0] == [];
  }
}
