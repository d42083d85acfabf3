/** The HX711-style load-cell read of `src/main.cpp`: `getValue` clocks 24
    bits out of the converter MSB first into `uint8_t data[3]`, assembles them
    and flips bit 23; `prepareScale` and the tare tag store a reading in
    `_offset`; `readWeight` and the refresh in `loop()` turn a reading into the
    displayed `scaleValue`. The sampled DOUT levels are an input sequence. */
module LoadCell {
  import opened Common

  /** Bits in one conversion. */
  const BITS: nat := 24
  /** `0x800000`, bit 23. */
  const SIGN_FLIP: nat := 0x80_0000
  /** `int _scale = 100`. */
  const SCALE: nat := 100

  function B(b: bool): nat {
    if b then 1 else 0
  }

  /** The number a sequence of bits spells, most significant bit first. */
  function BitsValue(s: seq<bool>): (v: nat)
    ensures v < Pow2(|s|)
  {
    if s == [] then 0 else 2 * BitsValue(s[..|s| - 1]) + B(s[|s| - 1])
  }

  lemma BitsValueSnoc(s: seq<bool>, b: bool)
    ensures BitsValue(s + [b]) == 2 * BitsValue(s) + B(b)
  {
    assert (s + [b])[..|s|] == s;
  }

  /** Bits written one after the other split by place value. */
  lemma {:induction false} BitsValueAppend(s: seq<bool>, t: seq<bool>)
    ensures BitsValue(s + t) == BitsValue(s) * Pow2(|t|) + BitsValue(t)
    decreases |t|
  {
    if t == [] {
      assert s + t == s;
    } else {
      var t', b := t[..|t| - 1], t[|t| - 1];
      assert t == t' + [b] && s + t == (s + t') + [b];
      BitsValueAppend(s, t');
      BitsValueSnoc(s + t', b);
      BitsValueSnoc(t', b);
      DoublePlace(BitsValue(s), Pow2(|t'|), BitsValue(t'), B(b));
    }
  }

  lemma DoublePlace(x: nat, p: nat, y: nat, d: nat)
    ensures 2 * (x * p + y) + d == x * (2 * p) + (2 * y + d)
  {
  }

  /** What `getValue` returns for the 24 sampled bits: their value with bit 23
      flipped (`^ 0x800000`). */
  function RawReading(bits: seq<bool>): (r: nat)
    requires |bits| == BITS
    ensures r < Pow2(BITS)
  {
    Pow2Table();
    XorBound(BitsValue(bits), SIGN_FLIP, BITS);
    Xor(BitsValue(bits), SIGN_FLIP)
  }

  /** The 24-bit two's-complement number a conversion encodes. */
  function Signed24(v: nat): int
    requires v < Pow2(BITS)
  {
    if v < SIGN_FLIP then v else v - 2 * SIGN_FLIP
  }

  /** Flipping bit 23 turns the converter's two's-complement output into
      offset binary: the raw reading is the signed sample plus 2^23, so it
      grows with the load over the whole range. */
  lemma RawReadingOffsetBinary(bits: seq<bool>)
    requires |bits| == BITS
    ensures RawReading(bits) == Signed24(BitsValue(bits)) + SIGN_FLIP
  {
    Pow2Table();
    XorPow2(BitsValue(bits), 23);
    TopBit(BitsValue(bits), 23);
  }

  /** `bitWrite(x, n, b)`: set or clear bit n. */
  function BitWrite(x: bv8, n: nat, b: bool): bv8
    requires n < 8
  {
    if b then x | Mask(n) else x & !Mask(n)
  }

  /** `1 << n` for a bit position of a byte. */
  function Mask(n: nat): bv8
    requires n < 8
  {
    if n == 0 then 1 else if n == 1 then 2 else if n == 2 then 4 else if n == 3 then 8
    else if n == 4 then 16 else if n == 5 then 32 else if n == 6 then 64 else 128
  }

  /** The i most significant bits of a byte, shifted down (`x >> (8 - i)`). */
  function TopBits(x: bv8, i: nat): bv8
    requires i <= 8
  {
    if i == 0 then 0 else if i == 1 then x >> 7 else if i == 2 then x >> 6
    else if i == 3 then x >> 5 else if i == 4 then x >> 4 else if i == 5 then x >> 3
    else if i == 6 then x >> 2 else if i == 7 then x >> 1 else x
  }

  /** Writing bit 7 - i below the i bits already written shifts it in after them. */
  lemma BitWriteStep(x: bv8, i: nat, b: bool)
    requires i < 8
    ensures TopBits(BitWrite(x, 7 - i, b), i + 1) == (TopBits(x, i) << 1) | (if b then 1 else 0)
  {
    if i == 0 {} else if i == 1 {} else if i == 2 {} else if i == 3 {}
    else if i == 4 {} else if i == 5 {} else if i == 6 {} else {}
  }

  /** The byte a sequence of at most eight bits spells, most significant bit first. */
  function ByteOf(s: seq<bool>): bv8
    requires |s| <= 8
  {
    if s == [] then 0 else (ByteOf(s[..|s| - 1]) << 1) | (if s[|s| - 1] then 1 else 0)
  }

  lemma ShiftIn(y: bv8, b: bool)
    requires y < 128
    ensures ((y << 1) | (if b then 1 else 0)) as int == 2 * y as int + B(b)
  {
  }

  /** As a number, the assembled byte is the value of its bits. */
  lemma {:induction false} ByteOfValue(s: seq<bool>)
    requires |s| <= 8
    ensures ByteOf(s) as int == BitsValue(s)
  {
    if s != [] {
      var s' := s[..|s| - 1];
      ByteOfValue(s');
      Pow2Table();
      Pow2Mono(|s'|, 7);
      ShiftIn(ByteOf(s'), s[|s| - 1]);
    }
  }

  /** `((long) data[2] << 16) | ((long) data[1] << 8) | (long) data[0]` as a number. */
  lemma Assemble(d2: bv8, d1: bv8, d0: bv8)
    ensures ((((d2 as bv32) << 16) | ((d1 as bv32) << 8)) | (d0 as bv32)) as int
            == (d2 as int * 256 + d1 as int) * 256 + d0 as int
  {
  }

  /** `^ 0x800000` on a 24-bit pattern. */
  lemma FlipBit23(v: bv32)
    requires v < 0x100_0000
    ensures (v ^ 0x80_0000) as int == if v < 0x80_0000 then v as int + 0x80_0000 else v as int - 0x80_0000
  {
  }

  /** `getValue` with the DOUT samples supplied in the order they are read.
      Returns the raw reading and the number of SCK pulses issued: one per
      bit and one more that selects the next conversion. */
  method GetValue(bits: seq<bool>) returns (ret: int, pulses: nat)
    requires |bits| == BITS
    ensures ret == RawReading(bits) && pulses == BITS + 1
  {
    var data := new bv8[3](_ => 0);
    pulses := 0;
    var j := 0;
    while j < 3
      invariant 0 <= j <= 3 && pulses == 8 * j
      invariant j > 0 ==> data[2] == ByteOf(bits[0..8])
      invariant j > 1 ==> data[1] == ByteOf(bits[8..16])
      invariant j > 2 ==> data[0] == ByteOf(bits[16..24])
    {
      var p := ReadByte(data, 2 - j, bits[8 * j..8 * j + 8]);
      pulses := pulses + p;
      j := j + 1;
    }
    pulses := pulses + 1;
    var v: bv32 := (((data[2] as bv32) << 16) | ((data[1] as bv32) << 8)) | (data[0] as bv32);
    AssembledValue(data[2], data[1], data[0], bits);
    ret := (v ^ 0x80_0000) as int;
    FlippedReading(v, bits);
  }

  /** The inner loop of `getValue`: eight SCK pulses, each followed by
      `bitWrite(data[idx], 7 - i, digitalRead(DOUT))`, most significant bit first. */
  method ReadByte(data: array<bv8>, idx: nat, bits: seq<bool>) returns (pulses: nat)
    requires idx < data.Length && |bits| == 8
    modifies data
    ensures data[idx] == ByteOf(bits) && pulses == 8
    ensures forall m :: 0 <= m < data.Length && m != idx ==> data[m] == old(data[m])
  {
    pulses := 0;
    var i := 0;
    while i < 8
      invariant 0 <= i <= 8 && pulses == i
      invariant TopBits(data[idx], i) == ByteOf(bits[0..i])
      invariant forall m :: 0 <= m < data.Length && m != idx ==> data[m] == old(data[m])
    {
      pulses := pulses + 1;
      BitWriteStep(data[idx], i, bits[i]);
      ByteOfStep(bits, 0, i);
      data[idx] := BitWrite(data[idx], 7 - i, bits[i]);
      i := i + 1;
    }
    assert bits[0..8] == bits;
  }

  lemma ByteOfStep(bits: seq<bool>, lo: nat, hi: nat)
    requires lo <= hi < |bits| && hi - lo < 8
    ensures ByteOf(bits[lo..hi + 1]) == (ByteOf(bits[lo..hi]) << 1) | (if bits[hi] then 1 else 0)
  {
    assert bits[lo..hi + 1][..hi - lo] == bits[lo..hi];
  }

  /** `((long) data[2] << 16) | ((long) data[1] << 8) | (long) data[0]` is the value of all 24 bits. */
  lemma AssembledValue(d2: bv8, d1: bv8, d0: bv8, bits: seq<bool>)
    requires |bits| == BITS
    requires d2 == ByteOf(bits[0..8]) && d1 == ByteOf(bits[8..16]) && d0 == ByteOf(bits[16..24])
    ensures ((((d2 as bv32) << 16) | ((d1 as bv32) << 8)) | (d0 as bv32)) as int == BitsValue(bits)
  {
    ByteOfValue(bits[0..8]);
    ByteOfValue(bits[8..16]);
    ByteOfValue(bits[16..24]);
    Assemble(d2, d1, d0);
    ThreeBytes(bits);
  }

  /** `^ 0x800000` on the assembled 24-bit value gives the raw reading. */
  lemma FlippedReading(v: bv32, bits: seq<bool>)
    requires |bits| == BITS && v as int == BitsValue(bits)
    ensures (v ^ 0x80_0000) as int == RawReading(bits)
  {
    Pow2Table();
    FlipBit23(v);
    RawReadingOffsetBinary(bits);
  }

  /** The 24 bits are the three bytes `data[2]`, `data[1]`, `data[0]`, most significant first. */
  lemma ThreeBytes(bits: seq<bool>)
    requires |bits| == BITS
    ensures BitsValue(bits) == (BitsValue(bits[0..8]) * 256 + BitsValue(bits[8..16])) * 256 + BitsValue(bits[16..24])
  {
    Pow2Table();
    assert bits[..16] == bits[0..8] + bits[8..16];
    assert bits == bits[..16] + bits[16..24];
    BitsValueAppend(bits[0..8], bits[8..16]);
    BitsValueAppend(bits[..16], bits[16..24]);
  }

  /** C's `/` on integers: the quotient truncated toward zero. */
  function TruncDiv(a: int, d: nat): (q: int)
    requires d > 0
    ensures a >= 0 ==> 0 <= q * d <= a < q * d + d
    ensures a < 0 ==> a + d > q * d >= a && q <= 0
  {
    if a >= 0 then
      DivBounds(a, d);
      a / d
    else
      DivBounds(-a, d);
      -((-a) / d)
  }

  lemma DivBounds(a: nat, d: nat)
    requires d > 0
    ensures 0 <= (a / d) * d <= a < (a / d) * d + d
  {
    var q, r := a / d, a % d;
    assert a == d * q + r && 0 <= r < d;
    assert q >= 0;
    assert q * d == d * q;
  }

  /** `scaleValue = -1 * readWeight()` with `readWeight() = (float) (getValue() - _offset) / _scale`.
      Both readings are below 2^24, so the difference is exact in a float, the
      rounded quotient stays strictly between the same two integers as the
      exact one, and the conversion back to `long` truncates: the result is
      the negated truncated quotient. */
  function ScaleValue(raw: int, offset: int): (w: int)
    ensures raw >= offset ==> w <= 0 && -w * SCALE <= raw - offset < -w * SCALE + SCALE
    ensures raw < offset ==> w >= 0 && w * SCALE <= offset - raw < w * SCALE + SCALE
  {
    -TruncDiv(raw - offset, SCALE)
  }

  /** After a tare with the same sample, the scale shows zero. */
  lemma TareShowsZero(bits: seq<bool>)
    requires |bits| == BITS
    ensures ScaleValue(RawReading(bits), RawReading(bits)) == 0
  {
  }

  /** The tared reading is the difference of the converter's signed samples:
      flipping bit 23 cancels out of `getValue() - _offset`. */
  lemma TaredDifference(sample: seq<bool>, tare: seq<bool>)
    requires |sample| == BITS && |tare| == BITS
    ensures RawReading(sample) - RawReading(tare) == Signed24(BitsValue(sample)) - Signed24(BitsValue(tare))
  {
    RawReadingOffsetBinary(sample);
    RawReadingOffsetBinary(tare);
  }

  /** A heavier load (a larger signed sample) never shows a larger `scaleValue`. */
  lemma ScaleValueAntitone(s1: seq<bool>, s2: seq<bool>, offset: int)
    requires |s1| == BITS && |s2| == BITS
    requires Signed24(BitsValue(s1)) <= Signed24(BitsValue(s2))
    ensures ScaleValue(RawReading(s2), offset) <= ScaleValue(RawReading(s1), offset)
  {
    RawReadingOffsetBinary(s1);
    RawReadingOffsetBinary(s2);
    TruncDivMono(RawReading(s1) - offset, RawReading(s2) - offset);
  }

  lemma TruncDivMono(a: int, b: int)
    requires a <= b
    ensures TruncDiv(a, SCALE) <= TruncDiv(b, SCALE)
  {
  }
}
