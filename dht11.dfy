/**
 * DHT11 frame decoding: classifying a measured high time as a bit, packing
 * MSB-first spans of the 40-entry bit buffer into integers, cutting the five
 * fields of a reading out of the buffer, and the checksum test.
 *
 * The buffer entries and the reading's fields are `i32` in the firmware; here
 * they are unbounded integers. Every value the firmware stores in the buffer
 * is 0 or 1, and every field decoded from such a buffer lies in [0, 255], so
 * no 32-bit overflow can occur on those values (see the lemmas below).
 */
module Dht11 {

  /** Number of data bits in one DHT11 frame. */
  const FrameBits: nat := 40

  /** A measured high time at or above this many microseconds is a 1. */
  const BitThresholdMicros: nat := 40

  /** The decoded sample: five integers, in the order they are sent. */
  datatype Reading = Reading(
    humidityInteger: int,
    humidityDecimal: int,
    temperatureInteger: int,
    temperatureDecimal: int,
    checksum: int)

  function Pow2(n: nat): (p: nat)
    ensures p >= 1
  {
    if n == 0 then 1 else 2 * Pow2(n - 1)
  }

  /** Every entry of `s` is 0 or 1. */
  predicate IsBits(s: seq<int>)
  {
    forall i :: 0 <= i < |s| ==> s[i] == 0 || s[i] == 1
  }

  /** Every entry of `buffer` in [start, end) is 0 or 1. */
  predicate IsBitsIn(buffer: seq<int>, start: nat, end: nat)
    requires start <= end <= |buffer|
  {
    forall i :: start <= i < end ==> buffer[i] == 0 || buffer[i] == 1
  }

  /** Every field of `r` fits in one byte. */
  predicate ByteFields(r: Reading)
  {
    && 0 <= r.humidityInteger < 256
    && 0 <= r.humidityDecimal < 256
    && 0 <= r.temperatureInteger < 256
    && 0 <= r.temperatureDecimal < 256
    && 0 <= r.checksum < 256
  }

  // ---------------------------------------------------------------------
  // Bit classification
  // ---------------------------------------------------------------------

  /** The value stored in the bit buffer for a measured high time. */
  function ClassifyBit(highMicros: nat): (bit: int)
    ensures bit == 0 || bit == 1
    ensures bit == 1 <==> highMicros >= BitThresholdMicros
  {
    if highMicros >= BitThresholdMicros then 1 else 0
  }

  /** The threshold is inclusive on the high side. */
  lemma ClassifyBoundary()
    ensures ClassifyBit(39) == 0
    ensures ClassifyBit(40) == 1 && ClassifyBit(41) == 1
  {
  }

  // ---------------------------------------------------------------------
  // Span packing
  // ---------------------------------------------------------------------

  /**
   * The sum over j in [start, i) of buffer[j] * 2^(end - j - 1): the
   * contribution of the first i - start bits of the span [start, end).
   */
  function PartialSpan(buffer: seq<int>, start: nat, i: nat, end: nat): int
    requires start <= i <= end <= |buffer|
    decreases i - start
  {
    if i == start then 0
    else PartialSpan(buffer, start, i - 1, end) + buffer[i - 1] * Pow2(end - i)
  }

  /**
   * The big-endian value of the span [start, end): the sum over i in
   * [start, end) of buffer[i] << (end - i - 1). An empty or reversed range
   * contributes nothing.
   */
  function SpanValue(buffer: seq<int>, start: nat, end: nat): int
    requires end <= |buffer|
  {
    if start <= end then PartialSpan(buffer, start, end, end) else 0
  }

  /** `bits_to_int`: accumulate the span MSB first, one bit at a time. */
  method BitsToInt(buffer: seq<int>, start: nat, end: nat) returns (num: int)
    requires end <= |buffer|
    ensures num == SpanValue(buffer, start, end)
    ensures start <= end && IsBitsIn(buffer, start, end) ==> 0 <= num < Pow2(end - start)
  {
    num := 0;
    var i := start;
    while i < end
      invariant start <= end ==> start <= i <= end
      invariant end < start ==> i == start && num == 0
      invariant start <= end ==> num == PartialSpan(buffer, start, i, end)
    {
      num := num + buffer[i] * Pow2(end - (i + 1));
      i := i + 1;
    }
    if start <= end && IsBitsIn(buffer, start, end) {
      SpanBounds(buffer, start, end);
    }
  }

  /** Adding one weight position doubles every partial sum. */
  lemma {:induction false} PartialSpanDouble(buffer: seq<int>, start: nat, i: nat, end: nat)
    requires start <= i <= end < |buffer|
    ensures PartialSpan(buffer, start, i, end + 1) == 2 * PartialSpan(buffer, start, i, end)
  {
    if i > start {
      PartialSpanDouble(buffer, start, i - 1, end);
      assert Pow2(end + 1 - i) == 2 * Pow2(end - i);
    }
  }

  /** Horner's rule: appending a bit to a span doubles its value and adds the bit. */
  lemma {:induction false} SpanHorner(buffer: seq<int>, start: nat, end: nat)
    requires start <= end < |buffer|
    ensures SpanValue(buffer, start, end + 1) == 2 * SpanValue(buffer, start, end) + buffer[end]
  {
    PartialSpanDouble(buffer, start, end, end);
  }

  /** A span's value depends only on the entries inside it, not on where it sits. */
  lemma {:induction false} PartialSpanShift(a: seq<int>, b: seq<int>, off: nat, start: nat, i: nat, end: nat)
    requires off <= start <= i <= end <= |a| && end - off <= |b|
    requires forall j :: start <= j < end ==> a[j] == b[j - off]
    ensures PartialSpan(a, start, i, end) == PartialSpan(b, start - off, i - off, end - off)
  {
    if i > start {
      PartialSpanShift(a, b, off, start, i - 1, end);
    }
  }

  lemma {:induction false} SpanShift(a: seq<int>, b: seq<int>, off: nat, start: nat, end: nat)
    requires off <= start <= end <= |a| && end - off <= |b|
    requires forall j :: start <= j < end ==> a[j] == b[j - off]
    ensures SpanValue(a, start, end) == SpanValue(b, start - off, end - off)
  {
    PartialSpanShift(a, b, off, start, end, end);
  }

  /** A span of bits decodes to a value in [0, 2^(end - start)). */
  lemma {:induction false} SpanBounds(buffer: seq<int>, start: nat, end: nat)
    requires start <= end <= |buffer|
    requires IsBitsIn(buffer, start, end)
    ensures 0 <= SpanValue(buffer, start, end) < Pow2(end - start)
  {
    if end > start {
      SpanBounds(buffer, start, end - 1);
      SpanHorner(buffer, start, end - 1);
    }
  }

  /** An 8-bit span of bits decodes to a byte. */
  lemma {:induction false} ByteSpanBounds(buffer: seq<int>, start: nat)
    requires start + 8 <= |buffer|
    requires IsBitsIn(buffer, start, start + 8)
    ensures 0 <= SpanValue(buffer, start, start + 8) < 256
  {
    SpanBounds(buffer, start, start + 8);
    assert Pow2(8) == 256;
  }

  /** A span of ones is the all-ones number of its width. */
  lemma {:induction false} SpanOfOnes(buffer: seq<int>, start: nat, end: nat)
    requires start <= end <= |buffer|
    requires forall j :: start <= j < end ==> buffer[j] == 1
    ensures SpanValue(buffer, start, end) == Pow2(end - start) - 1
    decreases end - start
  {
    if start < end {
      SpanOfOnes(buffer, start, end - 1);
      SpanHorner(buffer, start, end - 1);
    }
  }

  /** A span of bits whose first bit is 1 is at least 2^(end - start - 1). */
  lemma {:induction false} SpanLeadingOne(buffer: seq<int>, start: nat, end: nat)
    requires start < end <= |buffer| && buffer[start] == 1
    requires IsBitsIn(buffer, start, end)
    ensures SpanValue(buffer, start, end) >= Pow2(end - start - 1)
    decreases end - start
  {
    SpanHorner(buffer, start, end - 1);
    if start < end - 1 {
      SpanLeadingOne(buffer, start, end - 1);
    }
  }

  /** The two worked examples of MSB-first packing. */
  lemma SpanExamples()
    ensures SpanValue([0, 0, 0, 0, 0, 0, 0, 1], 0, 8) == 1
    ensures SpanValue([1, 0, 0, 0, 0, 0, 0, 0], 0, 8) == 128
  {
    assert Pow2(7) == 128;
  }

  // ---------------------------------------------------------------------
  // Encoding a value as MSB-first bits (the sensor's side of the wire)
  // ---------------------------------------------------------------------

  /** The low n bits of v, most significant first. */
  function Bits(v: nat, n: nat): (s: seq<int>)
    ensures |s| == n
  {
    if n == 0 then [] else Bits(v / 2, n - 1) + [v % 2]
  }

  /** Every entry of `Bits(v, n)` is a bit. */
  lemma {:induction false} BitsAreBits(v: nat, n: nat)
    ensures IsBits(Bits(v, n))
  {
    if n > 0 {
      BitsAreBits(v / 2, n - 1);
      var s := Bits(v, n);
      var init := Bits(v / 2, n - 1);
      forall i | 0 <= i < n ensures s[i] == 0 || s[i] == 1 {
        if i < n - 1 {
          assert s[i] == init[i];
        }
      }
    }
  }

  /** Packing the bits of v gives back v. */
  lemma {:induction false} SpanOfBits(v: nat, n: nat)
    requires v < Pow2(n)
    ensures SpanValue(Bits(v, n), 0, n) == v
  {
    if n > 0 {
      var s := Bits(v, n);
      SpanOfBits(v / 2, n - 1);
      SpanShift(s, Bits(v / 2, n - 1), 0, 0, n - 1);
      SpanHorner(s, 0, n - 1);
    }
  }

  /** Unpacking the value of a span of bits gives back the bits. */
  lemma {:induction false} BitsOfSpan(bits: seq<int>)
    requires IsBits(bits)
    ensures SpanValue(bits, 0, |bits|) >= 0
    ensures Bits(SpanValue(bits, 0, |bits|), |bits|) == bits
  {
    var n := |bits|;
    if n > 0 {
      var init := bits[..n - 1];
      assert IsBits(init) by {
        forall k | 0 <= k < n - 1 ensures init[k] == 0 || init[k] == 1 {
          assert init[k] == bits[k];
        }
      }
      BitsOfSpan(init);
      SpanShift(bits, init, 0, 0, n - 1);
      SpanHorner(bits, 0, n - 1);
      var v := SpanValue(bits, 0, n);
      var w := SpanValue(init, 0, n - 1);
      assert v == 2 * w + bits[n - 1];
      assert v / 2 == w && v % 2 == bits[n - 1];
      assert bits == init + [bits[n - 1]];
    }
  }

  // ---------------------------------------------------------------------
  // Frame assembly
  // ---------------------------------------------------------------------

  /** The reading whose fields are the five consecutive 8-bit spans of `buffer`. */
  function Decode(buffer: seq<int>): Reading
    requires |buffer| >= FrameBits
  {
    Reading(
      SpanValue(buffer, 0, 8),
      SpanValue(buffer, 8, 16),
      SpanValue(buffer, 16, 24),
      SpanValue(buffer, 24, 32),
      SpanValue(buffer, 32, 40))
  }

  /** The 40 bits the sensor sends for a reading whose fields are bytes. */
  function Encode(r: Reading): (bits: seq<int>)
    requires ByteFields(r)
    ensures |bits| == FrameBits
  {
    Bits(r.humidityInteger, 8) + Bits(r.humidityDecimal, 8)
    + Bits(r.temperatureInteger, 8) + Bits(r.temperatureDecimal, 8)
    + Bits(r.checksum, 8)
  }

  /** The encoding of a reading is a frame of bits. */
  lemma {:induction false} EncodeIsBits(r: Reading)
    requires ByteFields(r)
    ensures IsBits(Encode(r))
  {
    var a, b, c := Bits(r.humidityInteger, 8), Bits(r.humidityDecimal, 8), Bits(r.temperatureInteger, 8);
    var d, e := Bits(r.temperatureDecimal, 8), Bits(r.checksum, 8);
    BitsAreBits(r.humidityInteger, 8);
    BitsAreBits(r.humidityDecimal, 8);
    BitsAreBits(r.temperatureInteger, 8);
    BitsAreBits(r.temperatureDecimal, 8);
    BitsAreBits(r.checksum, 8);
    var s := Encode(r);
    assert s == a + b + c + d + e;
    forall i | 0 <= i < FrameBits ensures s[i] == 0 || s[i] == 1 {
      if i < 8 { assert s[i] == a[i]; }
      else if i < 16 { assert s[i] == b[i - 8]; }
      else if i < 24 { assert s[i] == c[i - 16]; }
      else if i < 32 { assert s[i] == d[i - 24]; }
      else { assert s[i] == e[i - 32]; }
    }
  }

  /** `from_buffer`: five calls of `bits_to_int`, one per field, in wire order. */
  method FromBuffer(buffer: seq<int>) returns (r: Reading)
    requires |buffer| >= FrameBits
    ensures r == Decode(buffer)
    ensures IsBitsIn(buffer, 0, FrameBits) ==> ByteFields(r)
  {
    var hi := BitsToInt(buffer, 0, 8);
    var hd := BitsToInt(buffer, 8, 16);
    var ti := BitsToInt(buffer, 16, 24);
    var td := BitsToInt(buffer, 24, 32);
    var cs := BitsToInt(buffer, 32, 40);
    r := Reading(hi, hd, ti, td, cs);
    if IsBitsIn(buffer, 0, FrameBits) {
      DecodeFieldsAreBytes(buffer);
    }
  }

  /** Decoding a frame of bits yields five bytes. */
  lemma {:induction false} DecodeFieldsAreBytes(buffer: seq<int>)
    requires |buffer| >= FrameBits && IsBitsIn(buffer, 0, FrameBits)
    ensures ByteFields(Decode(buffer))
  {
    ByteSpanBounds(buffer, 0);
    ByteSpanBounds(buffer, 8);
    ByteSpanBounds(buffer, 16);
    ByteSpanBounds(buffer, 24);
    ByteSpanBounds(buffer, 32);
  }

  /** An 8-bit span that holds the bits of v decodes to v. */
  lemma {:induction false} SpanOfByteSlice(bits: seq<int>, start: nat, v: nat)
    requires start + 8 <= |bits| && v < 256
    requires bits[start..start + 8] == Bits(v, 8)
    ensures SpanValue(bits, start, start + 8) == v
  {
    forall j | start <= j < start + 8 ensures bits[j] == Bits(v, 8)[j - start] {
      assert bits[j] == bits[start..start + 8][j - start];
    }
    SpanShift(bits, Bits(v, 8), start, start, start + 8);
    assert Pow2(8) == 256;
    SpanOfBits(v, 8);
  }

  /** The five 8-element pieces of a 40-element concatenation. */
  lemma {:induction false} Pieces(a: seq<int>, b: seq<int>, c: seq<int>, d: seq<int>, e: seq<int>)
    requires |a| == |b| == |c| == |d| == |e| == 8
    ensures var s := a + b + c + d + e;
      s[0..8] == a && s[8..16] == b && s[16..24] == c && s[24..32] == d && s[32..40] == e
  {
  }

  /** Round trip, sensor to reading: the five bytes sent are the five fields decoded. */
  lemma {:induction false} DecodeEncode(r: Reading)
    requires ByteFields(r)
    ensures Decode(Encode(r)) == r
  {
    var bits := Encode(r);
    Pieces(Bits(r.humidityInteger, 8), Bits(r.humidityDecimal, 8),
      Bits(r.temperatureInteger, 8), Bits(r.temperatureDecimal, 8), Bits(r.checksum, 8));
    SpanOfByteSlice(bits, 0, r.humidityInteger);
    SpanOfByteSlice(bits, 8, r.humidityDecimal);
    SpanOfByteSlice(bits, 16, r.temperatureInteger);
    SpanOfByteSlice(bits, 24, r.temperatureDecimal);
    SpanOfByteSlice(bits, 32, r.checksum);
  }

  /** An 8-bit span of a sequence of bits re-encodes to itself. */
  lemma {:induction false} ByteSliceOfSpan(bits: seq<int>, start: nat, v: nat)
    requires start + 8 <= |bits| && IsBits(bits)
    requires v == SpanValue(bits, start, start + 8)
    ensures Bits(v, 8) == bits[start..start + 8]
  {
    var span := bits[start..start + 8];
    assert IsBits(span) by {
      forall j | 0 <= j < 8 ensures span[j] == 0 || span[j] == 1 {
        assert span[j] == bits[start + j];
      }
    }
    SpanShift(bits, span, start, start, start + 8);
    BitsOfSpan(span);
  }

  lemma {:induction false} EncodeDecode(bits: seq<int>)
    requires |bits| == FrameBits && IsBits(bits)
    ensures ByteFields(Decode(bits))
    ensures Encode(Decode(bits)) == bits
  {
    DecodeFieldsAreBytes(bits);
    var r := Decode(bits);
    DecodedPieces(bits, r.humidityInteger, r.humidityDecimal, r.temperatureInteger, r.temperatureDecimal, r.checksum);
    EncodeFromPieces(r, bits);
  }

  lemma {:induction false} DecodedPieces(bits: seq<int>, a: nat, b: nat, c: nat, d: nat, e: nat)
    requires |bits| == FrameBits && IsBits(bits)
    requires a == SpanValue(bits, 0, 8) && b == SpanValue(bits, 8, 16) && c == SpanValue(bits, 16, 24)
    requires d == SpanValue(bits, 24, 32) && e == SpanValue(bits, 32, 40)
    ensures Bits(a, 8) == bits[0..8] && Bits(b, 8) == bits[8..16] && Bits(c, 8) == bits[16..24]
    ensures Bits(d, 8) == bits[24..32] && Bits(e, 8) == bits[32..40]
  {
    ByteSliceOfSpan(bits, 0, a);
    ByteSliceOfSpan(bits, 8, b);
    ByteSliceOfSpan(bits, 16, c);
    ByteSliceOfSpan(bits, 24, d);
    ByteSliceOfSpan(bits, 32, e);
  }

  lemma {:induction false} EncodeFromPieces(r: Reading, bits: seq<int>)
    requires ByteFields(r) && |bits| == FrameBits
    requires Bits(r.humidityInteger, 8) == bits[0..8]
    requires Bits(r.humidityDecimal, 8) == bits[8..16]
    requires Bits(r.temperatureInteger, 8) == bits[16..24]
    requires Bits(r.temperatureDecimal, 8) == bits[24..32]
    requires Bits(r.checksum, 8) == bits[32..40]
    ensures Encode(r) == bits
  {
    assert bits[0..16] == bits[0..8] + bits[8..16];
    assert bits[0..24] == bits[0..16] + bits[16..24];
    assert bits[0..32] == bits[0..24] + bits[24..32];
    assert bits[0..40] == bits[0..32] + bits[32..40];
    assert bits == bits[0..40];
  }

  // ---------------------------------------------------------------------
  // Checksum
  // ---------------------------------------------------------------------

  /** Bitwise AND of two non-negative integers. */
  function BitAnd(x: nat, y: nat): nat
  {
    if x == 0 || y == 0 then 0
    else 2 * BitAnd(x / 2, y / 2) + (if x % 2 == 1 && y % 2 == 1 then 1 else 0)
  }

  /**
   * `x & 0xFF` on a 32-bit two's complement integer: the bit pattern of x is
   * x mod 2^32, whatever the sign of x or any wrap-around of the sum.
   */
  function LowByte(x: int): (b: int)
    ensures b == x % 256
  {
    var pattern := x % 0x1_0000_0000;
    BitAndMask(pattern, 8);
    assert Pow2(8) == 256;
    LowByteOfPattern(x);
    BitAnd(pattern, 0xFF)
  }

  /** Masking with 2^n - 1 keeps the low n bits. */
  lemma {:induction false} BitAndMask(w: nat, n: nat)
    ensures BitAnd(w, Pow2(n) - 1) == w % Pow2(n)
  {
    if n == 0 {
      assert Pow2(n) == 1;
    } else if w == 0 {
    } else {
      var m := Pow2(n - 1);
      var mask := Pow2(n) - 1;
      assert mask / 2 == m - 1 && mask % 2 == 1;
      BitAndMask(w / 2, n - 1);
      HalvingMod(w, m);
    }
  }

  /** Reducing modulo 2^32 first does not change the value modulo 256. */
  lemma LowByteOfPattern(x: int)
    ensures (x % 0x1_0000_0000) % 256 == x % 256
  {
    var q, p := x / 0x1_0000_0000, x % 0x1_0000_0000;
    var t, s := p / 256, p % 256;
    DivModUnique(x, 256, 0x100_0000 * q + t, s);
  }

  lemma HalvingMod(w: nat, m: nat)
    requires m >= 1
    ensures w % (2 * m) == 2 * ((w / 2) % m) + w % 2
  {
    var q, b := w / 2, w % 2;
    var t, s := q / m, q % m;
    assert q == m * t + s;
    assert (2 * m) * t == 2 * (m * t);
    DivModUnique(w, 2 * m, t, 2 * s + b);
  }

  lemma MulAtLeast(k: int, d: int)
    requires k >= 1 && d > 0
    ensures k * d >= d
  {
  }

  lemma DivModUnique(w: int, d: int, t: int, r: int)
    requires d > 0 && w == d * t + r && 0 <= r < d
    ensures w % d == r && w / d == t
  {
    var q := w / d;
    assert w == d * q + w % d;
    assert d * (t - q) == w % d - r;
    if t > q {
      MulAtLeast(t - q, d);
    } else if t < q {
      MulAtLeast(q - t, d);
    }
  }

  /** `is_valid`: the low byte of the four data fields' sum equals the checksum. */
  function IsValid(r: Reading): (valid: bool)
    ensures valid <==>
      (r.humidityInteger + r.humidityDecimal + r.temperatureInteger + r.temperatureDecimal) % 256 == r.checksum
  {
    LowByte(r.humidityDecimal + r.humidityInteger + r.temperatureDecimal + r.temperatureInteger) == r.checksum
  }

  /** The worked checksum example: data 25, 0, 22, 5 sum to 52. */
  lemma IsValidExample(r: Reading)
    requires r.humidityInteger == 25 && r.humidityDecimal == 0
    requires r.temperatureInteger == 22 && r.temperatureDecimal == 5
    ensures IsValid(r) <==> r.checksum == 52
  {
    var sum := r.humidityInteger + r.humidityDecimal + r.temperatureInteger + r.temperatureDecimal;
    assert sum == 52 && sum % 256 == 52;
  }
}
