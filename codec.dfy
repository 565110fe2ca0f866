/**
 * The TMP102 temperature format: how the temperature, T_LOW and T_HIGH
 * registers pack a reading in 1/16 degree Celsius counts, in normal (12-bit)
 * and extended (13-bit) mode, and how a threshold in degrees Celsius is
 * packed into one.
 */
module Codec {
  import opened Bits

  /** A 2-byte register as it crosses the bus: byte 0 (most significant) first, then byte 1. */
  datatype Reg = Reg(b0: bv8, b1: bv8)

  datatype Option<T> = None | Some(value: T)

  /** Degrees Celsius per count. */
  const Resolution: real := 0.0625

  /** The largest temperature a 12-bit register holds: 0x7FF counts. */
  const MaxNormal: real := 127.9375

  /** The pair `0xFF, 0xFF` means "no reading" (no device answered). */
  predicate IsSentinel(r: Reg)
    ensures IsSentinel(r) <==> r == Reg(0xFF, 0xFF)
  {
    r.b0 == 0xFF && r.b1 == 0xFF
  }

  // ---------------------------------------------------------------------
  // Decoding
  // ---------------------------------------------------------------------

  /**
   * Normal mode: byte 0 is bits 11-4 and the top nibble of byte 1 is bits
   * 3-0. The bit ranges do not overlap, so the readers' OR is a sum (Raw12Bitwise).
   */
  function Raw12(r: Reg): (v: nat)
    ensures v < 0x1000
    ensures v / 16 == r.b0 as int && v % 16 == r.b1 as int / 16
  {
    r.b0 as int * 16 + r.b1 as int / 16
  }

  /** Raw12 is the readers' `(b0 << 4) | (b1 >> 4)`. */
  lemma Raw12Bitwise(r: Reg)
    ensures Raw12(r) == Or(Shl(r.b0 as int, 4), Shr(r.b1 as int, 4))
  {
    assert Pow2(4) == 16;
    OrDisjoint(r.b0 as int, 4, r.b1 as int / 16);
  }

  /** Extended mode: byte 0 is bits 12-5 and the top 5 bits of byte 1 are bits 4-0. */
  function Raw13(r: Reg): (v: nat)
    ensures v < 0x2000
    ensures v / 32 == r.b0 as int && v % 32 == r.b1 as int / 8
  {
    r.b0 as int * 32 + r.b1 as int / 8
  }

  /** Raw13 is the readers' `(b0 << 5) | (b1 >> 3)`. */
  lemma Raw13Bitwise(r: Reg)
    ensures Raw13(r) == Or(Shl(r.b0 as int, 5), Shr(r.b1 as int, 3))
  {
    assert Pow2(5) == 32 && Pow2(3) == 8;
    OrDisjoint(r.b0 as int, 5, r.b1 as int / 8);
  }

  /**
   * The 12-bit value widened to a 16-bit two's-complement pattern: above
   * 0x7FF, bits 12-15 are set (Extend12Bitwise: `v |= 0xF000`).
   */
  function Extend12(v: nat): (p: nat)
    requires v < 0x1000
    ensures p < 0x10000 && p % 0x1000 == v
    ensures v <= 0x7FF ==> p == v
    ensures Signed16(p) == SignExtend(v, 12)
  {
    assert Pow2(11) == 0x800 && Pow2(12) == 0x1000;
    if v > 0x7FF then v + 0xF000 else v
  }

  lemma Extend12Bitwise(v: nat)
    requires 0x7FF < v < 0x1000
    ensures Extend12(v) == Or(v, 0xF000)
  {
    assert Pow2(12) == 0x1000;
    OrDisjoint(15, 12, v);
  }

  /**
   * The 13-bit value widened to a 16-bit two's-complement pattern: above
   * 0xFFF, bits 13-15 are set (Extend13Bitwise: `v |= 0xE000`).
   */
  function Extend13(v: nat): (p: nat)
    requires v < 0x2000
    ensures p < 0x10000 && p % 0x2000 == v
    ensures v <= 0xFFF ==> p == v
    ensures Signed16(p) == SignExtend(v, 13)
  {
    assert Pow2(12) == 0x1000 && Pow2(13) == 0x2000;
    if v > 0xFFF then v + 0xE000 else v
  }

  lemma Extend13Bitwise(v: nat)
    requires 0xFFF < v < 0x2000
    ensures Extend13(v) == Or(v, 0xE000)
  {
    assert Pow2(13) == 0x2000;
    OrDisjoint(7, 13, v);
  }

  /**
   * What every reader computes from a register: nothing for the sentinel,
   * otherwise the 16-bit pattern (`baseRead`, `digitalTemp`) in the given mode.
   */
  function Decode(r: Reg, extended: bool): (p: Option<nat>)
    ensures p.None? <==> IsSentinel(r)
    ensures p.Some? ==> p.value < 0x10000
    ensures p.Some? && extended ==> p.value % 0x2000 == Raw13(r) && Signed16(p.value) == SignExtend(Raw13(r), 13)
    ensures p.Some? && !extended ==> p.value % 0x1000 == Raw12(r) && Signed16(p.value) == SignExtend(Raw12(r), 12)
  {
    if IsSentinel(r) then None
    else if extended then Some(Extend13(Raw13(r)))
    else Some(Extend12(Raw12(r)))
  }

  /** The temperature register flags extended mode in bit 0 of its byte 1. */
  predicate TempExtended(r: Reg)
    ensures TempExtended(r) <==> r.b1 as int % 2 == 1
  {
    r.b1 & 0x01 != 0
  }

  /** Degrees Celsius of a pattern read as two's complement, as the format intends. */
  function Celsius(p: nat): (c: real)
    requires p < 0x10000
    ensures -2048.0 <= c < 2048.0
    ensures p < 0x8000 ==> c >= 0.0
    ensures p >= 0x8000 ==> c < 0.0
  {
    Signed16(p) as real * Resolution
  }

  /** Degrees Celsius as the readers compute it: the unsigned pattern times the resolution. */
  function CelsiusAsWritten(p: nat): (c: real)
    requires p < 0x10000
    ensures 0.0 <= c < 4096.0
  {
    p as real * Resolution
  }

  /** What a reader reports for a register: absent for the sentinel, otherwise degrees Celsius. */
  function Reading(r: Reg, extended: bool): (c: Option<real>)
    ensures c.None? <==> IsSentinel(r)
    ensures c.Some? && extended ==> -256.0 <= c.value < 256.0
    ensures c.Some? && !extended ==> -128.0 <= c.value < 128.0
  {
    assert Pow2(11) == 0x800 && Pow2(12) == 0x1000 && Pow2(13) == 0x2000;
    match Decode(r, extended)
    case None => None
    case Some(p) => Some(Celsius(p))
  }

  /** What a reader as written reports: the unsigned pattern times the resolution. */
  function ReadingAsWritten(r: Reg, extended: bool): (c: Option<real>)
    ensures c.None? <==> IsSentinel(r)
    ensures c.Some? ==> 0.0 <= c.value < 4096.0
  {
    match Decode(r, extended)
    case None => None
    case Some(p) => Some(CelsiusAsWritten(p))
  }

  /** `c * 9.0 / 5.0 + 32.0` */
  function ToFahrenheit(c: real): (f: real)
    ensures ToCelsius(f) == c
  {
    c * 9.0 / 5.0 + 32.0
  }

  /** `(f - 32) * 5 / 9` */
  function ToCelsius(f: real): (c: real)
    ensures c * 9.0 / 5.0 + 32.0 == f
  {
    (f - 32.0) * 5.0 / 9.0
  }

  // ---------------------------------------------------------------------
  // Encoding thresholds
  // ---------------------------------------------------------------------

  /** The threshold setters' range check: values above 150 become 150, values below -55 become -55. */
  function Clamp(t: real): (c: real)
    ensures -55.0 <= c <= 150.0
    ensures -55.0 <= t <= 150.0 ==> c == t
    ensures t > 150.0 ==> c == 150.0
    ensures t < -55.0 ==> c == -55.0
  {
    var t := if t > 150.0 then 150.0 else t;
    if t < -55.0 then -55.0 else t
  }

  /** Python's `int()` on a float: truncation toward zero. */
  function Trunc(x: real): (n: int)
    ensures x >= 0.0 ==> 0 <= n && n as real <= x < n as real + 1.0
    ensures x < 0.0 ==> n <= 0 && n as real - 1.0 < x <= n as real
  {
    if x >= 0.0 then x.Floor else -((-x).Floor)
  }

  /** The two list elements the threshold setters hand to the bus, as Python ints. */
  datatype Wire = Wire(b0: int, b1: int)

  /**
   * The setters' alignment of a count: `raw >> 5`, `(raw & 0x1F) << 3` in
   * extended mode and `raw >> 4`, `(raw & 0xF) << 4` in normal mode. Byte 0 is
   * never masked to 8 bits, so it is negative exactly when the count is.
   */
  function Align(raw: int, extended: bool): (w: Wire)
    ensures extended ==> w.b0 * 32 + w.b1 / 8 == raw && w.b1 % 8 == 0 && 0 <= w.b1 <= 0xF8
    ensures !extended ==> w.b0 * 16 + w.b1 / 16 == raw && w.b1 % 16 == 0 && 0 <= w.b1 <= 0xF0
    ensures w.b0 < 0 <==> raw < 0
  {
    if extended then Wire(Shr(raw, 5), Shl(LowBits(raw, 5), 3))
    else Wire(Shr(raw, 4), Shl(LowBits(raw, 4), 4))
  }

  /** The register a bus write of two list elements leaves behind. */
  function ToReg(w: Wire): (r: Reg)
    ensures r.b0 as int == w.b0 % 256 && r.b1 as int == w.b1 % 256
  {
    Reg(WireByte(w.b0), WireByte(w.b1))
  }

  /** `int(clamp(t) / 0.0625)` as written: the same range in both modes. */
  function RawCount(t: real): (n: int)
    ensures -880 <= n <= 2400
  {
    Trunc(Clamp(t) / Resolution)
  }

  /** A threshold setter's register image as written. */
  function EncodeThresholdAsWritten(t: real, extended: bool): (r: Reg)
    ensures !IsSentinel(r)
    ensures r.b1 as int % (if extended then 8 else 16) == 0
  {
    ToReg(Align(RawCount(t), extended))
  }

  /** The range check with the normal-mode ceiling the 12-bit format can hold. */
  function ClampFitted(t: real, extended: bool): (c: real)
    ensures -55.0 <= c <= (if extended then 150.0 else MaxNormal)
    ensures -55.0 <= t <= (if extended then 150.0 else MaxNormal) ==> c == t
    ensures !extended && t > MaxNormal ==> c == MaxNormal
  {
    var c := Clamp(t);
    if !extended && c > MaxNormal then MaxNormal else c
  }

  /**
   * The count the corrected setters store: it fits the mode's signed range and
   * is the clamped input truncated toward zero to a whole number of counts.
   */
  function RawCountFitted(t: real, extended: bool): (n: int)
    ensures -880 <= n
    ensures extended ==> n <= 2400
    ensures !extended ==> n <= 0x7FF
    ensures var c, b := ClampFitted(t, extended), n as real * Resolution;
      (c >= 0.0 ==> 0.0 <= b <= c < b + Resolution) &&
      (c < 0.0 ==> b - Resolution < c <= b <= 0.0)
  {
    Trunc(ClampFitted(t, extended) / Resolution)
  }

  /** A threshold setter's register image, with the normal-mode ceiling applied. */
  function EncodeThreshold(t: real, extended: bool): (r: Reg)
    ensures !IsSentinel(r)
    ensures r.b1 as int % (if extended then 8 else 16) == 0
  {
    ToReg(Align(RawCountFitted(t, extended), extended))
  }

  // ---------------------------------------------------------------------
  // Properties
  // ---------------------------------------------------------------------

  /** A byte 0 in the signed 8-bit range reaches the register as its two's-complement byte. */
  lemma WireByteSigned(q: int)
    requires -128 <= q < 128
    ensures WireByte(q) as int == if q >= 0 then q else q + 256
  {
    if q < 0 {
      assert q % 256 == q + 256;
    } else {
      assert q % 256 == q;
    }
  }

  /** Normal mode: the 12 bits read back from an aligned count are the count modulo 2^12. */
  lemma {:induction false} Raw12OfAligned(raw: int)
    requires -0x800 <= raw < 0x800
    ensures ToReg(Align(raw, false)).b1 as int <= 0xF0
    ensures Raw12(ToReg(Align(raw, false))) == if raw >= 0 then raw else raw + 0x1000
  {
    var w := Align(raw, false);
    assert Pow2(4) == 16;
    assert w.b0 == raw / 16 && w.b1 == (raw % 16) * 16;
    assert w.b1 / 16 == raw % 16;
    var r := ToReg(w);
    assert r.b1 as int == w.b1;
    WireByteSigned(w.b0);
    assert Raw12(r) == 16 * (r.b0 as int) + raw % 16;
  }

  /** Extended mode: the 13 bits read back from an aligned count are the count modulo 2^13. */
  lemma {:induction false} Raw13OfAligned(raw: int)
    requires -0x1000 <= raw < 0x1000
    ensures ToReg(Align(raw, true)).b1 as int <= 0xF8
    ensures Raw13(ToReg(Align(raw, true))) == if raw >= 0 then raw else raw + 0x2000
  {
    var w := Align(raw, true);
    assert Pow2(5) == 32 && Pow2(3) == 8;
    assert w.b0 == raw / 32 && w.b1 == (raw % 32) * 8;
    assert w.b1 / 8 == raw % 32;
    var r := ToReg(w);
    assert r.b1 as int == w.b1;
    WireByteSigned(w.b0);
    assert Raw13(r) == 32 * (r.b0 as int) + raw % 32;
  }

  /** In normal mode, a count in the signed 12-bit range comes back from its register image. */
  lemma {:induction false} AlignRoundTrip12(raw: int)
    requires -0x800 <= raw < 0x800
    ensures Decode(ToReg(Align(raw, false)), false).Some?
    ensures Signed16(Decode(ToReg(Align(raw, false)), false).value) == raw
    ensures raw >= 0 ==> Decode(ToReg(Align(raw, false)), false).value == raw
  {
    var r := ToReg(Align(raw, false));
    Raw12OfAligned(raw);
    assert !IsSentinel(r);
    assert Pow2(11) == 0x800 && Pow2(12) == 0x1000;
    assert SignExtend(Raw12(r), 12) == raw;
  }

  /** In extended mode, a count in the signed 13-bit range comes back from its register image. */
  lemma {:induction false} AlignRoundTrip13(raw: int)
    requires -0x1000 <= raw < 0x1000
    ensures Decode(ToReg(Align(raw, true)), true).Some?
    ensures Signed16(Decode(ToReg(Align(raw, true)), true).value) == raw
    ensures raw >= 0 ==> Decode(ToReg(Align(raw, true)), true).value == raw
  {
    var r := ToReg(Align(raw, true));
    Raw13OfAligned(raw);
    assert !IsSentinel(r);
    assert Pow2(12) == 0x1000 && Pow2(13) == 0x2000;
    assert SignExtend(Raw13(r), 13) == raw;
  }

  /** The alignment of a count is its quotient and shifted remainder by the low-bit width. */
  lemma AlignParts(raw: int, extended: bool)
    ensures extended ==> Align(raw, true) == Wire(raw / 32, (raw % 32) * 8)
    ensures !extended ==> Align(raw, false) == Wire(raw / 16, (raw % 16) * 16)
  {
    assert Pow2(3) == 8 && Pow2(4) == 16 && Pow2(5) == 32;
  }

  /** The bus write of a signed byte 0 and an in-range byte 1 gives back the register they came from. */
  lemma ToRegOfSigned(r: Reg, b0: int, b1: int)
    requires -128 <= b0 < 128
    requires r.b0 as int == if b0 >= 0 then b0 else b0 + 256
    requires r.b1 as int == b1
    ensures ToReg(Wire(b0, b1)) == r
  {
    WireByteSigned(b0);
    ByteInjective(WireByte(b0), r.b0);
    ByteInjective(WireByte(b1), r.b1);
  }

  /**
   * The count held by bytes `x0` and `x1` (unused bits of `x1` zero) aligns
   * back to byte 0 as a signed byte and to byte 1 unchanged.
   */
  lemma AlignOfCount(x0: int, x1: int, extended: bool)
    requires 0 <= x0 < 256 && 0 <= x1 < 256 && x1 % (if extended then 8 else 16) == 0
    ensures var b0 := if x0 >= 128 then x0 - 256 else x0;
      extended ==> Align(SignExtend(x0 * 32 + x1 / 8, 13), true) == Wire(b0, x1)
    ensures var b0 := if x0 >= 128 then x0 - 256 else x0;
      !extended ==> Align(SignExtend(x0 * 16 + x1 / 16, 12), false) == Wire(b0, x1)
  {
    assert Pow2(11) == 0x800 && Pow2(12) == 0x1000 && Pow2(13) == 0x2000;
    var b0 := if x0 >= 128 then x0 - 256 else x0;
    var m, d := if extended then 32 else 16, if extended then 8 else 16;
    var k := x1 / d;
    assert x1 == k * d && 0 <= k < m;
    var s := SignExtend(x0 * m + k, if extended then 13 else 12);
    assert s == b0 * m + k;
    assert s / m == b0 && s % m == k;
    AlignParts(s, extended);
  }

  /** A register byte read as a signed byte. */
  function SignedByte(b: bv8): (q: int)
    ensures -128 <= q < 128
    ensures b as int == if q >= 0 then q else q + 256
  {
    if b as int >= 128 then b as int - 256 else b as int
  }

  /** In normal mode, the count a register holds aligns back to its own bytes. */
  lemma AlignedCount12(r: Reg)
    requires r.b1 as int % 16 == 0
    ensures Align(SignExtend(Raw12(r), 12), false) == Wire(SignedByte(r.b0), r.b1 as int)
  {
    AlignOfCount(r.b0 as int, r.b1 as int, false);
  }

  /** In extended mode, the count a register holds aligns back to its own bytes. */
  lemma AlignedCount13(r: Reg)
    requires r.b1 as int % 8 == 0
    ensures Align(SignExtend(Raw13(r), 13), true) == Wire(SignedByte(r.b0), r.b1 as int)
  {
    AlignOfCount(r.b0 as int, r.b1 as int, true);
  }

  /** In normal mode, a register whose unused bits are zero is the image of the count it holds. */
  lemma {:induction false} AlignOfRaw12(r: Reg)
    requires r.b1 as int % 16 == 0
    ensures ToReg(Align(SignExtend(Raw12(r), 12), false)) == r
  {
    AlignedCount12(r);
    ToRegOfSigned(r, SignedByte(r.b0), r.b1 as int);
  }

  /** In extended mode, a register whose unused bits are zero is the image of the count it holds. */
  lemma {:induction false} AlignOfRaw13(r: Reg)
    requires r.b1 as int % 8 == 0
    ensures ToReg(Align(SignExtend(Raw13(r), 13), true)) == r
  {
    AlignedCount13(r);
    ToRegOfSigned(r, SignedByte(r.b0), r.b1 as int);
  }

  /**
   * The other direction of the threshold round trip: a register whose unused
   * bits are zero and whose reading the setter accepts unchanged is exactly
   * what the setter writes for that reading.
   */
  lemma ReencodeThreshold(r: Reg, extended: bool)
    requires r.b1 as int % (if extended then 8 else 16) == 0
    requires -55.0 <= Reading(r, extended).value <= (if extended then 150.0 else MaxNormal)
    ensures EncodeThreshold(Reading(r, extended).value, extended) == r
  {
    var s := if extended then SignExtend(Raw13(r), 13) else SignExtend(Raw12(r), 12);
    var p := Decode(r, extended).value;
    assert Signed16(p) == s;
    var v := Reading(r, extended).value;
    assert v == s as real * Resolution;
    assert ClampFitted(v, extended) == v;
    assert (s as real * Resolution) / Resolution == s as real;
    assert RawCountFitted(v, extended) == s;
    if extended {
      AlignOfRaw13(r);
    } else {
      AlignOfRaw12(r);
    }
  }

  /** Every count in the mode's signed range reads back as that many counts of 0.0625 degrees. */
  lemma CountRoundTrip(n: int, extended: bool)
    requires if extended then -0x1000 <= n < 0x1000 else -0x800 <= n < 0x800
    ensures Reading(ToReg(Align(n, extended)), extended) == Some(n as real * Resolution)
  {
    var r := ToReg(Align(n, extended));
    if extended {
      AlignRoundTrip13(n);
    } else {
      AlignRoundTrip12(n);
    }
    var p := Decode(r, extended).value;
    assert Signed16(p) == n;
    assert Reading(r, extended) == Some(Celsius(p));
  }

  /**
   * Writing a threshold and reading it back in the same mode gives the
   * stored count, which is the clamped input truncated to the resolution.
   */
  lemma ThresholdRoundTrip(t: real, extended: bool)
    ensures Reading(EncodeThreshold(t, extended), extended) == Some(RawCountFitted(t, extended) as real * Resolution)
  {
    CountRoundTrip(RawCountFitted(t, extended), extended);
  }

  /** Inputs beyond the range encode exactly as the range's ends. */
  lemma ClampedEncoding(t: real, extended: bool)
    ensures t > 150.0 ==> EncodeThresholdAsWritten(t, extended) == EncodeThresholdAsWritten(150.0, extended)
    ensures t < -55.0 ==> EncodeThresholdAsWritten(t, extended) == EncodeThresholdAsWritten(-55.0, extended)
    ensures t > 150.0 ==> EncodeThreshold(t, extended) == EncodeThreshold(150.0, extended)
    ensures t < -55.0 ==> EncodeThreshold(t, extended) == EncodeThreshold(-55.0, extended)
  {
  }

  /**
   * The boundaries of the two formats under the two's-complement reading,
   * and what the readers as written make of the most negative value.
   */
  lemma FormatBoundaries()
    ensures Reading(Reg(0x7F, 0xF0), false) == Some(127.9375)
    ensures Reading(Reg(0x80, 0x00), false) == Some(-128.0)
    ensures Reading(Reg(0x7F, 0xF8), true) == Some(255.9375)
    ensures Reading(Reg(0x80, 0x00), true) == Some(-256.0)
    ensures ReadingAsWritten(Reg(0x80, 0x00), false) == Some(3968.0)
    ensures ReadingAsWritten(Reg(0x80, 0x00), true) == Some(3840.0)
  {
    assert Raw12(Reg(0x7F, 0xF0)) == 0x7FF;
    assert Raw12(Reg(0x80, 0x00)) == 0x800;
    assert Raw13(Reg(0x7F, 0xF8)) == 0xFFF;
    assert Raw13(Reg(0x80, 0x00)) == 0x1000;
  }

  // ---------------------------------------------------------------------
  // Discrepancies of the code as written
  // ---------------------------------------------------------------------

  /**
   * The readers multiply the unsigned pattern: every negative temperature
   * comes out 4096 degrees too high.
   */
  lemma NegativeReadingsAsWritten(p: nat)
    requires p < 0x10000
    ensures p < 0x8000 ==> CelsiusAsWritten(p) == Celsius(p)
    ensures p >= 0x8000 ==> CelsiusAsWritten(p) == Celsius(p) + 4096.0
  {
  }

  /** -0.0625 degrees in normal mode is read as 4095.9375. */
  lemma NegativeReadingExample()
    ensures Decode(Reg(0xFF, 0xF0), false) == Some(0xFFFF)
    ensures CelsiusAsWritten(0xFFFF) == 4095.9375
    ensures Celsius(0xFFFF) == -0.0625
  {
    assert Raw12(Reg(0xFF, 0xF0)) == 0xFFF;
  }

  /**
   * In normal mode the setters let 150 degrees through; its count, 2400,
   * needs 13 bits. The reader as written returns 3990 degrees for the
   * register, and the two's-complement reading is -106 degrees.
   */
  lemma NormalModeOverflowAsWritten()
    ensures RawCount(150.0) == 2400
    ensures EncodeThresholdAsWritten(150.0, false) == Reg(0x96, 0x00)
    ensures ReadingAsWritten(EncodeThresholdAsWritten(150.0, false), false) == Some(3990.0)
    ensures Reading(EncodeThresholdAsWritten(150.0, false), false) == Some(-106.0)
  {
    assert Clamp(150.0) == 150.0;
    assert 150.0 / Resolution == 2400.0;
    assert Trunc(2400.0) == 2400;
    assert Pow2(4) == 16;
    assert Align(2400, false) == Wire(150, 0);
    var r := Reg(0x96, 0x00);
    ByteInjective(WireByte(150), 0x96);
    ByteInjective(WireByte(0), 0x00);
    assert ToReg(Wire(150, 0)) == r;
    assert Raw12(r) == 0x960;
    assert Decode(r, false) == Some(0xF960);
    assert Signed16(0xF960) == -1696;
  }

  /**
   * The readers as written agree with the two's-complement reading on
   * non-negative temperatures and report negative ones 4096 degrees higher.
   */
  lemma ReadingsAgree(r: Reg, extended: bool)
    ensures ReadingAsWritten(r, extended).None? <==> Reading(r, extended).None?
    ensures Reading(r, extended).Some? ==>
      var c := Reading(r, extended).value;
      ReadingAsWritten(r, extended).value == if c < 0.0 then c + 4096.0 else c
  {
    if !IsSentinel(r) {
      NegativeReadingsAsWritten(Decode(r, extended).value);
    }
  }

  /**
   * The corrected encoder differs from the one as written exactly on the
   * normal-mode inputs whose checked value is 128 degrees or more, the ones
   * whose count needs a 13th bit.
   */
  lemma EncodersAgree(t: real, extended: bool)
    ensures EncodeThreshold(t, extended) == EncodeThresholdAsWritten(t, extended) <==> extended || Clamp(t) < 128.0
  {
    if extended || Clamp(t) < 128.0 {
      assert RawCountFitted(t, extended) == RawCount(t);
    } else {
      var n := RawCount(t);
      assert n >= 2048;
      assert RawCountFitted(t, false) == 2047;
      assert Pow2(4) == 16;
      var a := Align(n, false);
      assert a.b0 == n / 16 && 128 <= a.b0 < 256;
      assert EncodeThresholdAsWritten(t, false).b0 as int == a.b0;
      var b := Align(2047, false);
      assert b.b0 == 127;
      assert EncodeThreshold(t, false).b0 as int == 127;
    }
  }
}
