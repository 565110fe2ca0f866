/**
 * The TMP102 configuration register, field by field. Byte 0 holds shutdown
 * (bit 0), thermostat mode (bit 1), alert polarity (bit 2), the fault queue
 * (bits 3-4) and one-shot (bit 7); byte 1 holds extended mode (bit 4), the
 * alert flag (bit 5) and the conversion rate (bits 6-7). The bits no
 * operation names are kept as reserved fields so that the view is complete.
 */
module Config {
  import opened Codec

  datatype Fields = Fields(
    shutdown: bv8,    // byte 0, bit 0
    thermostat: bv8,  // byte 0, bit 1
    polarity: bv8,    // byte 0, bit 2
    faultQueue: bv8,  // byte 0, bits 3-4
    reserved0: bv8,   // byte 0, bits 5-6
    oneShot: bv8,     // byte 0, bit 7
    reserved1: bv8,   // byte 1, bits 0-3
    extended: bv8,    // byte 1, bit 4
    alert: bv8,       // byte 1, bit 5
    rate: bv8)        // byte 1, bits 6-7

  /** Every field fits its width. */
  predicate WellFormed(f: Fields)
  {
    f.shutdown <= 1 && f.thermostat <= 1 && f.polarity <= 1 && f.faultQueue <= 3 &&
    f.reserved0 <= 3 && f.oneShot <= 1 && f.reserved1 <= 15 && f.extended <= 1 &&
    f.alert <= 1 && f.rate <= 3
  }

  function Unpack(c: Reg): (f: Fields)
    ensures WellFormed(f)
  {
    Fields(
      c.b0 & 1, (c.b0 >> 1) & 1, (c.b0 >> 2) & 1, (c.b0 >> 3) & 3, (c.b0 >> 5) & 3, c.b0 >> 7,
      c.b1 & 15, (c.b1 >> 4) & 1, (c.b1 >> 5) & 1, c.b1 >> 6)
  }

  /** The register image of a set of fields; unpacking it gives them back. */
  function Pack(f: Fields): (c: Reg)
    requires WellFormed(f)
    ensures Unpack(c) == f
  {
    Reg(
      f.shutdown | (f.thermostat << 1) | (f.polarity << 2) | (f.faultQueue << 3) |
        (f.reserved0 << 5) | (f.oneShot << 7),
      f.reserved1 | (f.extended << 4) | (f.alert << 5) | (f.rate << 6))
  }

  /** The field view loses nothing: packing the fields of a register gives the register. */
  lemma PackUnpack(c: Reg)
    ensures Pack(Unpack(c)) == c
  {
  }

  /** Two registers with the same fields are the same register. */
  lemma UnpackInjective(c: Reg, d: Reg)
    ensures Unpack(c) == Unpack(d) ==> c == d
  {
    PackUnpack(c);
    PackUnpack(d);
  }

  /** The threshold readers' and writers' mode test, `(b1 & 0x10) >> 4`. */
  predicate ConfigExtended(c: Reg)
    ensures ConfigExtended(c) <==> Unpack(c).extended == 1
  {
    (c.b1 & 0x10) >> 4 != 0
  }

  // ---------------------------------------------------------------------
  // The setters' byte updates, field by field. A single-bit argument is
  // ORed in unmasked, so these hold for the arguments 0 and 1 only.
  // ---------------------------------------------------------------------

  /** Clearing bit 4 of byte 1 and OR-ing in `mode << 4` sets extended mode and nothing else. */
  lemma ExtendedUpdate(c: Reg, mode: bv8)
    requires mode <= 1
    ensures Unpack(Reg(c.b0, (c.b1 & 0xEF) | (mode << 4))) == Unpack(c).(extended := mode)
  {
  }

  /** Clearing bit 2 of byte 0 and OR-ing in `polarity << 2` sets the polarity and nothing else. */
  lemma PolarityUpdate(c: Reg, polarity: bv8)
    requires polarity <= 1
    ensures Unpack(Reg((c.b0 & 0xFB) | (polarity << 2), c.b1)) == Unpack(c).(polarity := polarity)
  {
  }

  /** Clearing bit 1 of byte 0 and OR-ing in `mode << 1` sets thermostat mode and nothing else. */
  lemma AlertModeUpdate(c: Reg, mode: bv8)
    requires mode <= 1
    ensures Unpack(Reg((c.b0 & 0xFD) | (mode << 1), c.b1)) == Unpack(c).(thermostat := mode)
  {
  }

  /** With an argument of 2, the polarity setter sets a fault-queue bit and clears the polarity. */
  lemma PolarityTwoLeaks(c: Reg)
    ensures Unpack(Reg((c.b0 & 0xFB) | (2 << 2), c.b1)).faultQueue & 1 == 1
    ensures Unpack(Reg((c.b0 & 0xFB) | (2 << 2), c.b1)).polarity == 0
  {
  }
}
