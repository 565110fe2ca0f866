/**
 * A TMP102 sensor seen through its four registers. The bus is replaced by
 * the register file `regs`, indexed by pointer-register address: a block
 * read returns a register, a block write replaces both of its bytes and a
 * single-byte write replaces byte 0. Each operation is the driver's
 * read-modify-write on the bytes it fetched, with two corrections: the
 * readers return the two's-complement reading, and the threshold setters
 * cap normal mode at 127.9375 degrees. Every reader affected by a correction
 * also states what the driver as written returns, and every threshold setter
 * states on which inputs the driver as written stores the same register.
 */
module Sensor {
  import opened Bits
  import opened Codec
  import opened Config

  /** Pointer-register addresses. */
  const TemperatureRegister: nat := 0x00
  const ConfigRegister: nat := 0x01
  const TLowRegister: nat := 0x02
  const THighRegister: nat := 0x03
  const RegisterCount: nat := 4

  /** A Fahrenheit reader either returns a value or raises `TypeError` on an absent reading. */
  datatype Result<T> = Ok(value: T) | TypeError

  class Tmp102 {
    /** The device's registers, indexed by pointer-register address. */
    var regs: seq<Reg>
    /** The last temperature read, in degrees Celsius and Fahrenheit. */
    var tempC: real
    var tempF: real

    ghost predicate Valid()
      reads this
    {
      |regs| == RegisterCount
    }

    /** The cached readings start at zero. */
    constructor (registers: seq<Reg>)
      requires |registers| == RegisterCount
      ensures Valid() && regs == registers
      ensures tempC == 0.0 && tempF == 0.0
    {
      regs := registers;
      tempC := 0.0;
      tempF := 0.0;
    }

    /** The configuration register. */
    function ConfigReg(): Reg
      reads this
      requires Valid()
    {
      regs[ConfigRegister]
    }

    /** The temperature register as `read_temp_c` interprets it. */
    function TemperatureReading(): Option<real>
      reads this
      requires Valid()
    {
      Reading(regs[TemperatureRegister], TempExtended(regs[TemperatureRegister]))
    }

    /** A threshold register as the threshold readers interpret it: in the configured mode. */
    function ThresholdReading(reg: nat): Option<real>
      reads this
      requires Valid() && (reg == TLowRegister || reg == THighRegister)
    {
      Reading(regs[reg], ConfigExtended(ConfigReg()))
    }

    // -------------------------------------------------------------------
    // Register access
    // -------------------------------------------------------------------

    /** A block write: both bytes of the register are replaced. */
    method WriteBlock(reg: nat, data: Reg)
      requires Valid() && reg < RegisterCount
      modifies this`regs
      ensures Valid() && regs == old(regs)[reg := data]
    {
      regs := regs[reg := data];
    }

    /** A single-byte write: byte 0 of the register is replaced, byte 1 is kept. */
    method WriteByte(reg: nat, value: bv8)
      requires Valid() && reg < RegisterCount
      modifies this`regs
      ensures Valid() && regs == old(regs)[reg := old(regs)[reg].(b0 := value)]
    {
      regs := regs[reg := regs[reg].(b0 := value)];
    }

    // -------------------------------------------------------------------
    // Temperature
    // -------------------------------------------------------------------

    /**
     * Reads the temperature register: absent for the sentinel, otherwise
     * degrees Celsius in the mode the register itself flags, which is also
     * cached in `tempC`.
     */
    method ReadTempC() returns (t: Option<real>)
      requires Valid()
      modifies this`tempC
      ensures t == TemperatureReading()
      ensures var r := regs[TemperatureRegister];
        t.Some? ==> ReadingAsWritten(r, TempExtended(r)) == Some(if t.value < 0.0 then t.value + 4096.0 else t.value)
      ensures t.Some? ==> tempC == t.value
      ensures t.None? ==> tempC == old(tempC)
    {
      var data := regs[TemperatureRegister];
      if data.b0 == 0xFF && data.b1 == 0xFF {
        return None;
      }
      var baseRead: nat;
      if data.b1 & 0x01 != 0 {
        // (b0 << 5) | (b1 >> 3), by Raw13Bitwise
        baseRead := Raw13(data);
        if baseRead > 0xFFF {
          // baseRead | 0xE000, by Extend13Bitwise
          baseRead := baseRead + 0xE000;
        }
        assert Some(baseRead) == Decode(data, TempExtended(data)) by {
          assert TempExtended(data);
        }
      } else {
        // (b0 << 4) | (b1 >> 4), by Raw12Bitwise
        baseRead := Raw12(data);
        if baseRead > 0x7FF {
          // baseRead | 0xF000, by Extend12Bitwise
          baseRead := baseRead + 0xF000;
        }
        assert Some(baseRead) == Decode(data, TempExtended(data)) by {
          assert !TempExtended(data);
        }
      }
      tempC := Celsius(baseRead);
      t := Some(tempC);
      ReadingsAgree(data, TempExtended(data));
    }

    /**
     * `read_temp_c` converted to Fahrenheit and cached in `tempF`; an absent
     * reading makes the conversion raise `TypeError`.
     */
    method ReadTempF() returns (f: Result<real>)
      requires Valid()
      modifies this`tempC, this`tempF
      ensures var t := old(TemperatureReading());
        (t.None? ==> f == TypeError && tempF == old(tempF) && tempC == old(tempC)) &&
        (t.Some? ==> f == Ok(ToFahrenheit(t.value)) && tempF == f.value && tempC == t.value)
      ensures ToCelsius(tempF) == tempC || f == TypeError
      ensures var r := regs[TemperatureRegister];
        f.Ok? ==> var c := ToCelsius(f.value);
        ReadingAsWritten(r, TempExtended(r)) == Some(if c < 0.0 then c + 4096.0 else c)
    {
      var c := ReadTempC();
      if c.None? {
        return TypeError;
      }
      tempF := ToFahrenheit(c.value);
      f := Ok(tempF);
    }

    // -------------------------------------------------------------------
    // Configuration fields
    // -------------------------------------------------------------------

    /** Sets the conversion rate to `rate & 3`; nothing else changes. */
    method SetConversionRate(rate: int)
      requires Valid()
      modifies this`regs
      ensures Valid() && regs == old(regs)[ConfigRegister := ConfigReg()]
      ensures Unpack(ConfigReg()) == old(Unpack(ConfigReg())).(rate := WireByte(rate % 4))
    {
      var configByte := regs[ConfigRegister];
      var r := WireByte(rate % 4);
      configByte := configByte.(b1 := configByte.b1 & 0x3F);
      configByte := configByte.(b1 := configByte.b1 | (r << 6));
      WriteBlock(ConfigRegister, configByte);
    }

    /**
     * Sets extended mode. The argument is not masked: `mode << 4` is ORed in
     * whole, so only 0 and 1 touch bit 4 alone. `mode` stands for the low 8
     * bits of the argument, all of it that can reach the 8-bit register.
     */
    method SetExtendedMode(mode: bv8)
      requires Valid()
      modifies this`regs
      ensures Valid() && regs == old(regs)[ConfigRegister := ConfigReg()]
      ensures ConfigReg() == Reg(old(ConfigReg()).b0, (old(ConfigReg()).b1 & 0xEF) | (mode << 4))
      ensures mode <= 1 ==> Unpack(ConfigReg()) == old(Unpack(ConfigReg())).(extended := mode)
    {
      var configByte := regs[ConfigRegister];
      ghost var before := configByte;
      configByte := configByte.(b1 := configByte.b1 & 0xEF);
      configByte := configByte.(b1 := configByte.b1 | (mode << 4));
      WriteBlock(ConfigRegister, configByte);
      if mode <= 1 {
        ExtendedUpdate(before, mode);
      }
    }

    /** Enters shutdown; byte 1 is not written. Sleeping again changes nothing. */
    method Sleep()
      requires Valid()
      modifies this`regs
      ensures Valid() && regs == old(regs)[ConfigRegister := ConfigReg()]
      ensures Unpack(ConfigReg()) == old(Unpack(ConfigReg())).(shutdown := 1)
      ensures old(Unpack(ConfigReg())).shutdown == 1 ==> regs == old(regs)
    {
      var sleepValue := regs[ConfigRegister].b0;
      sleepValue := sleepValue | 0x01;
      WriteByte(ConfigRegister, sleepValue);
      UnpackInjective(ConfigReg(), old(ConfigReg()));
    }

    /** Leaves shutdown; byte 1 is not written. Waking again changes nothing. */
    method Wakeup()
      requires Valid()
      modifies this`regs
      ensures Valid() && regs == old(regs)[ConfigRegister := ConfigReg()]
      ensures Unpack(ConfigReg()) == old(Unpack(ConfigReg())).(shutdown := 0)
      ensures old(Unpack(ConfigReg())).shutdown == 0 ==> regs == old(regs)
    {
      var wakeValue := regs[ConfigRegister].b0;
      wakeValue := wakeValue & 0xFE;
      WriteByte(ConfigRegister, wakeValue);
      UnpackInjective(ConfigReg(), old(ConfigReg()));
    }

    /**
     * Sets the alert polarity. The argument is not masked: `polarity << 2` is
     * ORed in whole, so only 0 and 1 touch bit 2 alone. `polarity` stands for
     * the low 8 bits of the argument.
     */
    method SetAlertPolarity(polarity: bv8)
      requires Valid()
      modifies this`regs
      ensures Valid() && regs == old(regs)[ConfigRegister := ConfigReg()]
      ensures ConfigReg() == Reg((old(ConfigReg()).b0 & 0xFB) | (polarity << 2), old(ConfigReg()).b1)
      ensures polarity <= 1 ==> Unpack(ConfigReg()) == old(Unpack(ConfigReg())).(polarity := polarity)
    {
      ghost var before := regs[ConfigRegister];
      var configByte := regs[ConfigRegister].b0;
      configByte := configByte & 0xFB;
      configByte := configByte | (polarity << 2);
      WriteByte(ConfigRegister, configByte);
      if polarity <= 1 {
        PolarityUpdate(before, polarity);
      }
    }

    /** The alert flag, bit 5 of byte 1; nothing is written. */
    method Alert() returns (alert: int)
      requires Valid()
      ensures alert == Unpack(ConfigReg()).alert as int
      ensures alert == 0 || alert == 1
    {
      var b := regs[ConfigRegister].b1;
      b := b & 0x20;
      alert := (b >> 5) as int;
    }

    /**
     * With 1, starts a one-shot conversion by setting bit 7 of byte 0 and
     * returns 0. With anything else, returns bit 7 of byte 0 and writes nothing.
     */
    method OneShot(setOneShot: int) returns (state: int)
      requires Valid()
      modifies this`regs
      ensures Valid() && regs == old(regs)[ConfigRegister := ConfigReg()]
      ensures setOneShot == 1 ==> state == 0 && Unpack(ConfigReg()) == old(Unpack(ConfigReg())).(oneShot := 1)
      ensures setOneShot != 1 ==> state == old(Unpack(ConfigReg())).oneShot as int && regs == old(regs)
    {
      var registerByte := regs[ConfigRegister].b0;
      if setOneShot == 1 {
        registerByte := registerByte | (1 << 7);
        WriteByte(ConfigRegister, registerByte);
        return 0;
      } else {
        registerByte := registerByte & (1 << 7);
        return (registerByte >> 7) as int;
      }
    }

    /** Sets the fault queue to `faultSetting & 3`; byte 1 is not written. */
    method SetFault(faultSetting: int)
      requires Valid()
      modifies this`regs
      ensures Valid() && regs == old(regs)[ConfigRegister := ConfigReg()]
      ensures Unpack(ConfigReg()) == old(Unpack(ConfigReg())).(faultQueue := WireByte(faultSetting % 4))
    {
      var setting := WireByte(faultSetting % 4);
      var configByte := regs[ConfigRegister].b0;
      configByte := configByte & 0xE7;
      configByte := configByte | (setting << 3);
      WriteByte(ConfigRegister, configByte);
    }

    /**
     * Sets comparator (0) or thermostat (1) mode. The argument is not masked:
     * `mode << 1` is ORed in whole. `mode` stands for the low 8 bits of the
     * argument.
     */
    method SetAlertMode(mode: bv8)
      requires Valid()
      modifies this`regs
      ensures Valid() && regs == old(regs)[ConfigRegister := ConfigReg()]
      ensures ConfigReg() == Reg((old(ConfigReg()).b0 & 0xFD) | (mode << 1), old(ConfigReg()).b1)
      ensures mode <= 1 ==> Unpack(ConfigReg()) == old(Unpack(ConfigReg())).(thermostat := mode)
    {
      ghost var before := regs[ConfigRegister];
      var configByte := regs[ConfigRegister].b0;
      configByte := configByte & 0xFD;
      configByte := configByte | (mode << 1);
      WriteByte(ConfigRegister, configByte);
      if mode <= 1 {
        AlertModeUpdate(before, mode);
      }
    }

    // -------------------------------------------------------------------
    // Thresholds
    // -------------------------------------------------------------------

    /**
     * The threshold setters' shared steps: clamp, look up the mode in the
     * configuration register, convert to counts, align, write both bytes.
     */
    method SetThresholdC(reg: nat, temperature: real)
      requires Valid() && (reg == TLowRegister || reg == THighRegister)
      modifies this`regs
      ensures Valid() && regs == old(regs)[reg := EncodeThreshold(temperature, ConfigExtended(ConfigReg()))]
      ensures ConfigExtended(ConfigReg()) || Clamp(temperature) < 128.0 ==>
        regs[reg] == EncodeThresholdAsWritten(temperature, ConfigExtended(ConfigReg()))
    {
      var t := temperature;
      if t > 150.0 {
        t := 150.0;
      }
      if t < -55.0 {
        t := -55.0;
      }
      var registerByte := regs[ConfigRegister];
      var extendedMode := (registerByte.b1 & 0x10) >> 4;
      ghost var extended := ConfigExtended(registerByte);
      assert extended <==> extendedMode != 0;
      // The 12-bit format holds at most 0x7FF counts.
      if extendedMode == 0 && t > MaxNormal {
        t := MaxNormal;
      }
      assert t == ClampFitted(temperature, extended);
      var count := Trunc(t / Resolution);
      assert count == RawCountFitted(temperature, extended);
      var data: Wire;
      if extendedMode != 0 {
        data := Wire(Shr(count, 5), Shl(LowBits(count, 5), 3));
      } else {
        data := Wire(Shr(count, 4), Shl(LowBits(count, 4), 4));
      }
      assert ToReg(data) == EncodeThreshold(temperature, extended);
      WriteBlock(reg, ToReg(data));
      assert ConfigReg() == registerByte;
      EncodersAgree(temperature, extended);
    }

    /** Sets T_LOW from degrees Celsius; reading it back gives the stored count. */
    method SetLowTempC(temperature: real)
      requires Valid()
      modifies this`regs
      ensures Valid() && regs == old(regs)[TLowRegister := EncodeThreshold(temperature, ConfigExtended(ConfigReg()))]
      ensures ConfigExtended(ConfigReg()) || Clamp(temperature) < 128.0 ==>
        regs[TLowRegister] == EncodeThresholdAsWritten(temperature, ConfigExtended(ConfigReg()))
      ensures ThresholdReading(TLowRegister) == Some(RawCountFitted(temperature, ConfigExtended(ConfigReg())) as real * Resolution)
    {
      SetThresholdC(TLowRegister, temperature);
      ghost var extended := ConfigExtended(ConfigReg());
      ThresholdRoundTrip(temperature, extended);
      assert ThresholdReading(TLowRegister) == Reading(EncodeThreshold(temperature, extended), extended);
    }

    /** Sets T_HIGH from degrees Celsius; reading it back gives the stored count. */
    method SetHighTempC(temperature: real)
      requires Valid()
      modifies this`regs
      ensures Valid() && regs == old(regs)[THighRegister := EncodeThreshold(temperature, ConfigExtended(ConfigReg()))]
      ensures ConfigExtended(ConfigReg()) || Clamp(temperature) < 128.0 ==>
        regs[THighRegister] == EncodeThresholdAsWritten(temperature, ConfigExtended(ConfigReg()))
      ensures ThresholdReading(THighRegister) == Some(RawCountFitted(temperature, ConfigExtended(ConfigReg())) as real * Resolution)
    {
      SetThresholdC(THighRegister, temperature);
      ghost var extended := ConfigExtended(ConfigReg());
      ThresholdRoundTrip(temperature, extended);
      assert ThresholdReading(THighRegister) == Reading(EncodeThreshold(temperature, extended), extended);
    }

    /** Sets T_LOW from degrees Fahrenheit. */
    method SetLowTempF(temperature: real)
      requires Valid()
      modifies this`regs
      ensures Valid() && regs == old(regs)[TLowRegister := EncodeThreshold(ToCelsius(temperature), ConfigExtended(ConfigReg()))]
      ensures ConfigExtended(ConfigReg()) || Clamp(ToCelsius(temperature)) < 128.0 ==>
        regs[TLowRegister] == EncodeThresholdAsWritten(ToCelsius(temperature), ConfigExtended(ConfigReg()))
    {
      SetLowTempC(ToCelsius(temperature));
    }

    /** Sets T_HIGH from degrees Fahrenheit. */
    method SetHighTempF(temperature: real)
      requires Valid()
      modifies this`regs
      ensures Valid() && regs == old(regs)[THighRegister := EncodeThreshold(ToCelsius(temperature), ConfigExtended(ConfigReg()))]
      ensures ConfigExtended(ConfigReg()) || Clamp(ToCelsius(temperature)) < 128.0 ==>
        regs[THighRegister] == EncodeThresholdAsWritten(ToCelsius(temperature), ConfigExtended(ConfigReg()))
    {
      SetHighTempC(ToCelsius(temperature));
    }

    /** The threshold readers' shared steps: mode from the configuration register, then decode. */
    method ReadThresholdC(reg: nat) returns (t: Option<real>)
      requires Valid() && (reg == TLowRegister || reg == THighRegister)
      ensures t.None? <==> IsSentinel(regs[reg])
      ensures t == ThresholdReading(reg)
      ensures t.Some? ==> ReadingAsWritten(regs[reg], ConfigExtended(ConfigReg())) == Some(if t.value < 0.0 then t.value + 4096.0 else t.value)
    {
      var configByte := regs[ConfigRegister];
      var extendedMode := (configByte.b1 & 0x10) >> 4;
      ghost var extended := ConfigExtended(configByte);
      assert extended <==> extendedMode != 0;
      var tempByte := regs[reg];
      assert ThresholdReading(reg) == Reading(tempByte, extended);
      if tempByte.b0 == 0xFF && tempByte.b1 == 0xFF {
        return None;
      }
      var digitalTemp: nat;
      if extendedMode != 0 {
        // (b0 << 5) | (b1 >> 3), by Raw13Bitwise
        digitalTemp := Raw13(tempByte);
        if digitalTemp > 0xFFF {
          // digitalTemp | 0xE000, by Extend13Bitwise
          digitalTemp := digitalTemp + 0xE000;
        }
      } else {
        // (b0 << 4) | (b1 >> 4), by Raw12Bitwise
        digitalTemp := Raw12(tempByte);
        if digitalTemp > 0x7FF {
          // digitalTemp | 0xF000, by Extend12Bitwise
          digitalTemp := digitalTemp + 0xF000;
        }
      }
      assert Decode(tempByte, extended) == Some(digitalTemp);
      t := Some(Celsius(digitalTemp));
      ReadingsAgree(tempByte, extended);
    }

    /** T_LOW in degrees Celsius, absent for the sentinel. */
    method ReadLowTempC() returns (t: Option<real>)
      requires Valid()
      ensures t.None? <==> IsSentinel(regs[TLowRegister])
      ensures t == ThresholdReading(TLowRegister)
      ensures t.Some? ==> ReadingAsWritten(regs[TLowRegister], ConfigExtended(ConfigReg())) == Some(if t.value < 0.0 then t.value + 4096.0 else t.value)
    {
      t := ReadThresholdC(TLowRegister);
    }

    /** T_HIGH in degrees Celsius, absent for the sentinel. */
    method ReadHighTempC() returns (t: Option<real>)
      requires Valid()
      ensures t.None? <==> IsSentinel(regs[THighRegister])
      ensures t == ThresholdReading(THighRegister)
      ensures t.Some? ==> ReadingAsWritten(regs[THighRegister], ConfigExtended(ConfigReg())) == Some(if t.value < 0.0 then t.value + 4096.0 else t.value)
    {
      t := ReadThresholdC(THighRegister);
    }

    /** T_LOW in degrees Fahrenheit; an absent reading raises `TypeError`. */
    method ReadLowTempF() returns (f: Result<real>)
      requires Valid()
      ensures f == TypeError <==> IsSentinel(regs[TLowRegister])
      ensures f.Ok? ==> ThresholdReading(TLowRegister) == Some(ToCelsius(f.value))
      ensures f.Ok? ==> var c := ToCelsius(f.value);
        ReadingAsWritten(regs[TLowRegister], ConfigExtended(ConfigReg())) == Some(if c < 0.0 then c + 4096.0 else c)
    {
      var c := ReadLowTempC();
      if c.None? {
        return TypeError;
      }
      f := Ok(ToFahrenheit(c.value));
    }

    /** T_HIGH in degrees Fahrenheit; an absent reading raises `TypeError`. */
    method ReadHighTempF() returns (f: Result<real>)
      requires Valid()
      ensures f == TypeError <==> IsSentinel(regs[THighRegister])
      ensures f.Ok? ==> ThresholdReading(THighRegister) == Some(ToCelsius(f.value))
      ensures f.Ok? ==> var c := ToCelsius(f.value);
        ReadingAsWritten(regs[THighRegister], ConfigExtended(ConfigReg())) == Some(if c < 0.0 then c + 4096.0 else c)
    {
      var c := ReadHighTempC();
      if c.None? {
        return TypeError;
      }
      f := Ok(ToFahrenheit(c.value));
    }
  }
}
