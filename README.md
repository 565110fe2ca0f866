# TMP102 register codec

A Dafny model of the register codec in the SparkFun Qwiic TMP102 Python
driver (`qwiic_tmp102.py`, class `QwiicTmp102Sensor`). The TMP102 is an I²C
temperature sensor with four 2-byte registers: temperature (0x00),
configuration (0x01), T_LOW (0x02) and T_HIGH (0x03). The driver

- decodes a temperature or threshold register into degrees Celsius, in
  normal (12-bit) or extended (13-bit) format. The pair `0xFF, 0xFF` means
  "no reading".
- encodes a threshold in degrees Celsius into a register: it clamps the
  value to [-55, 150], divides by 0.0625 and truncates, then splits the count
  4/4 or 5/3 over the two bytes.
- reads and updates the fields of the configuration register one at a time,
  each by a read-modify-write: conversion rate, extended mode, shutdown,
  alert polarity, alert flag, one-shot, fault queue and thermostat mode.

Modules:

- `Bits` (`bits.dfy`): Python's `<<`, `>>`, `& (2**k-1)` and `|` on
  unbounded ints, with `|` on disjoint bit ranges proved to be a sum. It also
  holds the byte a bus transfer carries, and the 16-bit two's-complement
  reading used as the reference.
- `Codec` (`codec.dfy`): the temperature format: decoding, threshold
  encoding, their round trip, and the two discrepancies of the code as
  written.
- `Config` (`config.dfy`): the configuration register as a record of fields.
  `Pack` and `Unpack` are a bijection, so every setter's contract reads
  "the fields after are the fields before with one field replaced".
- `Sensor` (`sensor.dfy`): class `Tmp102`, the device seen through its
  register file. Each method performs the driver's read-modify-write on it,
  with the two corrections listed under "## Findings":
  - the readers return the two's-complement reading;
  - the threshold setters cap normal mode at 127.9375 degrees.

  Each reader affected by a correction also states, in its contract, what
  the driver as written returns; each threshold setter states on which
  inputs the driver as written stores the same register. `ReadTempC` and `ReadTempF` also
  update the cached `tempC` and `tempF`.

## Model

| member | source | states |
|---|---|---|
| Bits.Shr | qwiic_tmp102.py:268 | `x >> k` rounds toward negative infinity: `r * 2^k <= x < (r + 1) * 2^k` |
| Bits.LowBits | qwiic_tmp102.py:269 | `x & (2^k - 1)` is below `2^k` and, with `x >> k`, rebuilds `x`, negative `x` included |
| Bits.OrDisjoint | qwiic_tmp102.py:128 | OR of a value shifted left by `k` with a value below `2^k` is their sum, in either order |
| Bits.WireByte | qwiic_tmp102.py:274 | the byte a list element becomes on the bus is the element modulo 256, and is the element itself when it is in 0..255 |
| Bits.Signed16 | qwiic_tmp102.py:135-136 | the two's-complement reading of a 16-bit pattern lies in [-0x8000, 0x8000) and agrees with the pattern modulo 2^16 |
| Codec.Raw12 | qwiic_tmp102.py:133 | the 12-bit value lies in 0..0xFFF; its high 8 bits are byte 0 and its low 4 bits are the top nibble of byte 1 |
| Codec.Raw12Bitwise | qwiic_tmp102.py:133 | `Raw12` equals `(b0 << 4) OR (b1 >> 4)` |
| Codec.Raw13 | qwiic_tmp102.py:128 | the 13-bit value lies in 0..0x1FFF; its high 8 bits are byte 0 and its low 5 bits are the top 5 bits of byte 1 |
| Codec.Raw13Bitwise | qwiic_tmp102.py:128 | `Raw13` equals `(b0 << 5) OR (b1 >> 3)` |
| Codec.Extend12 | qwiic_tmp102.py:137-138 | the widened pattern is below 0x10000, keeps the low 12 bits, leaves values up to 0x7FF unchanged, and reads as the 12-bit sign extension |
| Codec.Extend12Bitwise | qwiic_tmp102.py:138 | above 0x7FF, `Extend12` equals `v OR 0xF000` |
| Codec.Extend13 | qwiic_tmp102.py:129-130 | the widened pattern is below 0x10000, keeps the low 13 bits, leaves values up to 0xFFF unchanged, and reads as the 13-bit sign extension |
| Codec.Extend13Bitwise | qwiic_tmp102.py:130 | above 0xFFF, `Extend13` equals `v OR 0xE000` |
| Codec.IsSentinel | qwiic_tmp102.py:124 | the no-reading test holds for the register `0xFF, 0xFF` and for no other |
| Codec.TempExtended | qwiic_tmp102.py:127 | the temperature register flags extended mode exactly when byte 1 is odd (bit 0 set) |
| Codec.Decode | qwiic_tmp102.py:124-138 | absent exactly for the sentinel `0xFF, 0xFF` in both modes; otherwise a 16-bit pattern whose low 12 (13) bits are the raw value and whose signed reading is its sign extension |
| Codec.Celsius | qwiic_tmp102.py:135-140 | the two's-complement reading times 0.0625: in [-2048, 2048), negative exactly for patterns with bit 15 set |
| Codec.CelsiusAsWritten | qwiic_tmp102.py:140 | the unsigned pattern times 0.0625 is never negative |
| Codec.Reading | qwiic_tmp102.py:135-140 | the corrected reader: absent exactly for the sentinel; otherwise in [-128, 128) in normal mode and [-256, 256) in extended mode |
| Codec.ReadingAsWritten | qwiic_tmp102.py:140 | the reader as written (also lines 349 and 378): absent exactly for the sentinel; otherwise in [0, 4096) |
| Codec.ReadingsAgree | qwiic_tmp102.py:337-349 | for every register and mode, the reader as written and the corrected one are absent together, agree on non-negative readings and differ by +4096 on negative ones |
| Codec.NegativeReadingsAsWritten | qwiic_tmp102.py:140 | the as-written reading equals the two's-complement one below 0x8000 and is 4096 degrees higher from 0x8000 on |
| Codec.NegativeReadingExample | qwiic_tmp102.py:133-140 | `0xFF, 0xF0` in normal mode gives pattern 0xFFFF, read as 4095.9375 instead of -0.0625 |
| Codec.FormatBoundaries | qwiic_tmp102.py:128-140 | under the two's-complement reading, `0x7F, 0xF0` and `0x80, 0x00` read 127.9375 and -128 in normal mode, and `0x7F, 0xF8` and `0x80, 0x00` read 255.9375 and -256 in extended mode; the reader as written returns 3968 and 3840 for `0x80, 0x00` |
| Codec.ToFahrenheit | qwiic_tmp102.py:150 | `c * 9 / 5 + 32` is inverted by the setters' `(f - 32) * 5 / 9` |
| Codec.ToCelsius | qwiic_tmp102.py:311-319 | the Fahrenheit setters' `(f - 32) * 5 / 9` (lines 311 and 319) is undone by `c * 9 / 5 + 32`, so `ToFahrenheit` is its inverse |
| Codec.Clamp | qwiic_tmp102.py:251-254 | the result lies in [-55, 150]; inputs inside are kept, inputs above give 150, inputs below give -55 |
| Codec.Trunc | qwiic_tmp102.py:264-272 | `int()` on a float truncates toward zero: within 1 of the input, on the input's side of 0 |
| Codec.Align | qwiic_tmp102.py:266-272 | byte 0 and byte 1 rebuild the count (`b0 * 32 + b1 / 8`, or `b0 * 16 + b1 / 16`); byte 1's unused low bits are zero and it is at most 0xF8 (0xF0); byte 0 is negative exactly when the count is |
| Codec.ToReg | qwiic_tmp102.py:274 | each byte of the written register is its list element modulo 256 |
| Codec.RawCount | qwiic_tmp102.py:251-264 | the count the setters compute lies in -880..2400 |
| Codec.ClampFitted | qwiic_tmp102.py:251-254 | the range check with a normal-mode ceiling of 127.9375: the result lies in the mode's range, inputs inside it are kept, and normal-mode inputs above 127.9375 give 127.9375 |
| Codec.RawCountFitted | qwiic_tmp102.py:264-272 | the stored count fits the mode's signed range and, times 0.0625, is the checked input truncated toward zero to a whole count |
| Codec.EncodeThresholdAsWritten | qwiic_tmp102.py:251-274 | the threshold register the driver as written stores is never the no-reading sentinel, and byte 1's unused low bits (3 or 4) are zero |
| Codec.EncodeThreshold | qwiic_tmp102.py:251-274 | the corrected threshold register is never the no-reading sentinel, and byte 1's unused low bits (3 or 4) are zero |
| Codec.EncodersAgree | qwiic_tmp102.py:251-272 | the corrected and as-written encoders give the same register exactly when the mode is extended or the checked input is below 128 degrees |
| Codec.WireByteSigned | qwiic_tmp102.py:268 | an unmasked byte 0 in -128..127 reaches the register as its two's-complement byte |
| Codec.Raw12OfAligned | qwiic_tmp102.py:271-272 | for a count in the signed 12-bit range, byte 1 of the register image is at most 0xF0 and the 12 bits read back are the count modulo 2^12 |
| Codec.Raw13OfAligned | qwiic_tmp102.py:268-269 | for a count in the signed 13-bit range, byte 1 of the register image is at most 0xF8 and the 13 bits read back are the count modulo 2^13 |
| Codec.AlignRoundTrip12 | qwiic_tmp102.py:345-347 | the normal-mode reader decodes the image of a signed 12-bit count to a pattern whose signed reading is the count, and to the count itself when it is non-negative |
| Codec.AlignRoundTrip13 | qwiic_tmp102.py:341-343 | the extended-mode reader decodes the image of a signed 13-bit count to a pattern whose signed reading is the count, and to the count itself when it is non-negative |
| Codec.CountRoundTrip | qwiic_tmp102.py:261-272 | every count in the mode's signed range reads back as that many sixteenths of a degree |
| Codec.ThresholdRoundTrip | qwiic_tmp102.py:245-274 | encoding a threshold and reading it back in the same mode gives the checked input truncated to the resolution |
| Codec.AlignOfRaw12 | qwiic_tmp102.py:266-272 | the other direction in normal mode: a register whose low 4 bits of byte 1 are zero is exactly the bus image of the signed 12-bit count it holds |
| Codec.AlignOfRaw13 | qwiic_tmp102.py:266-272 | the other direction in extended mode: a register whose low 3 bits of byte 1 are zero is exactly the bus image of the signed 13-bit count it holds |
| Codec.ReencodeThreshold | qwiic_tmp102.py:245-274 | register to reading to register: a threshold register whose unused bits are zero and whose reading lies in the setter's range (-55 to 127.9375 in normal mode, -55 to 150 in extended mode) is exactly what the setter writes for that reading |
| Codec.ClampedEncoding | qwiic_tmp102.py:251-254 | inputs above 150 encode as 150 and inputs below -55 encode as -55, in both encoders |
| Codec.NormalModeOverflowAsWritten | qwiic_tmp102.py:271-272 | as written, 150 degrees in normal mode gives count 2400 and register `0x96, 0x00`; the reader as written returns 3990 for it, and the two's-complement reading is -106 |
| Config.Unpack | qwiic_tmp102.py:165-169 | splitting a configuration register into its fields gives fields that each fit their width (rate in bits 6-7 of byte 1, and so on) |
| Config.Pack | qwiic_tmp102.py:165-169 | packing well-formed fields gives a register that unpacks to exactly those fields |
| Config.ConfigExtended | qwiic_tmp102.py:261 | `(b1 & 0x10) >> 4` is set exactly when the extended-mode field is 1 |
| Config.ExtendedUpdate | qwiic_tmp102.py:182-183 | for 0 and 1, clearing bit 4 of byte 1 and OR-ing in `mode << 4` changes the extended-mode field and no other |
| Config.PolarityUpdate | qwiic_tmp102.py:212-213 | for 0 and 1, clearing bit 2 of byte 0 and OR-ing in `polarity << 2` changes the polarity field and no other |
| Config.AlertModeUpdate | qwiic_tmp102.py:430-431 | for 0 and 1, clearing bit 1 of byte 0 and OR-ing in `mode << 1` changes the thermostat-mode field and no other |
| Config.PolarityTwoLeaks | qwiic_tmp102.py:213 | with the unmasked argument 2, the polarity setter sets a fault-queue bit and clears the polarity |
| Sensor.Tmp102.constructor | qwiic_tmp102.py:96-98 | the cached Celsius and Fahrenheit readings start at 0 |
| Sensor.Tmp102.WriteBlock | qwiic_tmp102.py:171 | a block write replaces both bytes of one register and nothing else |
| Sensor.Tmp102.WriteByte | qwiic_tmp102.py:193 | a single-byte write replaces byte 0 of one register and keeps its byte 1 |
| Sensor.Tmp102.ReadTempC | qwiic_tmp102.py:116-141 | returns the corrected reading of the temperature register in the mode its own bit 0 flags, absent for the sentinel; the driver as written returns the same value, plus 4096 when negative; `tempC` takes a present reading and is untouched otherwise |
| Sensor.Tmp102.ReadTempF | qwiic_tmp102.py:143-151 | an absent reading raises `TypeError` and changes nothing; otherwise returns and caches the Fahrenheit value of the corrected reading, whose Celsius conversion is the cached `tempC` (corrected); the driver as written reads that Celsius value plus 4096 when it is negative |
| Sensor.Tmp102.SetConversionRate | qwiic_tmp102.py:153-171 | the rate field becomes `rate & 3`; every other field and every other register is unchanged |
| Sensor.Tmp102.SetExtendedMode | qwiic_tmp102.py:173-185 | byte 1 becomes `(b1 & 0xEF) OR (mode << 4)` and byte 0 is kept; for 0 and 1 only the extended-mode field changes |
| Sensor.Tmp102.Sleep | qwiic_tmp102.py:187-193 | the shutdown field becomes 1 and no other field changes; sleeping when already asleep changes no register |
| Sensor.Tmp102.Wakeup | qwiic_tmp102.py:195-201 | the shutdown field becomes 0 and no other field changes; waking when already awake changes no register |
| Sensor.Tmp102.SetAlertPolarity | qwiic_tmp102.py:203-215 | byte 0 becomes `(b0 & 0xFB) OR (polarity << 2)` and byte 1 is kept; for 0 and 1 only the polarity field changes |
| Sensor.Tmp102.Alert | qwiic_tmp102.py:217-225 | returns the alert field, 0 or 1, and writes nothing |
| Sensor.Tmp102.OneShot | qwiic_tmp102.py:227-242 | with 1, sets the one-shot field, keeps every other field and returns 0; otherwise returns the one-shot field and writes nothing |
| Sensor.Tmp102.SetFault | qwiic_tmp102.py:399-417 | the fault-queue field becomes `faultSetting & 3`; every other field and every other register is unchanged |
| Sensor.Tmp102.SetAlertMode | qwiic_tmp102.py:419-433 | byte 0 becomes `(b0 & 0xFD) OR (mode << 1)` and byte 1 is kept; for 0 and 1 only the thermostat-mode field changes |
| Sensor.Tmp102.SetThresholdC | qwiic_tmp102.py:245-274 | the threshold register becomes the corrected encoding of the input in the mode the configuration register selects, which is the driver's own encoding unless the mode is normal and the checked input is 128 degrees or more; no other register changes |
| Sensor.Tmp102.SetLowTempC | qwiic_tmp102.py:245-274 | T_LOW becomes the corrected encoding (the driver's own except for normal-mode inputs of 128 degrees or more), and the T_LOW reader then returns the checked input truncated to the resolution |
| Sensor.Tmp102.SetHighTempC | qwiic_tmp102.py:276-303 | T_HIGH becomes the corrected encoding (the driver's own except for normal-mode inputs of 128 degrees or more), and the T_HIGH reader then returns the checked input truncated to the resolution |
| Sensor.Tmp102.SetLowTempF | qwiic_tmp102.py:305-312 | T_LOW becomes the corrected encoding of the input converted to Celsius, the driver's own except for normal-mode inputs of 128 degrees Celsius or more |
| Sensor.Tmp102.SetHighTempF | qwiic_tmp102.py:315-320 | T_HIGH becomes the corrected encoding of the input converted to Celsius, the driver's own except for normal-mode inputs of 128 degrees Celsius or more |
| Sensor.Tmp102.ReadThresholdC | qwiic_tmp102.py:323-349 | absent exactly for the sentinel; otherwise the register's corrected reading in the mode the configuration register selects; the driver as written returns the same value, plus 4096 when negative |
| Sensor.Tmp102.ReadLowTempC | qwiic_tmp102.py:323-349 | T_LOW's corrected reading in the configured mode, absent exactly for the sentinel; the driver as written returns the same value, plus 4096 when negative |
| Sensor.Tmp102.ReadHighTempC | qwiic_tmp102.py:352-378 | T_HIGH's corrected reading in the configured mode, absent exactly for the sentinel; the driver as written returns the same value, plus 4096 when negative |
| Sensor.Tmp102.ReadLowTempF | qwiic_tmp102.py:381-387 | raises `TypeError` exactly for the sentinel; otherwise a Fahrenheit value whose Celsius conversion is T_LOW's corrected reading, which the driver as written reports 4096 higher when negative |
| Sensor.Tmp102.ReadHighTempF | qwiic_tmp102.py:389-396 | raises `TypeError` exactly for the sentinel; otherwise a Fahrenheit value whose Celsius conversion is T_HIGH's corrected reading, which the driver as written reports 4096 higher when negative |

## Left out

- I²C transport is not modelled. This covers `qwiic_i2c.getI2CDriver`, `isDeviceConnected`, `readBlock`/`writeBlock`/`writeByte`, `read_block_pointer_reg`, `is_connected`, the return value of `begin` and the constructor's driver and address setup. The model uses a register file of four 2-byte registers instead.
- The model assumes a bus write keeps the low 8 bits of each Python int it is handed (`WireByte`). The driver hands it a negative byte 0 for a negative threshold. What the real transport does with that value is outside this model.
- Floating point is not modelled. Temperatures are Dafny `real`s, so `* 0.0625`, `/ 0.0625` and the Fahrenheit formulas are exact and double rounding is not captured. `int()` is modelled as truncation toward zero.
- `get_address`, the list of available addresses and the diagnostic `print` carry no logic and are not modelled.
- Device-side behaviour is not modelled. This covers the sensor updating the temperature register and the alert flag, completing a one-shot conversion, and ignoring writes to read-only bits. A write lands in the register file exactly as the driver sends it.
- Arguments of the wrong Python type are not modelled, for example a string or a float passed to a bit setter.
- Sensor.Tmp102.SetExtendedMode: the argument is modelled as a byte: the low 8 bits of the Python int, which is all that can reach the 8-bit register. The higher bits of a larger argument are not represented.
- Sensor.Tmp102.SetAlertPolarity: same as `SetExtendedMode`, the argument is modelled by its low 8 bits.
- Sensor.Tmp102.SetAlertMode: same as `SetExtendedMode`, the argument is modelled by its low 8 bits.
- Sensor.Tmp102.ReadTempC: returns and caches the two's-complement reading, not the unsigned one of line 140 (first row of "## Findings"). Its contract states the value as written: the same, plus 4096 when negative (`Codec.ReadingsAgree`).
- Sensor.Tmp102.ReadTempF: converts and caches the two's-complement reading, not the unsigned one that line 150 converts (first row of "## Findings").
- Sensor.Tmp102.ReadThresholdC: returns the two's-complement reading, not the unsigned one of lines 349 and 378. Its contract states the value as written.
- Sensor.Tmp102.ReadLowTempC: returns the two's-complement reading, not the unsigned one of line 349. Its contract states the value as written.
- Sensor.Tmp102.ReadHighTempC: returns the two's-complement reading, not the unsigned one of line 378. Its contract states the value as written.
- Sensor.Tmp102.ReadLowTempF: converts the two's-complement T_LOW reading, not the unsigned one that line 387 converts. Its contract states the Celsius value as written.
- Sensor.Tmp102.ReadHighTempF: converts the two's-complement T_HIGH reading, not the unsigned one that line 396 converts. Its contract states the Celsius value as written.
- Sensor.Tmp102.SetThresholdC: applies the normal-mode ceiling of 127.9375 that lines 251-254 lack (second row of "## Findings"). For a normal-mode input of 128 degrees or more it stores `0x7F, 0xF0` where the driver stores the 13-bit count (`set_low_temp_c(140)`: `0x8C, 0x00`). Its contract states that every other input is stored exactly as the driver stores it (`Codec.EncodersAgree`).
- Sensor.Tmp102.SetLowTempC: the same ceiling as `SetThresholdC`, for T_LOW (lines 245-274).
- Sensor.Tmp102.SetHighTempC: the same ceiling as `SetThresholdC`, for T_HIGH (lines 276-303).
- Sensor.Tmp102.SetLowTempF: the same ceiling as `SetThresholdC`, applied to the input converted to Celsius (lines 305-312).
- Sensor.Tmp102.SetHighTempF: the same ceiling as `SetThresholdC`, applied to the input converted to Celsius (lines 315-320).

## Findings

| source | as written | input that shows it | evidently intended | confidence | as-written member | corrected member |
|---|---|---|---|---|---|---|
| qwiic_tmp102.py:140 | the sign-extended 16-bit pattern is multiplied by 0.0625 as an unsigned number; the same happens at lines 349 and 378 | temperature register `0xFF, 0xF0` in normal mode: pattern 0xFFFF reads 4095.9375 | the two's-complement reading that the comment at lines 135-136 describes: -0.0625 | high, not executed | Codec.NegativeReadingsAsWritten | Codec.Celsius |
| qwiic_tmp102.py:251-254 | the clamp lets up to 150 degrees through in normal mode, but the 12-bit format holds at most 0x7FF counts (127.9375) | `set_low_temp_c(150)` in normal mode: count 2400, register `0x96, 0x00`; the reader as written returns 3990 for it, and the two's-complement reading is -106 | a normal-mode threshold that reads back as the value written, which needs a ceiling of 127.9375 | medium, not executed | Codec.NormalModeOverflowAsWritten | Codec.ThresholdRoundTrip |
