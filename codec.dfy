/** Register decoders: raw MAX17050 register words to physical units, each
    truncation step done where the driver's integer arithmetic does it. */
module Codec {
  import opened Registers

  // ---------------------------------------------------------------- voltage

  /** VCELL, AVR_VCELL and VFOCV to mV: the 12-bit mantissa at 78.125 uV per
      step, plus the top nibble shifted right by 4, scaled the same way and
      shifted back left by 4 (u32 arithmetic; no intermediate exceeds 2^32). */
  function DecodeVoltage(w: Word): (mv: int)
    ensures 0 <= mv <= 5119
  {
    (w % 0x1000) * 78125 / 1000000 + ((w / 0x1000) * 0x100 * 78125 / 1000000) * 16
  }

  /** The top nibble contributes exactly 320 mV per step, and the mantissa
      part never reaches 320 mV. */
  lemma VoltageClosedForm(w: Word)
    ensures DecodeVoltage(w) == (w % 0x1000) * 78125 / 1000000 + 320 * (w / 0x1000)
    ensures (w % 0x1000) * 78125 / 1000000 <= 319
  {
  }

  /** A larger word never decodes to a lower voltage. */
  lemma VoltageMonotone(w1: Word, w2: Word)
    requires w1 <= w2
    ensures DecodeVoltage(w1) <= DecodeVoltage(w2)
  {
    VoltageClosedForm(w1);
    VoltageClosedForm(w2);
    if w1 / 0x1000 == w2 / 0x1000 {
      DivMonotone((w1 % 0x1000) * 78125, (w2 % 0x1000) * 78125, 1000000);
    }
  }

  // --------------------------------------------------------- state of charge

  /** SOCREP, SOCAV and VFSOC to 0.1 % units: the high byte is whole percent,
      the low byte 1/256 percent; the result is clamped to 1000. */
  function DecodeSoc(w: Word): (soc: int)
    ensures 0 <= soc <= 1000
  {
    Min((Hi(w) * 100 + Lo(w) * 100 / 256) / 10, 1000)
  }

  /** SOCREP to 0.01 % units, clamped to 10000. */
  function DecodeRawSoc(w: Word): (soc: int)
    ensures 0 <= soc <= 10000
  {
    Min(Hi(w) * 100 + Lo(w) * 100 / 256, 10000)
  }

  /** Both decoders equal the register's value (1/256 % per step) truncated
      once to their unit, although the driver truncates twice. */
  lemma SocIsTruncatedPercent(w: Word)
    ensures DecodeRawSoc(w) == Min(w * 100 / 256, 10000)
    ensures DecodeSoc(w) == Min(w * 10 / 256, 1000)
  {
    assert Hi(w) * 100 + Lo(w) * 100 / 256 == w * 100 / 256;
  }

  /** The 0.1 % reading is the 0.01 % reading truncated to tenths. */
  lemma SocIsRawSocTenths(w: Word)
    ensures DecodeSoc(w) == DecodeRawSoc(w) / 10
  {
  }

  /** An empty register reads 0 and a saturated one reads exactly 100 %. */
  lemma SocEndpoints()
    ensures DecodeSoc(0x0000) == 0 && DecodeSoc(0xFFFF) == 1000
    ensures DecodeRawSoc(0x0000) == 0 && DecodeRawSoc(0xFFFF) == 10000
  {
  }

  /** A larger word never decodes to a lower state of charge. */
  lemma SocMonotone(w1: Word, w2: Word)
    requires w1 <= w2
    ensures DecodeSoc(w1) <= DecodeSoc(w2)
    ensures DecodeRawSoc(w1) <= DecodeRawSoc(w2)
  {
    SocIsTruncatedPercent(w1);
    SocIsTruncatedPercent(w2);
    DivMonotone(w1 * 10, w2 * 10, 256);
    DivMonotone(w1 * 100, w2 * 100, 256);
  }

  // ----------------------------------------------------------------- current

  /** The unit `fg_read_current` and `fg_read_avg_current` report in. */
  datatype CurrentUnit = MilliAmp | MicroAmp

  /** The word read as a 16-bit two's-complement number. */
  function Signed16(w: Word): int
  {
    if w >= 0x8000 then w - 0x1_0000 else w
  }

  /** CURRENT and AVG_CURRENT: bit 15 is the sign, the magnitude is
      `(~w & 0xFFFF) + 1` for a negative word, and one step is 156.25 uA
      (1.5625 uV across a 10 mOhm sense resistor). */
  function DecodeCurrent(w: Word, unit: CurrentUnit): (r: int)
    ensures w < 0x8000 ==> r >= 0
    ensures w >= 0x8000 ==> r <= 0
  {
    var negative := w >= 0x8000;
    var magnitude := if negative then (0xFFFF - w) + 1 else w;
    var scaled := if unit == MicroAmp then magnitude * 15625 / 100 else magnitude * 15625 / 100000;
    if negative then -scaled else scaled
  }

  /** The decoded current is the signed register value scaled with C's
      truncating division, so it rounds toward zero on both sides. */
  lemma CurrentIsScaledSigned(w: Word)
    ensures DecodeCurrent(w, MilliAmp) == CDiv(Signed16(w) * 15625, 100000)
    ensures DecodeCurrent(w, MicroAmp) == CDiv(Signed16(w) * 15625, 100)
  {
  }

  /** A set sign bit never yields a positive current and a clear one never a
      negative current; small magnitudes truncate to 0 on either side. */
  lemma CurrentSign(w: Word, unit: CurrentUnit)
    ensures w >= 0x8000 ==> DecodeCurrent(w, unit) <= 0
    ensures w < 0x8000 ==> DecodeCurrent(w, unit) >= 0
    ensures DecodeCurrent(w, unit) < 0 ==> w >= 0x8000
    ensures DecodeCurrent(w, unit) > 0 ==> w < 0x8000
  {
  }

  /** The 16-bit register spans -5120 mA .. 5119 mA (the magnitude, at most
      32768, times 15625 stays below 2^32 in the u32 arithmetic). */
  lemma CurrentBounds(w: Word)
    ensures -5120 <= DecodeCurrent(w, MilliAmp) <= 5119
    ensures -5120000 <= DecodeCurrent(w, MicroAmp) <= 5119843
    ensures DecodeCurrent(0x8000, MilliAmp) == -5120
  {
  }

  /** A larger signed register value never decodes to a smaller current. */
  lemma CurrentMonotone(w1: Word, w2: Word, unit: CurrentUnit)
    requires Signed16(w1) <= Signed16(w2)
    ensures DecodeCurrent(w1, unit) <= DecodeCurrent(w2, unit)
  {
    CurrentIsScaledSigned(w1);
    CurrentIsScaledSigned(w2);
    if unit == MilliAmp {
      CDivMonotone(Signed16(w1) * 15625, Signed16(w2) * 15625, 100000);
    } else {
      CDivMonotone(Signed16(w1) * 15625, Signed16(w2) * 15625, 100);
    }
  }

  // ------------------------------------------------------------- temperature

  /** TEMPERATURE in milli-degrees C as the driver computes it: the high byte
      is whole degrees, the low byte 1/256 degree (taken as 3.9 milli-degrees).
      When the sign bit is set the magnitude of the high byte is multiplied by
      +1000 and the low-byte term is added back, so the sign is lost. */
  function TemperatureMilli(w: Word): (t: int)
    ensures t >= 0
    ensures Hi(w) >= 0x80 ==> t >= 1000
  {
    var hi: int, lo: int := Hi(w), Lo(w);
    if hi >= 0x80 then (0xFF - hi + 1) * 1000 - CDiv(-lo * 39, 10)
    else (hi % 0x80) * 1000 + lo * 39 / 10
  }

  /** `fg_read_temp`'s result in 0.1 degree C. */
  function DecodeTemperature(w: Word): (r: int)
    ensures r >= 0
  {
    CDiv(TemperatureMilli(w), 100)
  }

  /** Words with the sign bit clear decode to 0 .. 127.9 degrees, growing
      with the word. */
  lemma TemperaturePositiveRange(w1: Word, w2: Word)
    requires w1 <= w2 < 0x8000
    ensures 0 <= DecodeTemperature(w1) <= DecodeTemperature(w2) <= 1279
  {
    SignedMilliMonotone(w1, w2);
    SignedMilliRange(w1);
    SignedMilliRange(w2);
    var m1, m2 := TemperatureMilli(w1), TemperatureMilli(w2);
    assert 0 <= m1 <= m2 <= 127994;
    DivMonotone(m1, m2, 100);
    DivMonotone(m2, 127994, 100);
    assert CDiv(m1, 100) == m1 / 100 && CDiv(m2, 100) == m2 / 100;
  }

  /** As written, a set sign bit yields a temperature of at least +1.0 degree:
      0xFF00 (-1 degree in two's complement) reads as +1.0 degree and 0x8000
      (-128 degrees) as +128.0 degrees. */
  lemma TemperatureSignLost(w: Word)
    requires w >= 0x8000
    ensures DecodeTemperature(w) >= 10
    ensures DecodeTemperature(0xFF00) == 10 && DecodeTemperature(0x8000) == 1280
  {
  }

  /** The evidently intended decoding: the high byte as a signed number of
      whole degrees plus the low-byte fraction. */
  function SignedTemperatureMilli(w: Word): int
  {
    var hi := if Hi(w) >= 0x80 then Hi(w) - 0x100 else Hi(w);
    hi * 1000 + Lo(w) * 39 / 10
  }

  /** The evidently intended result in 0.1 degree C. */
  function DecodeTemperatureSigned(w: Word): int
  {
    CDiv(SignedTemperatureMilli(w), 100)
  }

  /** The intended decoding keeps the sign, follows the two's-complement
      order of the words, and agrees with the driver on non-negative words. */
  lemma SignedTemperatureCorrect(w1: Word, w2: Word)
    requires Signed16(w1) <= Signed16(w2)
    ensures w1 >= 0x8000 ==> DecodeTemperatureSigned(w1) <= 0
    ensures w1 < 0x8000 ==> DecodeTemperatureSigned(w1) == DecodeTemperature(w1)
    ensures DecodeTemperatureSigned(w1) <= DecodeTemperatureSigned(w2)
    ensures -1280 <= DecodeTemperatureSigned(w1) <= 1279
  {
    SignedMilliMonotone(w1, w2);
    SignedMilliRange(w1);
    CDivMonotone(SignedTemperatureMilli(w1), SignedTemperatureMilli(w2), 100);
    CDivMonotone(-128000, SignedTemperatureMilli(w1), 100);
    CDivMonotone(SignedTemperatureMilli(w1), 127994, 100);
    if w1 >= 0x8000 {
      CDivMonotone(SignedTemperatureMilli(w1), 0, 100);
    }
  }

  lemma SignedMilliRange(w: Word)
    ensures -128000 <= SignedTemperatureMilli(w) <= 127994
    ensures w >= 0x8000 ==> SignedTemperatureMilli(w) <= 0
    ensures w < 0x8000 ==> SignedTemperatureMilli(w) == TemperatureMilli(w)
  {
  }

  lemma SignedMilliMonotone(w1: Word, w2: Word)
    requires Signed16(w1) <= Signed16(w2)
    ensures SignedTemperatureMilli(w1) <= SignedTemperatureMilli(w2)
  {
    if Hi(w1) == Hi(w2) {
      DivMonotone(Lo(w1) * 39, Lo(w2) * 39, 10);
    }
  }

  // ---------------------------------------------------------------- capacity

  /** FULLCAP, FULLCAP_NOM, REMCAP_AV and REMCAP_REP are reported raw:
      `(data[1] << 8) + data[0]`, which is the word itself. */
  function DecodeCapacity(w: Word): (cap: int)
    ensures cap == w
  {
    WordBytesRoundTrip(w, Hi(w), Lo(w));
    MakeWord(Hi(w), Lo(w))
  }
}
