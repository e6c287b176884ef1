# MAX17050 fuel gauge driver, modelled in Dafny

This project models the logic of the Samsung MAX17050 fuel-gauge driver
(`drivers/battery/max17050_fuelgauge.c`). The driver talks to the gauge over
SMBus. Here the chip is an abstract file of 16-bit registers (`Registers.Bus`).
Any transaction on a register may fail; the faulty registers are fixed sets, and
a failure is reported as -1, as the driver reports it. Every read, write and
`msleep` is recorded in a trace, so that the order of the register traffic is
part of each routine's contract.

On top of that register file the model covers:

- the register decoders: voltage, the state-of-charge variants, signed current,
  temperature and capacity (`Codec`);
- the readers that fetch and decode one register, the status check, the alert
  set-up, the write-and-verify helper and the fixed application-register program
  (`Telemetry`);
- the five-case capacity clamp shared by the full-charge compensation and the VF
  full-capacity range check (`Capacity`);
- the temperature ADC table lookup, a binary search followed by interpolation
  (`TempTable`);
- the low-battery hit-count matrix, an in-place 2-D array (`LowBatt`);
- the driver object with its persistent fields and the routines that sequence
  register traffic: initialisation, quick-start reset, both capacity checks,
  remaining-capacity smoothing, low-battery compensation, the alert and
  full-charge handlers, the recovery handler and the value dispatch
  (`FuelGauge`).

C semantics are written out explicitly:

- `CDiv` is division truncating toward zero, because Dafny's `/` is Euclidean.
- `ToU16` is the `(u16)` cast, with -1 becoming 0xFFFF.
- Registers are `Word`s in `[0, 0x10000)` built from two `Byte`s.

The header constants that are not visible in the source are parameters:

- the low-battery table and its dimensions;
- `MAX_LOW_BATT_CHECK_CNT`;
- `STABLE_LOW_BATTERY_DIFF`, `STABLE_LOW_BATTERY_DIFF_LOWBATT` and
  `LOW_BATTERY_SOC_REDUCE_UNIT`.

The board callbacks `check_jig_status`, `check_cable_callback` and the
`thermal_source` setting are also parameters, and so is the charging status that
`psy_do_property` reports.

## Model

| member | source | states |
|---|---|---|
| Registers.WordBytesRoundTrip | drivers/battery/max17050_fuelgauge.c:59-68 | splitting a word into `data[1]`/`data[0]` and joining them again are inverse |
| Registers.ToU16 | drivers/battery/max17050_fuelgauge.c:102-107 | the `u16` store keeps in-range values and turns a failed read (-1) into 0xFFFF |
| Registers.ReadResult | drivers/battery/max17050_fuelgauge.c:48-60 | `fg_read_register` is -1 exactly when the read fails, and otherwise the register's word |
| Registers.PutIdempotent | drivers/battery/max17050_fuelgauge.c:62-77 | writing a word twice is writing it once, and a working write stores the word |
| Registers.Bus.Read | drivers/battery/max17050_fuelgauge.c:18-31 | a read returns the register or -1 on a faulty register, changes no register and is appended to the trace |
| Registers.Bus.Write | drivers/battery/max17050_fuelgauge.c:33-46 | a write stores the word unless the register is faulty, returns 0 or -1 accordingly and is appended to the trace |
| Registers.Bus.Delay | drivers/battery/max17050_fuelgauge.c:963 | an `msleep` changes nothing but is recorded in the trace |
| Codec.DecodeVoltage | drivers/battery/max17050_fuelgauge.c:254-262 | every decoded VCELL is in [0, 5119] mV |
| Codec.VoltageClosedForm | drivers/battery/max17050_fuelgauge.c:254-262 | the decode equals `(w & 0xFFF)*78125/1000000 + 320*(w >> 12)`, and the low part is at most 319 |
| Codec.VoltageMonotone | drivers/battery/max17050_fuelgauge.c:302-310 | the voltage decode (VCELL, VFOCV, AVR_VCELL) is monotone in the word |
| Codec.DecodeSoc | drivers/battery/max17050_fuelgauge.c:609-611 | the 0.1 % SoC decode lies in [0, 1000] |
| Codec.DecodeRawSoc | drivers/battery/max17050_fuelgauge.c:671-679 | the 0.01 % SoC decode lies in [0, 10000] |
| Codec.SocIsTruncatedPercent | drivers/battery/max17050_fuelgauge.c:644-645 | the byte-wise decodes equal `min(w*100/256, 10000)` and `min(w*10/256, 1000)` |
| Codec.SocIsRawSocTenths | drivers/battery/max17050_fuelgauge.c:625-627 | the 0.1 % value is the 0.01 % value divided by ten |
| Codec.SocEndpoints | drivers/battery/max17050_fuelgauge.c:644-645 | word 0x0000 gives 0 and 0xFFFF gives the clamp 1000 (10000 for the raw variant) |
| Codec.SocMonotone | drivers/battery/max17050_fuelgauge.c:671-679 | both SoC decodes are monotone in the word |
| Codec.DecodeCurrent | drivers/battery/max17050_fuelgauge.c:832-850 | a word with the sign bit clear never decodes to a negative current and one with it set never to a positive one; `CurrentIsScaledSigned`, `CurrentSign`, `CurrentBounds` and `CurrentMonotone` characterise it (the same decoding at drivers/battery/max17050_fuelgauge.c:888-906 serves AVG_CURRENT) |
| Codec.CurrentIsScaledSigned | drivers/battery/max17050_fuelgauge.c:832-850 | the current is the two's-complement value times 15625/100000 (mA) or 15625/100 (uA), truncated toward zero |
| Codec.CurrentSign | drivers/battery/max17050_fuelgauge.c:888-906 | the current is <= 0 when bit 15 is set and >= 0 otherwise, and a strict sign determines bit 15 |
| Codec.CurrentBounds | drivers/battery/max17050_fuelgauge.c:832-850 | the mA current lies in [-5120, 5119] (0x8000 gives -5120), the uA current in [-5120000, 5119843] |
| Codec.CurrentMonotone | drivers/battery/max17050_fuelgauge.c:888-906 | the current decode is monotone in the signed register value |
| Codec.TemperatureMilli | drivers/battery/max17050_fuelgauge.c:537-565 | the milli-degree value is never negative, and at least 1000 whenever the sign bit of the high byte is set (the sign is lost, see Findings) |
| Codec.DecodeTemperature | drivers/battery/max17050_fuelgauge.c:595 | the returned tenths of a degree are never negative; `TemperaturePositiveRange` and `TemperatureSignLost` characterise it |
| Codec.TemperaturePositiveRange | drivers/battery/max17050_fuelgauge.c:561-565 | for words without the sign bit the temperature is monotone and lies in [0, 1279] (0.1 degC) |
| Codec.TemperatureSignLost | drivers/battery/max17050_fuelgauge.c:538-560 | as written, every word with the sign bit decodes to a temperature of at least 1 degC; 0xFF00 (-1 degC) gives 10 and 0x8000 (-128 degC) gives 1280 |
| Codec.SignedTemperatureCorrect | drivers/battery/max17050_fuelgauge.c:538-595 | with the sign applied, negative words give non-positive temperatures, positive words are unchanged, and the decode is monotone in the signed value within [-1280, 1279] |
| Codec.SignedMilliRange | drivers/battery/max17050_fuelgauge.c:538-565 | the signed milli-degree value lies in [-128000, 127994] and agrees with the driver for positive words |
| Codec.SignedMilliMonotone | drivers/battery/max17050_fuelgauge.c:538-565 | the signed milli-degree value is monotone in the signed register value |
| Codec.DecodeCapacity | drivers/battery/max17050_fuelgauge.c:693 | `(data[1] << 8) + data[0]` is the register word itself |
| Capacity.CapDecision | drivers/battery/max17050_fuelgauge.c:1316-1376 | a clamp never targets the reading itself, so every clamp moves FULLCAP; `DecisionCharacterised` gives the full five-case characterisation |
| Capacity.DecisionCharacterised | drivers/battery/max17050_fuelgauge.c:1312-1376 | nothing is written exactly when the reading is inside the design band and within ±10 % of the previous value; outside the design band the target is inside it; inside it but outside the band of a non-negative previous value, the target is inside that band; every target moves the value toward the bound it crossed |
| Capacity.SettledReadingAccepted | drivers/battery/max17050_fuelgauge.c:1344-1376 | a reading equal to a non-negative previous value inside the design band is accepted |
| Capacity.TargetFitsRegister | drivers/battery/max17050_fuelgauge.c:1327-1370 | when the design capacity times 110 % fits 16 bits, every target fits, so the `(u16)` cast is exact |
| Capacity.DesignBandExamples | drivers/battery/max17050_fuelgauge.c:1316-1341 | a 4000 mAh design clamps 4600 to 4400 and 3400 to 3600; the VF check clamps 1900 to 2000 |
| Capacity.FailedRefreshPoisonsNextRun | drivers/battery/max17050_fuelgauge.c:1389-1391 | as written, a previous value of -1 from a failed refresh makes the next in-band reading clamp to -1, which is written as 0xFFFF |
| Capacity.RefreshedPrevious | drivers/battery/max17050_fuelgauge.c:1389-1391 | a refresh that keeps the old value on a failed read keeps a non-negative previous value non-negative |
| Capacity.RefreshAll | drivers/battery/max17050_fuelgauge.c:1389-1391 | over any run of corrected refreshes a non-negative previous value stays non-negative, is always the starting value or one of the reads, and is the last read whenever that read succeeded |
| Capacity.NonNegativePreviousTargets | drivers/battery/max17050_fuelgauge.c:1345-1370 | with a non-negative previous value every clamp target is non-negative |
| TempTable.FirstAtOrBelow | drivers/battery/max17050_fuelgauge.c:418-428 | the bracket index is the first entry at or below the ADC value in the descending table |
| TempTable.Interpolate | drivers/battery/max17050_fuelgauge.c:431-435 | at either bracketing entry the interpolation yields that entry's own temperature; `InterpolateBetween` bounds it strictly between them |
| TempTable.TableTemp | drivers/battery/max17050_fuelgauge.c:408-435 | the table temperature is the temperature of some entry or lies between the temperatures of two adjacent entries that bracket the reading; `LookupTemp`, `ExactMatch` and `InterpolationBracketed` characterise it |
| TempTable.LookupTemp | drivers/battery/max17050_fuelgauge.c:408-435 | the binary search and interpolation compute the table temperature: clamped outside the table, exact on a match, and interpolated otherwise |
| TempTable.AdjustTemp | drivers/battery/max17050_fuelgauge.c:372-445 | other properties and missing tables return the input unchanged; otherwise the result is the table temperature |
| TempTable.ExactMatch | drivers/battery/max17050_fuelgauge.c:424-426 | an ADC value equal to an entry's gives that entry's temperature |
| TempTable.InterpolationBracketed | drivers/battery/max17050_fuelgauge.c:430-435 | a value strictly inside the table and on no entry lies between two adjacent entries, and its temperature lies between theirs |
| TempTable.InterpolateBetween | drivers/battery/max17050_fuelgauge.c:431-435 | the truncated interpolation stays between the two bracketing temperatures |
| LowBatt.Cleared | drivers/battery/max17050_fuelgauge.c:1590-1591 | the memset matrix with the counter's shape; that every cell is zero and no limit is reached is proved in LowBatt.ClearedCells |
| LowBatt.AddCount | drivers/battery/max17050_fuelgauge.c:1541-1550 | the matrix keeps its shape and the chosen cell goes up by exactly one; `AddCountCells` adds that every other cell becomes zero |
| LowBatt.AddCountCells | drivers/battery/max17050_fuelgauge.c:1541-1550 | an add increments exactly the chosen cell, zeroes every other cell and leaves at most one non-zero cell |
| LowBatt.ClearedCells | drivers/battery/max17050_fuelgauge.c:1590-1591 | a reset leaves every cell zero, so no cell has reached the limit |
| LowBatt.Threshold | drivers/battery/max17050_fuelgauge.c:1617-1628 | the threshold is `offset` moved by the truncated `current * slope / 1000`: never below `offset` when that product is non-negative, never above it when non-positive, and off by at most the product over 1000 |
| LowBatt.InRange | drivers/battery/max17050_fuelgauge.c:1651-1654 | a range holds the current only when its lower bound is under its upper bound; `SweepSingleRange` and `SweepNoRange` use it |
| LowBatt.Step | drivers/battery/max17050_fuelgauge.c:1651-1662 | one range of the sweep keeps the matrix's shape; that a matching low reading counts a hit in cell `[i-1][0]` and any other matching reading clears every counter is proved, on any matrix, in LowBatt.CompensateInRange |
| LowBatt.Sweep | drivers/battery/max17050_fuelgauge.c:1650-1664 | the whole range loop keeps the matrix's shape; that it equals its one matching step, or changes nothing when no range matches, is proved in LowBatt.SweepSingleRange and LowBatt.SweepNoRange |
| LowBatt.Compensate | drivers/battery/max17050_fuelgauge.c:1641-1678 | the matrix update of `low_batt_compensation` keeps the matrix's shape; that it leaves the matrix alone above the compensation voltage, keeps at most one non-zero cell and never leaves a counter at the limit is proved in LowBatt.CompensateProperties; that in the matched range a reading with SoC of at least 1 % under the threshold raises cell `[r-1][0]` by one and zeroes the rest (or clears at the limit), and any other reading clears the matrix, is proved for any matrix in LowBatt.CompensateInRange |
| LowBatt.SweepKeepsSingleCell | drivers/battery/max17050_fuelgauge.c:1650-1664 | the range loop keeps the invariant of at most one non-zero cell |
| LowBatt.CompensateProperties | drivers/battery/max17050_fuelgauge.c:1641-1678 | above the compensation voltage nothing changes; otherwise at most one cell stays non-zero, none is left at the limit, and a sweep that reaches the limit ends all-zero |
| LowBatt.CompensateInRange | drivers/battery/max17050_fuelgauge.c:1651-1662 | under the compensation voltage with the current in range `r`, on any matrix: a reading that is not low clears every counter; a low one raises cell `[r-1][0]` by one and zeroes the others, or clears the matrix when that count reaches the limit |
| LowBatt.SweepSingleRange | drivers/battery/max17050_fuelgauge.c:1650-1664 | with ascending ranges only the matching range acts, so the loop amounts to its single step |
| LowBatt.SweepNoRange | drivers/battery/max17050_fuelgauge.c:1650-1664 | a current in no range leaves the matrix unchanged |
| LowBatt.Repeat | drivers/battery/max17050_fuelgauge.c:1631-1684 | repeated compensation calls keep the matrix's shape; that n low readings count n and the limit-th clears the matrix is proved in LowBatt.LowStreak |
| LowBatt.LowStreak | drivers/battery/max17050_fuelgauge.c:1655-1668 | from a cleared matrix, n low readings in one range count n in that range's first cell, and the MAX_LOW_BATT_CHECK_CNT-th reading clears the matrix |
| LowBatt.StreakStep | drivers/battery/max17050_fuelgauge.c:1655-1668 | one more low reading in the same range moves the count from n-1 to n, or clears the matrix at the limit |
| LowBatt.LowBattCounter.constructor | drivers/battery/max17050_fuelgauge.c:1590-1591 | the counter starts as the cleared matrix of the given shape |
| LowBatt.LowBattCounter.Add | drivers/battery/max17050_fuelgauge.c:1533-1551 | `add_low_batt_comp_cnt` updates the array in place to the add of `[range-1][level/2]` |
| LowBatt.LowBattCounter.Reset | drivers/battery/max17050_fuelgauge.c:1586-1592 | `reset_low_batt_comp_cnt` makes the array the cleared matrix |
| LowBatt.LowBattCounter.CheckCondition | drivers/battery/max17050_fuelgauge.c:1594-1615 | the result is 1 exactly when a cell reached the limit; the level is `2*j+1` for the first such column of the last such row (the `break` leaves only the inner loop), and it is unchanged otherwise |
| Telemetry.FailureDistinguishable | drivers/battery/max17050_fuelgauge.c:239-730 | a voltage, SoC, raw SoC, capacity or temperature reading is -1 exactly when one of its transactions failed |
| Telemetry.CurrentFailureAmbiguous | drivers/battery/max17050_fuelgauge.c:876-906 | a current of -1 mA cannot be told apart from a failed read: word 0xFFF9 decodes to -1 |
| Telemetry.ReadVoltage | drivers/battery/max17050_fuelgauge.c:239-337 | `fg_read_vcell`/`fg_read_vfocv`/`fg_read_avg_vcell` return the decoded register or -1, after one read |
| Telemetry.ReadSoc | drivers/battery/max17050_fuelgauge.c:599-657 | `fg_read_soc`/`fg_read_avsoc`/`fg_read_vfsoc` return the decoded 0.1 % SoC or -1, after one read |
| Telemetry.ReadRawSoc | drivers/battery/max17050_fuelgauge.c:660-680 | `fg_read_rawsoc` returns SOCREP in 0.01 % or -1 |
| Telemetry.ReadCapacity | drivers/battery/max17050_fuelgauge.c:683-729 | the capacity readers return the register word or -1 |
| Telemetry.ReadCurrent | drivers/battery/max17050_fuelgauge.c:812-874 | `fg_read_current` reads CURRENT, then AVG_CURRENT, and returns the decoded CURRENT, or -1 at the first failure |
| Telemetry.ReadAvgCurrent | drivers/battery/max17050_fuelgauge.c:876-909 | `fg_read_avg_current` returns the decoded AVG_CURRENT or -1 |
| Telemetry.ReadTemperature | drivers/battery/max17050_fuelgauge.c:447-596 | `fg_read_temp` clears STATUS, waits 250 ms, reads TEMPERATURE and returns its decode, or -1 if the clear or the read fails |
| Telemetry.AlertBit | drivers/battery/max17050_fuelgauge.c:1137-1138 | a set alert flag means STATUS is at least 0x400; `AlertBitIsHighByteBit2` shows it is bit 2 of the high byte |
| Telemetry.PorBit | drivers/battery/max17050_fuelgauge.c:1863 | a set POR flag means the low byte is at least 2; `FuelGauge.AwaitPowerOnReset` uses it |
| Telemetry.AlertBitIsHighByteBit2 | drivers/battery/max17050_fuelgauge.c:1137 | bit 2 of the high byte is word bit 10 |
| Telemetry.ClearHighByte | drivers/battery/max17050_fuelgauge.c:1141 | the word written back is the low byte alone |
| Telemetry.ClearHighByteClearsAlert | drivers/battery/max17050_fuelgauge.c:1141 | zeroing the high byte keeps the low byte and clears the alert bit |
| Telemetry.CheckStatusReg | drivers/battery/max17050_fuelgauge.c:1123-1152 | -1 on a failed read or write-back; otherwise 1 iff the alert bit was set, and STATUS is written back with the high byte zeroed, so on success the alert bit is clear afterwards |
| Telemetry.ClearLowBits01Bits | drivers/battery/max17050_fuelgauge.c:1234 | MISCCFG keeps its high byte and low-byte bits 2-7, and bits 0-1 are cleared |
| Telemetry.SetBit2Bits | drivers/battery/max17050_fuelgauge.c:1289 | CONFIG gains bit 2 and keeps every other bit |
| Telemetry.SAlrtWordBytes | drivers/battery/max17050_fuelgauge.c:1243-1244 | SALRT has high byte 0xFF and the SoC as its low byte |
| Telemetry.AlertRegistersProgrammed | drivers/battery/max17050_fuelgauge.c:1219-1298 | a successful alert set-up leaves MISCCFG bits 0-1 clear with the rest kept, SALRT = 0xFF00 with the SoC in the low byte, VALRT = 0xFF00, TALRT = 0x7F80, and CONFIG bit 2 set with the rest kept |
| Telemetry.SelectRepSoc | drivers/battery/max17050_fuelgauge.c:1228-1240 | MISCCFG read and written back with bits 0-1 clear; -1 on either failure |
| Telemetry.SetThresholds | drivers/battery/max17050_fuelgauge.c:1242-1279 | the three thresholds are written, with only-logged read-backs of VALRT and TALRT; -1 exactly when a threshold write fails, and then the registers and traffic stop at that write; no other register changes |
| Telemetry.EnableSocAlert | drivers/battery/max17050_fuelgauge.c:1283-1295 | CONFIG read and written back with bit 2 set; -1 on either failure |
| Telemetry.AlertInit | drivers/battery/max17050_fuelgauge.c:1219-1298 | 1 exactly when every checked transaction succeeds, otherwise -1; on every path the registers and the traffic are those of the transactions up to and including the first failure, with nothing after it; only the alert registers change |
| Telemetry.AlertInitRegsFrame | drivers/battery/max17050_fuelgauge.c:1219-1298 | whatever fails, the set-up changes no register outside MISCCFG, the three thresholds and CONFIG |
| Telemetry.AlertInitSuccess | drivers/battery/max17050_fuelgauge.c:1234-1289 | when every checked transaction succeeds the registers are the programmed ones and the traffic is the full sequence in the source's order |
| Telemetry.WriteAndVerify | drivers/battery/max17050_fuelgauge.c:99-117 | the word is written once, or twice when the read-back differs |
| Telemetry.FailedReadBackMatchesAllOnes | drivers/battery/max17050_fuelgauge.c:105-115 | a failed read-back compares equal exactly when the word written is 0xFFFF |
| Telemetry.ApplicationRegistersProgrammed | drivers/battery/max17050_fuelgauge.c:1872-1891 | with working writes DESIGNCAP = design, ATRATE = 0, FULLSOCTHR = 0x5F00, ICHGTERM = 0x03C0 and STATUS = 0 |
| Telemetry.ApplicationRegistersFrame | drivers/battery/max17050_fuelgauge.c:1872-1891 | the program changes no other register and no register whose write fails |
| Telemetry.ApplicationRegistersIdempotent | drivers/battery/max17050_fuelgauge.c:960-988 | running the program twice leaves the same registers as running it once |
| Telemetry.WriteApplicationRegisters | drivers/battery/max17050_fuelgauge.c:1872-1891 | the five writes in order, leaving the programmed register file |
| Telemetry.ResetCapacityByJig | drivers/battery/max17050_fuelgauge.c:1020-1029 | DESIGNCAP is written with the design capacity; the result is 0 or -1 |
| FuelGauge.BootedInLowBattery | drivers/battery/max17050_fuelgauge.c:1692-1697 | at or under 3300 mV with a non-negative current the battery is low, and above 3300 mV with a non-positive current it is not; `BootedInLowBatteryMonotone` and `FailedVoltageReadIsLow` complete it |
| FuelGauge.BootedInLowBatteryMonotone | drivers/battery/max17050_fuelgauge.c:1686-1698 | a lower voltage or a higher current keeps a low-battery verdict |
| FuelGauge.FailedVoltageReadIsLow | drivers/battery/max17050_fuelgauge.c:1688-1694 | a failed VCELL read (-1) always counts as booted in low battery |
| FuelGauge.IsBootedInLowBattery | drivers/battery/max17050_fuelgauge.c:1686-1698 | the verdict `vcell <= 3300 + current*17/100` (truncating) on the voltage and current readings, after their reads |
| FuelGauge.RecoveryStep | drivers/battery/max17050_fuelgauge.c:1709-1751 | under one reduce unit the alarm clears, and otherwise, for a positive reduce unit, the reported SoC strictly drops |
| FuelGauge.RecoveryClearsAlarm | drivers/battery/max17050_fuelgauge.c:1700-1754 | with a positive unit and a non-negative SoC, `soc/unit + 1` runs clear the alarm and leave `soc % unit` |
| FuelGauge.SocJump | drivers/battery/max17050_fuelgauge.c:1961-1970 | a drop beyond both limits is a jump and a drop within both is not; `SocJumpIsSmallerThreshold` reduces the rule to the smaller limit |
| FuelGauge.SocJumpIsSmallerThreshold | drivers/battery/max17050_fuelgauge.c:1964-1970 | the two-threshold jump rule is a jump beyond the smaller of the two thresholds |
| FuelGauge.Smooth | drivers/battery/max17050_fuelgauge.c:746-772 | a written correction lies strictly between the reading and `prev_rep1`, and without a write the reading is returned as is; `SmoothProperties` and `SmoothStaysInRange` give the tracked values |
| FuelGauge.SmoothProperties | drivers/battery/max17050_fuelgauge.c:746-772 | a correction sets the reading to 64 under `prev_rep1` and above the raw value; the tracked value never falls more than 64 per read nor below the reading; a reading that does not fall is tracked in both slots |
| FuelGauge.SmoothStaysInRange | drivers/battery/max17050_fuelgauge.c:746-772 | the smoothing state stays within 16 bits and the write-back cast is exact |
| FuelGauge.RemainPercentTruncatesToZero | drivers/battery/max17050_fuelgauge.c:779 | as written, the capacity term is 0 whenever REMCAP_REP < FULLCAP; 2000 of 4000 gives 0, not 50 |
| FuelGauge.RemainPercentCorrect | drivers/battery/max17050_fuelgauge.c:779 | the multiply-first percentage is monotone, lies in [0, 100] when rem <= full, and is never below the as-written term |
| FuelGauge.AsWrittenNotAbove | drivers/battery/max17050_fuelgauge.c:779 | the as-written term never exceeds the intended percentage |
| FuelGauge.RemainCapResult | drivers/battery/max17050_fuelgauge.c:779-793 | the result is the larger of the capacity term and SOCREP's high byte: never below that byte, never negative, and equal to one of the two; `RemainCapIsSocByte` and `RemainCapReading` characterise it |
| FuelGauge.RemainCapIsSocByte | drivers/battery/max17050_fuelgauge.c:779-793 | below full capacity the routine returns SOCREP's high byte |
| FuelGauge.RemainCapReading | drivers/battery/max17050_fuelgauge.c:731-794 | -1 exactly when one of its three reads fails, otherwise at least SOCREP's whole-percent byte |
| FuelGauge.RemainCapWritesOnlyRemCap | drivers/battery/max17050_fuelgauge.c:746-772 | only REMCAP_REP can change, and a correction lands between the raw reading and the larger of `prev_rep1` and the reading |
| FuelGauge.FailedReadUsesDesign | drivers/battery/max17050_fuelgauge.c:1312-1313 | a failed FULLCAP read decides on the design capacity, which is inside the design band |
| FuelGauge.PersistentReadFaultWritesAllOnes | drivers/battery/max17050_fuelgauge.c:1309-1391 | as written, with FULLCAP unreadable and the previous value refreshed from it, the next compensation clamps to -1, i.e. writes 0xFFFF |
| FuelGauge.VfRegsKeepsOthers | drivers/battery/max17050_fuelgauge.c:1426-1470 | the VF check writes no register other than DQACC and DPACC; in particular FULLCAP_NOM is never written |
| FuelGauge.VfRegsWritesBoth | drivers/battery/max17050_fuelgauge.c:1426-1470 | a corrective case writes DQACC = target/4 and DPACC = 0x3200 |
| FuelGauge.VfRangeCheck | drivers/battery/max17050_fuelgauge.c:1411-1485 | FULLCAP_NOM (or the design capacity) through the 50 % clamp; the corrective cases write DQACC and DPACC and wait 300 ms; the in-band case writes nothing; the previous value is always re-read |
| FuelGauge.AwaitPowerOnReset | drivers/battery/max17050_fuelgauge.c:1860-1865 | STATUS is read, and the 600 ms wait happens exactly when its POR bit is clear, a failed read keeping the buffer's old contents |
| FuelGauge.PowerOnProgram | drivers/battery/max17050_fuelgauge.c:1860-1891 | the POR wait and then the application-register program |
| FuelGauge.InitRegisters | drivers/battery/max17050_fuelgauge.c:1850-1918 | the register part of `sec_hal_fg_init`: the program, 250 ms, a STATUS read whose failure ends init with false, and otherwise CONFIG set by the thermal source |
| FuelGauge.JigInitRegisters | drivers/battery/max17050_fuelgauge.c:1830-1918 | with a jig DESIGNCAP is written first, then the register set-up |
| FuelGauge.InitProgramsRegisters | drivers/battery/max17050_fuelgauge.c:1872-1913 | after a successful init the application registers are programmed and CONFIG is 0x2100 or 0x0230 by the thermal source, and the jig's extra DESIGNCAP write makes no difference |
| FuelGauge.JigResetSubsumed | drivers/battery/max17050_fuelgauge.c:1020-1029 | the jig write of DESIGNCAP is subsumed by the application program |
| FuelGauge.SetBit10 | drivers/battery/max17050_fuelgauge.c:941 | the result has word bit 10 set and is the word itself or the word plus 0x400; `SetBit10Bits` adds that no other bit changes |
| FuelGauge.SetBit10Bits | drivers/battery/max17050_fuelgauge.c:941 | `data[1] |= 1 << 2` sets word bit 10 and keeps every other bit |
| FuelGauge.QuickStartProgram | drivers/battery/max17050_fuelgauge.c:958-1015 | the POR wait, the application program, CONFIG, 500 ms and CYCLES = 0x00A0, in order |
| FuelGauge.QuickStart | drivers/battery/max17050_fuelgauge.c:941-1017 | MISCCFG is written with the quick-start bit, and a failed write returns -1 before anything else |
| FuelGauge.MiscQuickStart | drivers/battery/max17050_fuelgauge.c:941-1017 | a failed MISCCFG read returns -1 with no further traffic, and otherwise the quick start follows |
| FuelGauge.JigResetSoc | drivers/battery/max17050_fuelgauge.c:939-1017 | CYCLES is written 0, whatever the result, before the MISCCFG read |
| FuelGauge.QuickStartProgramsRegisters | drivers/battery/max17050_fuelgauge.c:941-1015 | after a quick start with working writes MISCCFG has bit 10 set and the rest kept, CONFIG is by the thermal source, CYCLES is 0x00A0, DESIGNCAP is the design and STATUS is 0 |
| FuelGauge.ReadOnlyValue | drivers/battery/max17050_fuelgauge.c:1154-1217 | each read-only kind answers -1 on its register's failure (exactly then, except for the currents) and is bounded: SoC in [-1, 1000], voltage in [-1, 5119], current in [-5120, 5119], capacity in [-1, 0xFFFF] |
| FuelGauge.ReadOnlyDispatch | drivers/battery/max17050_fuelgauge.c:1158-1210 | the read-only kinds issue only their reads and return the kind's reading |
| FuelGauge.FuelAlertInit | drivers/battery/max17050_fuelgauge.c:1931-1937 | true exactly when the alert set-up succeeded, and then the alert registers are programmed |
| FuelGauge.FuelGauge.constructor | drivers/battery/max17050_fuelgauge.c:1794-1813 | the driver starts with zeroed fields, no work queued, and a fresh low-battery counter whose matrix is the cleared one |
| FuelGauge.FuelGauge.FullChargedCompensation | drivers/battery/max17050_fuelgauge.c:1300-1399 | FULLCAP (the design capacity on failure) through the 90 % clamp, written back only when clamped; `previous_fuelcap` is re-read only when not a pre-update |
| FuelGauge.FuelGauge.CheckVfFuelcapRange | drivers/battery/max17050_fuelgauge.c:1402-1495 | the optional jig DESIGNCAP write, then the VF range check; `previous_vffuelcap` is always refreshed from FULLCAP_NOM |
| FuelGauge.FuelGauge.Init | drivers/battery/max17050_fuelgauge.c:1794-1919 | alarm off and first check on; both previous capacities read from the chip; the low-battery boot flag when not on a battery cable and booted low; the register set-up; false exactly when the STATUS read after the program fails |
| FuelGauge.FuelGauge.InitState | drivers/battery/max17050_fuelgauge.c:1812-1828 | the field part of init, with its reads in order |
| FuelGauge.FuelGauge.ResetSoc | drivers/battery/max17050_fuelgauge.c:911-1018 | 500 ms, then 0 without a jig and nothing more; with a jig CYCLES := 0 and the quick start, -1 on a failed MISCCFG read or write |
| FuelGauge.FuelGauge.Reset | drivers/battery/max17050_fuelgauge.c:2025-2031 | true exactly when the reset returned 0: always without a jig, and with one when MISCCFG was read and written |
| FuelGauge.FuelGauge.ReadRemainCapPercent | drivers/battery/max17050_fuelgauge.c:731-794 | the smoothing state is advanced by the REMCAP_REP reading, the correction is written back, and the result is the remaining-capacity reading |
| FuelGauge.FuelGauge.SweepRanges | drivers/battery/max17050_fuelgauge.c:1650-1664 | the range loop updates the array in place to the sweep of the table |
| FuelGauge.FuelGauge.SweepStep | drivers/battery/max17050_fuelgauge.c:1651-1663 | one range: a low reading in the matching range bumps that range's counter, a matching range without one clears every counter, any other range changes nothing |
| FuelGauge.FuelGauge.CountLowReadings | drivers/battery/max17050_fuelgauge.c:1646-1677 | the sweep, then a reset when a cell reached the limit, reporting whether it did |
| FuelGauge.FuelGauge.LowBattCompensation | drivers/battery/max17050_fuelgauge.c:1631-1684 | returns `fg_soc` unchanged; the array becomes the compensation of the sample whose current is min(AVG_CURRENT, fg_current); AVG_CURRENT is read only at or below the compensation voltage, and SOCREP is read for the log when a counter reached the limit, before the final SOCREP read |
| FuelGauge.FuelGauge.RecoveryHandler | drivers/battery/max17050_fuelgauge.c:1700-1754 | one recovery step on (soc, alarm); the result is the alarm flag |
| FuelGauge.FuelGauge.FuelAlertProcess | drivers/battery/max17050_fuelgauge.c:1947-2004 | always true; unless charging, a jump raises the alarm and, with a reduce unit left, stops there; otherwise discharging sets the reported SoC to 0 |
| FuelGauge.FuelGauge.FullCharged | drivers/battery/max17050_fuelgauge.c:2006-2023 | the pre-update compensation keeps `previous_fuelcap`; the work is queued for 100 jiffies; false |
| FuelGauge.FuelGauge.FullCompWorkHandler | drivers/battery/max17050_fuelgauge.c:1756-1780 | the queued work fires: average current >= 25 mA queues it again for 100 with nothing written; otherwise the compensation runs, refreshes the previous value and leaves nothing pending |
| FuelGauge.FuelGauge.GetValue | drivers/battery/max17050_fuelgauge.c:1154-1217 | each kind behaves as its routine: read-only kinds only read, the temperature clears STATUS, the status check writes it back, RAW_SOC runs the remaining-capacity routine, and unknown kinds give -1 with no traffic |
| FuelGauge.FuelGauge.StatefulValue | drivers/battery/max17050_fuelgauge.c:1163-1185 | the temperature read clears STATUS; the status check gives -1, 0 or 1 with STATUS written back without its high byte; RAW_SOC returns the remaining-capacity reading and alone moves the smoothing history; the default case (lines 1211-1213) is -1 with no traffic |
| FuelGauge.FuelGauge.IsFuelAlerted | drivers/battery/max17050_fuelgauge.c:1939-1945 | true exactly when STATUS was read and written back with the alert bit set, which is then clear |

## Left out

- The SMBus block primitives `fg_i2c_read`/`fg_i2c_write` are modelled as `Registers.Bus`. It has a fixed set of failing registers; transient failures that come and go between calls are not modelled.
- `msleep` is kept only as a `Sleep` event in the trace. Real time, `ktime` and `fuelcap_check_interval` are not modelled.
- Log-only register reads are left out of the traces:
  - the VFSOC read inside `fg_read_soc`;
  - the STATUS and diagnostic register reads inside `fg_read_temp`;
  - the before/after dumps in `fg_reset_soc`;
  - the trailing reads in the capacity checks' log lines;
  - `fg_test_print`, `fg_periodic_read` and `fg_read_regs`.
- `dev_info`/`dev_dbg` logging and the `PRINT_COUNT` counters are not modelled: they produce output only.
- The following kernel plumbing is not modelled:
  - sysfs attributes, IRQ and workqueue registration, and `cancel_delayed_work`;
  - `psy_do_property`, except that the charging status is a parameter. The psy capacity set in the alert handler is not modelled.
- `sec_hal_fg_get_property`, `sec_hal_fg_set_property`, `fg_write_temp` and the empty suspend/resume hooks are property glue around the modelled routines, and are not modelled.
- `#if 0` blocks, the `CONFIG_N1A` voltage ladders and the QRTable rewrite are dead code or compile-time variants, and are not modelled.
- The `FUELALERT_CHECK_VOLTAGE_FEATURE` branch of the alert handler is compiled out by default, and is not modelled.
- `prevent_early_poweroff` is kept only as its SOCREP read: the rest of its body is disabled.
- The `is_recharging` argument of the compensation is only logged, so it is not modelled.
- The header defining the register addresses, `LOW_BATT_COMP_*` and `CURRENT_RANGE_MAX_NUM` is not part of this model. The table's length stands for `CURRENT_RANGE_MAX_NUM`, and the matrix dimensions are parameters.
- The board battery data file is not part of this model.
- The static variables are fields of the one driver object: the smoothing state, `previous_*`, the matrix and the alarm SoC.
- C `int` overflow is not modelled; all arithmetic is on unbounded integers. The only exceptions are the explicit `(u16)` casts and the byte/word splits.
- FuelGauge.FuelGauge.ReadRemainCapPercent: requires FULLCAP to be non-zero when it is read. The C division by zero at line 779 has no defined result, so the model does not say what happens then.
- FuelGauge.FuelGauge.GetValue: carries the same precondition for the RAW_SOC kind.
- FuelGauge.FuelGauge.LowBattCompensation: the disabled `fg_low_batt_compensation` call at line 1667 is not modelled.

## Findings

The routines keep the driver's behaviour as written; each corrected definition stands beside them with its intended property proved.

| source | as written | input that shows it | evidently intended | confidence | as-written member | corrected member |
|---|---|---|---|---|---|---|
| drivers/battery/max17050_fuelgauge.c:538-560 | a set sign bit takes the magnitude of the high byte times +1000 and adds the low-byte fraction (the `-=` subtracts the negated low byte), so the temperature comes out non-negative | TEMPERATURE = 0xFF00 (-1 degC) decodes to 10 (+1.0 degC) | the two's-complement temperature, negative for a set sign bit | high (not executed) | Codec.TemperatureSignLost | Codec.SignedTemperatureCorrect |
| drivers/battery/max17050_fuelgauge.c:779 | `100 * (rem / full)` truncates the quotient before scaling, so it is 0 below full capacity and the result falls back to SOCREP | REMCAP_REP = 2000, FULLCAP = 4000 gives 0 instead of 50 | `100 * rem / full` | high (not executed) | FuelGauge.RemainPercentTruncatesToZero | FuelGauge.RemainPercentCorrect |
| drivers/battery/max17050_fuelgauge.c:1389-1391 | `previous_fuelcap` is stored straight from `fg_read_register`, so a failed read stores -1, and the next in-band reading is clamped to -1 and written as 0xFFFF | FULLCAP read fails on refresh and then reads 4000 with design 4000 | keep the previous value when the refresh read fails | medium (not executed) | Capacity.FailedRefreshPoisonsNextRun | Capacity.RefreshAll |
