/** The driver state and the routines that sequence register traffic:
    initialisation, quick-start reset, the two capacity checks, the
    remaining-capacity smoothing, low-battery compensation, the alert and
    full-charge handlers, and the value dispatch. */
module FuelGauge {
  import opened Registers
  import opened Codec
  import opened Capacity
  import opened LowBatt
  import opened Telemetry

  /** The per-board battery data the driver consults. */
  datatype BatteryData = BatteryData(chargeCapacity: Word, lowBatteryCompVoltage: int,
                                     lowBatteryTable: seq<LowBattRow>)

  /** Header constants of the alert handler: `STABLE_LOW_BATTERY_DIFF`,
      `STABLE_LOW_BATTERY_DIFF_LOWBATT` and `LOW_BATTERY_SOC_REDUCE_UNIT`. */
  datatype Tuning = Tuning(stableDiff: int, stableDiffLowBatt: int, reduceUnit: int)

  /** The charging status the battery driver reports. */
  datatype ChargeStatus = Charging | Discharging | NotCharging | Full

  /** The delayed full-compensation work: idle, or queued with a delay. */
  datatype WorkState = Idle | Scheduled(delay: nat)

  /** The kinds `get_fuelgauge_value` dispatches on. */
  datatype ValueKind =
    | FgLevel | FgTemperature | FgVoltage | FgCurrent | FgCurrentAvg | FgCheckStatus
    | FgRawSoc | FgVfSoc | FgAvSoc | FgFullCap | FgMixCap | FgAvCap | FgRepCap
    | FgUnknown(code: int)

  // ------------------------------------------------ booted in low battery

  /** `is_booted_in_low_battery`: the cell voltage is at or under
      3300 mV + 0.17 mV per mA of current. */
  predicate BootedInLowBattery(vcell: int, current: int)
    ensures vcell <= 3300 && current >= 0 ==> BootedInLowBattery(vcell, current)
    ensures vcell > 3300 && current <= 0 ==> !BootedInLowBattery(vcell, current)
  {
    vcell <= 3300 + CDiv(current * 17, 100)
  }

  /** A lower voltage or a larger current never turns a low-battery verdict
      into a normal one. */
  lemma {:induction false} BootedInLowBatteryMonotone(v1: int, v2: int, c1: int, c2: int)
    requires v1 <= v2 && c1 <= c2
    ensures BootedInLowBattery(v2, c1) ==> BootedInLowBattery(v1, c2)
  {
    CDivMonotone(c1 * 17, c2 * 17, 100);
  }

  /** A failed voltage read (-1) always reads as booted in low battery,
      whatever the current reader returns. */
  lemma {:induction false} FailedVoltageReadIsLow(regs: map<Reg, Word>, rf: set<Reg>)
    requires VCell in rf
    ensures BootedInLowBattery(VoltageReading(regs, rf, VCell), CurrentReading(regs, rf, MilliAmp))
  {
    var c := CurrentReading(regs, rf, MilliAmp);
    CurrentBounds(Value(regs, Current));
    assert c >= -5120;
    CDivMonotone(-5120 * 17, c * 17, 100);
  }

  /** `is_booted_in_low_battery`: a VCELL read, then a current read. */
  method IsBootedInLowBattery(bus: Bus) returns (low: bool)
    modifies bus`trace
    ensures low == BootedInLowBattery(VoltageReading(bus.regs, bus.readFaults, VCell),
                                      CurrentReading(bus.regs, bus.readFaults, MilliAmp))
    ensures bus.trace == old(bus.trace) + [Rd(VCell)] + CurrentReads(bus.readFaults)
  {
    var vcell := ReadVoltage(bus, VCell);
    var current := ReadCurrent(bus, MilliAmp);
    low := vcell <= 3300 + CDiv(current * 17, 100);
  }

  // ------------------------------------------------------ recovery handler

  /** The reported SoC and the low-battery alarm, as the recovery handler
      sees them. */
  datatype AlarmState = AlarmState(soc: int, alarm: bool)

  /** One run of `fuelgauge_recovery_handler`: under one reduce unit the
      alarm clears; otherwise the reported SoC drops by one unit. */
  function RecoveryStep(st: AlarmState, unit: int): (st': AlarmState)
    ensures st.soc < unit ==> st' == st.(alarm := false)
    ensures st.soc >= unit ==> st'.soc < st.soc || unit <= 0
  {
    if st.soc < unit then st.(alarm := false) else st.(soc := st.soc - unit)
  }

  /** `n` runs of the handler. */
  function RecoverySteps(st: AlarmState, unit: int, n: nat): AlarmState
    decreases n
  {
    if n == 0 then st else RecoverySteps(RecoveryStep(st, unit), unit, n - 1)
  }

  /** With a positive reduce unit and a non-negative SoC, `soc / unit + 1`
      runs clear the alarm and leave the remainder of the SoC, and no run
      takes the SoC below zero. */
  lemma {:induction false} RecoveryClearsAlarm(st: AlarmState, unit: int)
    requires unit > 0 && st.soc >= 0
    ensures var end := RecoverySteps(st, unit, st.soc / unit + 1);
            !end.alarm && end.soc == st.soc % unit
    decreases st.soc
  {
    var n := st.soc / unit + 1;
    var next := RecoveryStep(st, unit);
    assert RecoverySteps(st, unit, n) == RecoverySteps(next, unit, n - 1);
    if st.soc < unit {
      DivModUnique(st.soc, unit, 0, st.soc);
      assert n - 1 == 0;
    } else {
      assert next.soc == st.soc - unit;
      SubtractDivisor(st.soc, unit);
      assert n - 1 == next.soc / unit + 1;
      RecoveryClearsAlarm(next, unit);
    }
  }

  lemma SubtractDivisor(a: int, d: int)
    requires a >= d > 0
    ensures (a - d) / d + 1 == a / d && (a - d) % d == a % d
  {
    DivModUnique(a - d, d, a / d - 1, a % d);
  }

  // ------------------------------------------------------------- SoC jump

  /** The SoC-jump rule of `sec_hal_fg_fuelalert_process`: a drop of at most
      `stableDiff` is judged against `stableDiffLowBatt`, a larger one
      against `stableDiff`. */
  predicate SocJump(reported: int, current: int, t: Tuning)
    ensures reported - current > Max(t.stableDiff, t.stableDiffLowBatt) ==> SocJump(reported, current, t)
    ensures reported - current <= Min(t.stableDiff, t.stableDiffLowBatt) ==> !SocJump(reported, current, t)
  {
    var diff := reported - current;
    var limit := if diff <= t.stableDiff then t.stableDiffLowBatt else t.stableDiff;
    diff > limit
  }

  /** The two-threshold rule is a single threshold: the smaller of the two. */
  lemma SocJumpIsSmallerThreshold(reported: int, current: int, t: Tuning)
    ensures SocJump(reported, current, t) <==> reported - current > Min(t.stableDiff, t.stableDiffLowBatt)
  {
  }

  // -------------------------------------------------- remaining capacity

  /** The smoothing step of `fg_read_remain_cap_percent`: the value to write
      back (when `write`), and the new `prev_rep1`, `prev_rep2`. */
  datatype Smoothed = Smoothed(rep: int, prev1: int, prev2: int, write: bool)

  /** A drop of more than 64 from `prev1` that also exceeds 130 against both
      previous readings is limited to 64 and written back; other readings are
      tracked. */
  function Smooth(rem: int, prev1: int, prev2: int): (s: Smoothed)
    ensures s.write ==> rem < s.rep < prev1
    ensures !s.write ==> s.rep == rem
  {
    if rem < prev1 then
      if prev1 - rem > 64 then
        if prev2 + prev1 - 2 * rem > 130 then
          if prev2 > prev1 then Smoothed(prev1 - 64, prev1, prev1, true)
          else Smoothed(prev1 - 64, prev1 - 64, prev2, true)
        else Smoothed(rem, prev1, prev2, false)
      else if prev2 == prev1 then Smoothed(rem, rem, prev2, false)
      else Smoothed(rem, rem, prev1, false)
    else Smoothed(rem, rem, rem, false)
  }

  /** A correction raises the reading to exactly 64 under `prev1`; the
      tracked value never falls more than 64 per read nor under the reading,
      and a reading that does not fall is tracked in both slots. */
  lemma SmoothProperties(rem: int, prev1: int, prev2: int)
    ensures var s := Smooth(rem, prev1, prev2);
            && (s.write ==> s.rep == prev1 - 64 && rem < s.rep)
            && (!s.write ==> s.rep == rem)
            && prev1 - 64 <= s.prev1 && rem <= s.prev1
            && (rem >= prev1 ==> s.prev1 == rem && s.prev2 == rem)
  {
  }

  /** Non-negative readings keep the tracked values and the written value
      non-negative, so the `(u16)` cast of the write-back changes nothing. */
  lemma {:induction false} SmoothStaysInRange(rem: Word, prev1: int, prev2: int)
    requires 0 <= prev1 < 0x1_0000 && 0 <= prev2 < 0x1_0000
    ensures var s := Smooth(rem, prev1, prev2);
            && 0 <= s.prev1 < 0x1_0000 && 0 <= s.prev2 < 0x1_0000
            && (s.write ==> ToU16(s.rep) == s.rep)
  {
  }

  /** The capacity term as written: `100 * (rem / full)`, the quotient
      truncated before the multiplication. */
  function RemainPercentAsWritten(rem: Word, full: Word): int
    requires full > 0
  {
    100 * (rem / full)
  }

  /** As written the capacity term is 0 for every remaining capacity under
      the full capacity: half full (2000 of 4000) reads 0 %. */
  lemma {:induction false} RemainPercentTruncatesToZero(rem: Word, full: Word)
    requires 0 < full && rem < full
    ensures RemainPercentAsWritten(rem, full) == 0
    ensures RemainPercentAsWritten(2000, 4000) == 0 && RemainPercent(2000, 4000) == 50
  {
  }

  /** The evidently intended percentage: multiply, then divide. */
  function RemainPercent(rem: Word, full: Word): int
    requires full > 0
  {
    100 * rem / full
  }

  /** The intended term lies in 0..100 while `rem <= full`, grows with
      `rem`, and is never under the term as written. */
  lemma {:induction false} RemainPercentCorrect(rem1: Word, rem2: Word, full: Word)
    requires 0 < full && rem1 <= rem2
    ensures rem2 <= full ==> 0 <= RemainPercent(rem2, full) <= 100
    ensures RemainPercent(rem1, full) <= RemainPercent(rem2, full)
    ensures RemainPercentAsWritten(rem1, full) <= RemainPercent(rem1, full)
  {
    DivMonotone(100 * rem1, 100 * rem2, full);
    if rem2 <= full {
      DivMonotone(100 * rem2, 100 * full, full);
      DivModUnique(100 * full, full, 100, 0);
    }
    AsWrittenNotAbove(rem1, full);
  }

  lemma AsWrittenNotAbove(rem: Word, full: Word)
    requires 0 < full
    ensures RemainPercentAsWritten(rem, full) <= RemainPercent(rem, full)
  {
    var q := rem / full;
    assert q * full <= rem;
    var p := (100 * q) * full;
    assert p == 100 * (q * full);
    DivMonotone(p, 100 * rem, full);
    DivModUnique(p, full, 100 * q, 0);
  }

  /** What `fg_read_remain_cap_percent` returns once all three reads
      succeed: the larger of the capacity term and the whole-percent byte
      of SOCREP (`data[1] + data[0] / 256`). */
  function RemainCapResult(rem: Word, full: Word, socRep: Word): (r: int)
    requires full > 0
    ensures r >= Hi(socRep) && r >= 0
    ensures r == Hi(socRep) || r == 100 * (rem / full)
  {
    var capTerm := RemainPercentAsWritten(rem, full);
    var soc := Hi(socRep) + Lo(socRep) / 256;
    if capTerm > soc then capTerm else soc
  }

  /** As written, while the remaining capacity is under the full capacity
      the result is just SOCREP's whole-percent byte. */
  lemma {:induction false} RemainCapIsSocByte(rem: Word, full: Word, socRep: Word)
    requires 0 < full && rem < full
    ensures RemainCapResult(rem, full, socRep) == Hi(socRep)
  {
    RemainPercentTruncatesToZero(rem, full);
  }

  /** What `fg_read_remain_cap_percent` returns: -1 when REMCAP_REP,
      FULLCAP or SOCREP fails to read, else the larger of the capacity term
      and SOCREP's whole-percent byte. */
  function RemainCapReading(regs: map<Reg, Word>, rf: set<Reg>): (p: int)
    requires RemCapRep !in rf && FullCap !in rf ==> Value(regs, FullCap) > 0
    ensures p == -1 <==> (RemCapRep in rf || FullCap in rf || SocRep in rf)
    ensures p != -1 ==> Hi(Value(regs, SocRep)) <= p
  {
    if RemCapRep in rf || FullCap in rf || SocRep in rf then -1
    else RemainCapResult(Value(regs, RemCapRep), Value(regs, FullCap), Value(regs, SocRep))
  }

  /** The register file after `fg_read_remain_cap_percent`: REMCAP_REP takes
      the smoothed value when the smoothing corrects the reading. */
  function RemainCapRegs(regs: map<Reg, Word>, rf: set<Reg>, wf: set<Reg>, prev1: int, prev2: int): map<Reg, Word>
  {
    if RemCapRep in rf then regs
    else
      var s := Smooth(Value(regs, RemCapRep), prev1, prev2);
      if s.write then Put(regs, wf, RemCapRep, ToU16(s.rep)) else regs
  }

  /** The transactions of `fg_read_remain_cap_percent`, which stops at the
      first failed read. */
  function RemainCapEvents(regs: map<Reg, Word>, rf: set<Reg>, prev1: int, prev2: int): seq<Event>
  {
    if RemCapRep in rf then [Rd(RemCapRep)]
    else
      var s := Smooth(Value(regs, RemCapRep), prev1, prev2);
      [Rd(RemCapRep)] + (if s.write then [Wr(RemCapRep, ToU16(s.rep))] else [])
        + [Rd(FullCap)] + (if FullCap in rf then [] else [Rd(SocRep)])
  }

  /** The only register the remaining-capacity read may change is
      REMCAP_REP, and it never raises it above the tracked value `prev1`. */
  lemma {:induction false} RemainCapWritesOnlyRemCap(regs: map<Reg, Word>, rf: set<Reg>, wf: set<Reg>,
                                                     prev1: int, prev2: int, r: Reg)
    requires 0 <= prev1 < 0x1_0000 && 0 <= prev2 < 0x1_0000
    ensures r != RemCapRep ==> Value(RemainCapRegs(regs, rf, wf, prev1, prev2), r) == Value(regs, r)
    ensures RemCapRep !in rf && RemCapRep !in wf ==>
              Value(regs, RemCapRep) <= Value(RemainCapRegs(regs, rf, wf, prev1, prev2), RemCapRep) <= Max(prev1, Value(regs, RemCapRep))
  {
    if RemCapRep !in rf {
      var rem := Value(regs, RemCapRep);
      SmoothProperties(rem, prev1, prev2);
      SmoothStaysInRange(rem, prev1, prev2);
    }
  }

  // ------------------------------------------------- capacity compensation

  /** A failed capacity read is replaced by the design capacity. */
  function CompensationInput(readResult: int, design: Word): int
  {
    if readResult < 0 then design else readResult
  }

  /** The decision `fg_fullcharged_compensation` takes on the register file. */
  function FullCapAction(regs: map<Reg, Word>, rf: set<Reg>, design: Word, previous: int): CapAction
  {
    CapDecision(design, previous, CompensationInput(ReadResult(regs, rf, FullCap), design), FullCapFloorPct)
  }

  /** The decision `fg_check_vf_fuelcap_range` takes on the register file. */
  function VfCapAction(regs: map<Reg, Word>, rf: set<Reg>, design: Word, previous: int): CapAction
  {
    CapDecision(design, previous, CompensationInput(ReadResult(regs, rf, FullCapNom), design), VfCapFloorPct)
  }

  /** A failed FULLCAP read compares the design capacity itself, which is
      always inside the design band, so only the previous-value band can
      correct it. */
  lemma {:induction false} FailedReadUsesDesign(regs: map<Reg, Word>, rf: set<Reg>, design: Word, previous: int)
    requires FullCap in rf
    ensures FullCapAction(regs, rf, design, previous) == CapDecision(design, previous, design, FullCapFloorPct)
    ensures InDesignBand(design, FullCapFloorPct, design)
  {
  }

  /** With FULLCAP failing to read on every access, the previous value the
      initialisation stores is -1, and the next compensation clamps to -1,
      which the `(u16)` cast writes as 0xFFFF. */
  lemma {:induction false} PersistentReadFaultWritesAllOnes(regs: map<Reg, Word>, rf: set<Reg>, design: Word)
    requires FullCap in rf
    ensures FullCapAction(regs, rf, design, ReadResult(regs, rf, FullCap)) == Clamp(-1)
  {
    FailedRefreshPoisonsNextRun(design, design, FullCapFloorPct);
  }

  /** The events of the VF check once DESIGNCAP is settled: a FULLCAP_NOM
      read, the DQACC/DPACC correction with its 300 ms wait when the reading
      is clamped, and the FULLCAP_NOM read that refreshes the previous value. */
  function VfEvents(a: CapAction): seq<Event>
  {
    [Rd(FullCapNom)]
      + (if a.Clamp? then [Wr(DQAcc, ToU16(CDiv(a.target, 4))), Wr(DPAcc, 0x3200), Sleep(300)] else [])
      + [Rd(FullCapNom)]
  }

  /** The register file after the VF check's correction: DQACC takes a
      quarter of the target and DPACC the fixed 0x3200. */
  function VfRegs(regs: map<Reg, Word>, wf: set<Reg>, a: CapAction): (r: map<Reg, Word>)
  {
    if a.Clamp? then Put(Put(regs, wf, DQAcc, ToU16(CDiv(a.target, 4))), wf, DPAcc, 0x3200) else regs
  }

  /** The VF check corrects FULLCAP_NOM only indirectly: the register itself,
      and every register other than DQACC and DPACC, keeps its value. */
  lemma {:induction false} VfRegsKeepsOthers(regs: map<Reg, Word>, wf: set<Reg>, a: CapAction, r: Reg)
    requires r != DQAcc && r != DPAcc
    ensures Value(VfRegs(regs, wf, a), r) == Value(regs, r)
  {
  }

  /** A clamped reading reaches both registers when neither write fails. */
  lemma {:induction false} VfRegsWritesBoth(regs: map<Reg, Word>, wf: set<Reg>, a: CapAction)
    requires a.Clamp? && DQAcc !in wf && DPAcc !in wf
    ensures Value(VfRegs(regs, wf, a), DQAcc) == ToU16(CDiv(a.target, 4))
    ensures Value(VfRegs(regs, wf, a), DPAcc) == 0x3200
  {
  }

  /** The body of `fg_check_vf_fuelcap_range` after the jig reset. */
  method VfRangeCheck(bus: Bus, design: Word, previous: int) returns (newPrevious: int)
    modifies bus`regs, bus`trace
    ensures var a := VfCapAction(old(bus.regs), bus.readFaults, design, previous);
            && bus.regs == VfRegs(old(bus.regs), bus.writeFaults, a)
            && bus.trace == old(bus.trace) + VfEvents(a)
    ensures newPrevious == ReadResult(old(bus.regs), bus.readFaults, FullCapNom)
  {
    var newVf := bus.Read(FullCapNom);
    if newVf < 0 {
      newVf := design;
    }
    var action := CapDecision(design, previous, newVf, VfCapFloorPct);
    if action.Clamp? {
      var st := bus.Write(DQAcc, ToU16(CDiv(action.target, 4)));
      st := bus.Write(DPAcc, 0x3200);
      bus.Delay(300);
    }
    newPrevious := bus.Read(FullCapNom);
  }

  // ------------------------------------------------ initialisation, reset

  /** Whether the 600 ms power-on wait is taken: bit 1 of the low STATUS
      byte is clear. When the STATUS read fails the test looks at the bytes
      the buffer held before the read, `fallback`. */
  predicate PorWait(regs: map<Reg, Word>, rf: set<Reg>, fallback: Word)
  {
    !PorBit(if Status in rf then fallback else Value(regs, Status))
  }

  /** Read STATUS and wait 600 ms unless the power-on-reset bit is set. */
  method AwaitPowerOnReset(bus: Bus, fallback: Word)
    modifies bus`trace
    ensures bus.trace == old(bus.trace) + [Rd(Status)]
                         + (if PorWait(bus.regs, bus.readFaults, fallback) then [Sleep(600)] else [])
  {
    var w := bus.Read(Status);
    var data: Word := if w < 0 then fallback else w;
    if !PorBit(data) {
      bus.Delay(600);
    }
  }

  /** The register file after the register phase of `sec_hal_fg_init`: the
      application program, then CONFIG when the STATUS re-read succeeds. */
  function InitRegs(regs: map<Reg, Word>, rf: set<Reg>, wf: set<Reg>, design: Word, thermalSourceFg: bool): map<Reg, Word>
  {
    var a := ApplicationRegisters(regs, wf, design);
    if Status in rf then a else Put(a, wf, Config, ConfigWord(thermalSourceFg))
  }

  /** The transactions of that phase. */
  function InitRegisterEvents(regs: map<Reg, Word>, rf: set<Reg>, design: Word, thermalSourceFg: bool): seq<Event>
  {
    PowerOnEvents(regs, rf, design, 0) + [Sleep(250), Rd(Status)]
      + (if Status in rf then [] else [Wr(Config, ConfigWord(thermalSourceFg))])
  }

  /** The transactions of the power-on wait and the application program. */
  function PowerOnEvents(regs: map<Reg, Word>, rf: set<Reg>, design: Word, fallback: Word): seq<Event>
  {
    [Rd(Status)] + (if PorWait(regs, rf, fallback) then [Sleep(600)] else []) + ApplicationWrites(design)
  }

  /** The power-on wait followed by the application program, as both the
      initialisation and the quick start run them. */
  method PowerOnProgram(bus: Bus, design: Word, fallback: Word)
    modifies bus`regs, bus`trace
    ensures bus.regs == ApplicationRegisters(old(bus.regs), bus.writeFaults, design)
    ensures bus.trace == old(bus.trace) + PowerOnEvents(old(bus.regs), bus.readFaults, design, fallback)
  {
    ghost var t0 := bus.trace;
    AwaitPowerOnReset(bus, fallback);
    WriteApplicationRegisters(bus, design);
    ghost var p1: seq<Event>, p2: seq<Event> := [Rd(Status)], (if PorWait(old(bus.regs), bus.readFaults, fallback) then [Sleep(600)] else []);
    Appended(t0, p1 + p2, ApplicationWrites(design));
    Appended(t0, p1, p2);
  }

  /** The register phase of `sec_hal_fg_init`: the power-on wait (the
      buffer starts as zeros, so a failed STATUS read waits), the application
      program, 250 ms, a STATUS re-read whose failure ends initialisation
      unsuccessfully, and CONFIG. */
  method InitRegisters(bus: Bus, design: Word, thermalSourceFg: bool) returns (ok: bool)
    modifies bus`regs, bus`trace
    ensures ok <==> Status !in bus.readFaults
    ensures bus.regs == InitRegs(old(bus.regs), bus.readFaults, bus.writeFaults, design, thermalSourceFg)
    ensures bus.trace == old(bus.trace) + InitRegisterEvents(old(bus.regs), bus.readFaults, design, thermalSourceFg)
  {
    ghost var t0 := bus.trace;
    ghost var p := PowerOnEvents(bus.regs, bus.readFaults, design, 0);
    PowerOnProgram(bus, design, 0);
    bus.Delay(250);
    var w := bus.Read(Status);
    assert bus.trace == t0 + p + [Sleep(250), Rd(Status)];
    Appended(t0, p, [Sleep(250), Rd(Status)]);
    if w < 0 {
      return false;
    }
    var st := bus.Write(Config, ConfigWord(thermalSourceFg));
    Appended(t0, p + [Sleep(250), Rd(Status)], [Wr(Config, ConfigWord(thermalSourceFg))]);
    ok := true;
  }

  /** The DESIGNCAP reset of a jig boot followed by the register phase. */
  method JigInitRegisters(bus: Bus, jig: bool, design: Word, thermalSourceFg: bool) returns (ok: bool)
    modifies bus`regs, bus`trace
    ensures ok <==> Status !in bus.readFaults
    ensures var regs1 := if jig then Put(old(bus.regs), bus.writeFaults, DesignCap, design) else old(bus.regs);
            && bus.regs == InitRegs(regs1, bus.readFaults, bus.writeFaults, design, thermalSourceFg)
            && bus.trace == old(bus.trace) + (if jig then [Wr(DesignCap, design)] else [])
                            + InitRegisterEvents(regs1, bus.readFaults, design, thermalSourceFg)
  {
    if jig {
      var st := ResetCapacityByJig(bus, design);
    }
    ok := InitRegisters(bus, design, thermalSourceFg);
  }

  /** After a successful initialisation with working writes, every
      application register and CONFIG hold their programmed values; the
      DESIGNCAP reset of a jig boot makes no difference to the outcome. */
  lemma {:induction false} InitProgramsRegisters(regs: map<Reg, Word>, rf: set<Reg>, wf: set<Reg>,
                                                 design: Word, thermalSourceFg: bool)
    requires Status !in rf && wf == {}
    ensures var r := InitRegs(regs, rf, wf, design, thermalSourceFg);
            && Value(r, Config) == ConfigWord(thermalSourceFg)
            && Value(r, DesignCap) == design && Value(r, AtRate) == 0 && Value(r, FullSocThr) == 0x5F00
            && Value(r, IChgTerm) == 0x03C0 && Value(r, Status) == 0
    ensures InitRegs(Put(regs, wf, DesignCap, design), rf, wf, design, thermalSourceFg)
              == InitRegs(regs, rf, wf, design, thermalSourceFg)
  {
    ApplicationRegistersProgrammed(regs, wf, design);
    JigResetSubsumed(regs, wf, design);
  }

  /** Writing DESIGNCAP before the application program is absorbed by the
      program's own DESIGNCAP write. */
  lemma {:induction false} JigResetSubsumed(regs: map<Reg, Word>, wf: set<Reg>, design: Word)
    ensures ApplicationRegisters(Put(regs, wf, DesignCap, design), wf, design)
              == ApplicationRegisters(regs, wf, design)
  {
    if DesignCap !in wf {
      assert Put(Put(regs, wf, DesignCap, design), wf, DesignCap, design) == Put(regs, wf, DesignCap, design);
    }
  }

  /** MISCCFG with bit 2 of its high byte (word bit 10) set: the quick-start
      request. */
  function SetBit10(w: Word): (r: Word)
    ensures (r / 0x400) % 2 == 1
    ensures r == w || r == w + 0x400
  {
    if (w / 0x400) % 2 == 1 then w else w + 0x400
  }

  /** Setting word bit 10 sets bit 2 of the high byte and keeps the low
      byte and the other bits of the high byte. */
  lemma SetBit10Bits(w: Word)
    ensures Lo(SetBit10(w)) == Lo(w)
    ensures (Hi(SetBit10(w)) / 4) % 2 == 1
    ensures Hi(SetBit10(w)) % 4 == Hi(w) % 4 && Hi(SetBit10(w)) / 8 == Hi(w) / 8
  {
    var hi: int, lo: int := Hi(w), Lo(w);
    var q, m := hi / 4, hi % 4;
    assert w == q * 0x400 + (m * 0x100 + lo);
    DivModUnique(w, 0x400, q, m * 0x100 + lo);
    if q % 2 == 0 {
      var w2 := w + 0x400;
      assert w2 == (hi + 4) * 0x100 + lo;
      DivModUnique(w2, 0x100, hi + 4, lo);
      DivModUnique(hi + 4, 4, q + 1, m);
      DivModUnique(hi + 4, 8, q / 2, m + 4);
      DivModUnique(hi, 8, q / 2, m);
    }
  }

  /** The register file after the quick start's program: the application
      registers, CONFIG, and CYCLES = 0x00A0. */
  function QuickStartProgramRegs(regs: map<Reg, Word>, wf: set<Reg>, design: Word, thermalSourceFg: bool): map<Reg, Word>
  {
    Put(Put(ApplicationRegisters(regs, wf, design), wf, Config, ConfigWord(thermalSourceFg)), wf, Cycles, 0x00A0)
  }

  /** The transactions of the quick start's program. */
  function QuickStartProgramEvents(regs: map<Reg, Word>, rf: set<Reg>, design: Word,
                                   thermalSourceFg: bool, fallback: Word): seq<Event>
  {
    PowerOnEvents(regs, rf, design, fallback)
      + [Wr(Config, ConfigWord(thermalSourceFg)), Sleep(500), Wr(Cycles, 0x00A0)]
  }

  /** The register file after the quick start that follows a successful
      MISCCFG read of `misc` in `fg_reset_soc`; a failed MISCCFG write stops
      it before anything else is written. */
  function QuickStartRegs(regs: map<Reg, Word>, wf: set<Reg>, design: Word, thermalSourceFg: bool, misc: Word): map<Reg, Word>
  {
    if MiscCfg in wf then regs
    else QuickStartProgramRegs(Put(regs, wf, MiscCfg, SetBit10(misc)), wf, design, thermalSourceFg)
  }

  /** The transactions of that quick start. On a failed STATUS read the
      power-on test looks at the MISCCFG bytes still in the buffer. */
  function QuickStartEvents(regs: map<Reg, Word>, rf: set<Reg>, wf: set<Reg>, design: Word,
                            thermalSourceFg: bool, misc: Word): seq<Event>
  {
    [Wr(MiscCfg, SetBit10(misc))]
      + if MiscCfg in wf then []
        else QuickStartProgramEvents(Put(regs, wf, MiscCfg, SetBit10(misc)), rf, design, thermalSourceFg, SetBit10(misc))
  }

  /** The quick start's program: power-on wait, application registers,
      CONFIG, 500 ms, CYCLES. */
  method QuickStartProgram(bus: Bus, design: Word, thermalSourceFg: bool, fallback: Word)
    modifies bus`regs, bus`trace
    ensures bus.regs == QuickStartProgramRegs(old(bus.regs), bus.writeFaults, design, thermalSourceFg)
    ensures bus.trace == old(bus.trace)
                         + QuickStartProgramEvents(old(bus.regs), bus.readFaults, design, thermalSourceFg, fallback)
  {
    ghost var t0 := bus.trace;
    ghost var p := PowerOnEvents(bus.regs, bus.readFaults, design, fallback);
    PowerOnProgram(bus, design, fallback);
    var st := bus.Write(Config, ConfigWord(thermalSourceFg));
    bus.Delay(500);
    st := bus.Write(Cycles, 0x00A0);
    assert bus.trace == t0 + p + [Wr(Config, ConfigWord(thermalSourceFg)), Sleep(500), Wr(Cycles, 0x00A0)];
    Appended(t0, p, [Wr(Config, ConfigWord(thermalSourceFg)), Sleep(500), Wr(Cycles, 0x00A0)]);
  }

  /** The part of `fg_reset_soc` after MISCCFG has been read as `misc`. */
  method QuickStart(bus: Bus, design: Word, thermalSourceFg: bool, misc: Word) returns (ret: int)
    modifies bus`regs, bus`trace
    ensures ret == (if MiscCfg in bus.writeFaults then -1 else 0)
    ensures bus.regs == QuickStartRegs(old(bus.regs), bus.writeFaults, design, thermalSourceFg, misc)
    ensures bus.trace == old(bus.trace)
                         + QuickStartEvents(old(bus.regs), bus.readFaults, bus.writeFaults, design, thermalSourceFg, misc)
  {
    var data := SetBit10(misc);
    var st := bus.Write(MiscCfg, data);
    if st < 0 {
      return -1;
    }
    QuickStartProgram(bus, design, thermalSourceFg, data);
    ret := 0;
  }

  /** Read MISCCFG (its failure gives -1) and run the quick start. */
  method MiscQuickStart(bus: Bus, design: Word, thermalSourceFg: bool) returns (ret: int)
    modifies bus`regs, bus`trace
    ensures MiscCfg in bus.readFaults ==>
              ret == -1 && bus.regs == old(bus.regs) && bus.trace == old(bus.trace) + [Rd(MiscCfg)]
    ensures MiscCfg !in bus.readFaults ==>
              var misc := Value(old(bus.regs), MiscCfg);
              && ret == (if MiscCfg in bus.writeFaults then -1 else 0)
              && bus.regs == QuickStartRegs(old(bus.regs), bus.writeFaults, design, thermalSourceFg, misc)
              && bus.trace == old(bus.trace) + [Rd(MiscCfg)]
                              + QuickStartEvents(old(bus.regs), bus.readFaults, bus.writeFaults, design, thermalSourceFg, misc)
  {
    var misc := bus.Read(MiscCfg);
    if misc < 0 {
      return -1;
    }
    ret := QuickStart(bus, design, thermalSourceFg, misc);
  }

  /** The jig branch of `fg_reset_soc`: CYCLES := 0, then the MISCCFG read
      and the quick start. */
  method JigResetSoc(bus: Bus, design: Word, thermalSourceFg: bool) returns (ret: int)
    modifies bus`regs, bus`trace
    ensures MiscCfg in bus.readFaults ==>
              && ret == -1 && bus.regs == Put(old(bus.regs), bus.writeFaults, Cycles, 0)
              && bus.trace == old(bus.trace) + [Wr(Cycles, 0)] + [Rd(MiscCfg)]
    ensures MiscCfg !in bus.readFaults ==>
              var regs1 := Put(old(bus.regs), bus.writeFaults, Cycles, 0);
              var misc := Value(regs1, MiscCfg);
              && ret == (if MiscCfg in bus.writeFaults then -1 else 0)
              && bus.regs == QuickStartRegs(regs1, bus.writeFaults, design, thermalSourceFg, misc)
              && bus.trace == old(bus.trace) + [Wr(Cycles, 0)] + [Rd(MiscCfg)]
                              + QuickStartEvents(regs1, bus.readFaults, bus.writeFaults, design, thermalSourceFg, misc)
  {
    var st := bus.Write(Cycles, 0);
    ret := MiscQuickStart(bus, design, thermalSourceFg);
  }

  /** With working writes, a quick start leaves the quick-start bit set in
      MISCCFG with its other bits kept, CONFIG and the application registers
      programmed, and CYCLES at 0x00A0. */
  lemma {:induction false} QuickStartProgramsRegisters(regs: map<Reg, Word>, design: Word, thermalSourceFg: bool, misc: Word)
    ensures var r := QuickStartRegs(regs, {}, design, thermalSourceFg, misc);
            && Lo(Value(r, MiscCfg)) == Lo(misc) && (Hi(Value(r, MiscCfg)) / 4) % 2 == 1
            && Hi(Value(r, MiscCfg)) % 4 == Hi(misc) % 4 && Hi(Value(r, MiscCfg)) / 8 == Hi(misc) / 8
            && Value(r, Config) == ConfigWord(thermalSourceFg) && Value(r, Cycles) == 0x00A0
            && Value(r, DesignCap) == design && Value(r, Status) == 0
  {
    SetBit10Bits(misc);
    var r1 := Put(regs, {}, MiscCfg, SetBit10(misc));
    ApplicationRegistersProgrammed(r1, {}, design);
    ApplicationRegistersFrame(r1, {}, design);
  }

  // --------------------------------------------------------- value dispatch

  /** The kinds `get_fuelgauge_value` answers by reading registers and
      changing nothing: all but the temperature (which clears STATUS first),
      the status check, the remaining-capacity percentage and unknown codes. */
  predicate ReadOnlyKind(kind: ValueKind)
  {
    !(kind.FgTemperature? || kind.FgCheckStatus? || kind.FgRawSoc? || kind.FgUnknown?)
  }

  /** The register whose value a read-only kind reports. */
  function ReadOnlyRegister(kind: ValueKind): Reg
    requires ReadOnlyKind(kind)
  {
    match kind
    case FgLevel => SocRep
    case FgVoltage => VCell
    case FgCurrent => Current
    case FgCurrentAvg => AvgCurrent
    case FgVfSoc => VfSoc
    case FgAvSoc => SocAv
    case FgFullCap => FullCap
    case FgMixCap => FullCapNom
    case FgAvCap => RemCapAv
    case FgRepCap => RemCapRep
  }

  /** The answer to a read-only kind: the state-of-charge kinds in 0.1 %,
      voltage in mV, currents in mA, capacities as raw words. A failed read
      of the reported register always yields -1; except for the currents,
      whose decoded value can itself be -1, -1 means exactly that. */
  function ReadOnlyValue(regs: map<Reg, Word>, rf: set<Reg>, kind: ValueKind): (v: int)
    requires ReadOnlyKind(kind)
    ensures ReadOnlyRegister(kind) in rf ==> v == -1
    ensures !(kind.FgCurrent? || kind.FgCurrentAvg?) ==> (v == -1 <==> ReadOnlyRegister(kind) in rf)
    ensures kind.FgLevel? || kind.FgVfSoc? || kind.FgAvSoc? ==> -1 <= v <= 1000
    ensures kind.FgVoltage? ==> -1 <= v <= 5119
    ensures kind.FgCurrent? || kind.FgCurrentAvg? ==> -5120 <= v <= 5119
    ensures kind.FgFullCap? || kind.FgMixCap? || kind.FgAvCap? || kind.FgRepCap? ==> -1 <= v <= 0xFFFF
  {
    if kind.FgCurrent? then
      CurrentBounds(Value(regs, Current));
      CurrentReading(regs, rf, MilliAmp)
    else if kind.FgCurrentAvg? then
      CurrentBounds(Value(regs, AvgCurrent));
      AvgCurrentReading(regs, rf, MilliAmp)
    else if kind.FgVoltage? then
      VoltageReading(regs, rf, VCell)
    else if kind.FgLevel? || kind.FgVfSoc? || kind.FgAvSoc? then
      SocReading(regs, rf, ReadOnlyRegister(kind))
    else
      CapacityReading(regs, rf, ReadOnlyRegister(kind))
  }

  /** The reads a read-only kind issues. */
  function ReadOnlyEvents(rf: set<Reg>, kind: ValueKind): seq<Event>
    requires ReadOnlyKind(kind)
  {
    if kind.FgCurrent? then CurrentReads(rf) else [Rd(ReadOnlyRegister(kind))]
  }

  /** The outcome of `get_fuelgauge_value` for the kinds that write: from
      registers `regs0`, trace `trace0` and smoothing history `p1`, `p2` to
      the value `v`, registers `regs`, trace `trace` and history `q1`, `q2`.
      The temperature read clears STATUS; the status check reads STATUS and,
      when that succeeds, writes it back with its high byte cleared, giving
      1 for a set alert bit, 0 for a clear one and -1 for a failed transfer;
      RAW_SOC runs the remaining-capacity routine, the only kind that moves
      the history; an unknown kind is -1 with no bus traffic. */
  predicate StatefulOutcome(kind: ValueKind, rf: set<Reg>, wf: set<Reg>,
                            regs0: map<Reg, Word>, trace0: seq<Event>, p1: int, p2: int,
                            v: int, regs: map<Reg, Word>, trace: seq<Event>, q1: int, q2: int)
    requires kind.FgRawSoc? && RemCapRep !in rf && FullCap !in rf ==> Value(regs0, FullCap) > 0
  {
    if kind.FgRawSoc? then
      && v == RemainCapReading(regs0, rf)
      && regs == RemainCapRegs(regs0, rf, wf, p1, p2)
      && trace == trace0 + RemainCapEvents(regs0, rf, p1, p2)
      && (RemCapRep in rf ==> q1 == p1 && q2 == p2)
      && (RemCapRep !in rf ==>
            var s := Smooth(Value(regs0, RemCapRep), p1, p2);
            q1 == s.prev1 && q2 == s.prev2)
    else
      && q1 == p1 && q2 == p2
      && (kind.FgTemperature? ==>
            && v == TemperatureReading(regs0, rf, wf)
            && regs == Put(regs0, wf, Status, 0)
            && trace == trace0 + TemperatureEvents(wf))
      && (kind.FgCheckStatus? && Status in rf ==>
            v == -1 && regs == regs0 && trace == trace0 + [Rd(Status)])
      && (kind.FgCheckStatus? && Status !in rf ==>
            var w := Value(regs0, Status);
            && regs == Put(regs0, wf, Status, ClearHighByte(w))
            && trace == trace0 + [Rd(Status), Wr(Status, ClearHighByte(w))]
            && v == (if Status in wf then -1 else if AlertBit(w) then 1 else 0))
      && (!kind.FgTemperature? && !kind.FgCheckStatus? ==>
            v == -1 && regs == regs0 && trace == trace0)
  }

  /** The outcome of `get_fuelgauge_value` for a read-only kind: the decoded
      reading of its register and the reads that produced it. */
  predicate ReadOnlyOutcome(kind: ValueKind, rf: set<Reg>, regs: map<Reg, Word>,
                            trace0: seq<Event>, v: int, trace: seq<Event>)
    requires ReadOnlyKind(kind)
  {
    v == ReadOnlyValue(regs, rf, kind) && trace == trace0 + ReadOnlyEvents(rf, kind)
  }

  /** The read-only part of `get_fuelgauge_value`: the reader each kind
      selects, issuing only reads. */
  method ReadOnlyDispatch(bus: Bus, kind: ValueKind) returns (v: int)
    requires ReadOnlyKind(kind)
    modifies bus`trace
    ensures ReadOnlyOutcome(kind, bus.readFaults, bus.regs, old(bus.trace), v, bus.trace)
  {
    if kind.FgCurrent? {
      v := ReadCurrent(bus, MilliAmp);
    } else if kind.FgCurrentAvg? {
      v := ReadAvgCurrent(bus, MilliAmp);
    } else if kind.FgVoltage? {
      v := ReadVoltage(bus, VCell);
    } else if kind.FgLevel? || kind.FgVfSoc? || kind.FgAvSoc? {
      v := ReadSoc(bus, ReadOnlyRegister(kind));
    } else {
      v := ReadCapacity(bus, ReadOnlyRegister(kind));
    }
  }

  /** `sec_hal_fg_fuelalert_init`: true exactly when `fg_alert_init`
      returned 1, in which case the alert registers are programmed. */
  method FuelAlertInit(bus: Bus, soc: int) returns (ok: bool)
    modifies bus`regs, bus`trace
    ensures ok <==> AlertInitSucceeds(bus.readFaults, bus.writeFaults)
    ensures ok ==> bus.regs == AlertRegisters(old(bus.regs), soc)
    ensures forall r :: !AlertInitTouches(r) ==> Value(bus.regs, r) == Value(old(bus.regs), r)
  {
    var ret := AlertInit(bus, soc);
    ok := ret > 0;
  }

  // ------------------------------------------------------------ the driver

  /** `struct sec_fuelgauge_info` with its `info` fields, the two static
      smoothing variables of `fg_read_remain_cap_percent`, and the
      low-battery counters. */
  class FuelGauge {
    const bus: Bus
    const battery: BatteryData
    const thermalSourceFg: bool
    const tuning: Tuning
    const lowBatt: LowBattCounter

    var previousFuelcap: int
    var previousVfFuelcap: int
    var prevRep1: int
    var prevRep2: int
    var soc: int
    var isLowBattAlarm: bool
    var isFirstCheck: bool
    var lowBattBootFlag: bool
    var fullCompWork: WorkState

    /** The low-battery table fits the counter matrix. */
    ghost predicate Valid()
      reads this, lowBatt
    {
      lowBatt.Valid() && Fits(battery.lowBatteryTable, lowBatt.rows, lowBatt.cols)
    }

    /** The zero-initialised driver state, with a fresh low-battery counter
        matrix of `rows` current ranges by `cols` levels, all zero. */
    constructor (bus: Bus, battery: BatteryData, thermalSourceFg: bool, tuning: Tuning,
                 rows: nat, cols: nat, maxCheck: int)
      requires Fits(battery.lowBatteryTable, rows, cols)
      ensures Valid()
      ensures this.bus == bus && this.battery == battery && this.thermalSourceFg == thermalSourceFg
      ensures this.tuning == tuning && fresh(lowBatt) && fresh(lowBatt.cnt)
      ensures lowBatt.rows == rows && lowBatt.cols == cols && lowBatt.maxCheck == maxCheck
      ensures lowBatt.Cells() == Cleared(rows, cols)
      ensures previousFuelcap == 0 && previousVfFuelcap == 0 && prevRep1 == 0 && prevRep2 == 0 && soc == 0
      ensures !isLowBattAlarm && !isFirstCheck && !lowBattBootFlag && fullCompWork == Idle
    {
      this.bus, this.battery, this.thermalSourceFg := bus, battery, thermalSourceFg;
      this.tuning := tuning;
      this.lowBatt := new LowBattCounter(rows, cols, maxCheck);
      previousFuelcap, previousVfFuelcap, prevRep1, prevRep2, soc := 0, 0, 0, 0, 0;
      isLowBattAlarm, isFirstCheck, lowBattBootFlag := false, false, false;
      fullCompWork := Idle;
    }

    /** `fg_fullcharged_compensation`: read FULLCAP (the design capacity on
        failure), write back the corrected value unless both bands hold it,
        and, unless this is the pre-update call, store a fresh FULLCAP read
        as the previous value. */
    method FullChargedCompensation(preUpdate: bool)
      modifies bus`regs, bus`trace, this`previousFuelcap
      ensures var a := FullCapAction(old(bus.regs), bus.readFaults, battery.chargeCapacity, old(previousFuelcap));
              && bus.regs == (if a.Clamp? then Put(old(bus.regs), bus.writeFaults, FullCap, ToU16(a.target)) else old(bus.regs))
              && bus.trace == old(bus.trace) + [Rd(FullCap)]
                              + (if a.Clamp? then [Wr(FullCap, ToU16(a.target))] else [])
                              + (if preUpdate then [] else [Rd(FullCap)])
      ensures previousFuelcap == (if preUpdate then old(previousFuelcap) else ReadResult(bus.regs, bus.readFaults, FullCap))
    {
      var design := battery.chargeCapacity;
      var newFullcap := bus.Read(FullCap);
      if newFullcap < 0 {
        newFullcap := design;
      }
      var action := CapDecision(design, previousFuelcap, newFullcap, FullCapFloorPct);
      if action.Clamp? {
        var st := bus.Write(FullCap, ToU16(action.target));
      }
      if !preUpdate {
        previousFuelcap := bus.Read(FullCap);
      }
    }

    /** `fg_check_vf_fuelcap_range`: on a jig, reset DESIGNCAP first; then
        hold FULLCAP_NOM (the design capacity on failure) to 50 %..110 % of
        the design and +-10 % of the previous value by writing DQACC and
        DPACC, never FULLCAP_NOM itself; always store a fresh FULLCAP_NOM
        read as the previous value. */
    method CheckVfFuelcapRange(jig: bool)
      modifies bus`regs, bus`trace, this`previousVfFuelcap
      ensures var regs1 := if jig then Put(old(bus.regs), bus.writeFaults, DesignCap, battery.chargeCapacity) else old(bus.regs);
              var a := VfCapAction(regs1, bus.readFaults, battery.chargeCapacity, old(previousVfFuelcap));
              && bus.regs == VfRegs(regs1, bus.writeFaults, a)
              && bus.trace == old(bus.trace) + (if jig then [Wr(DesignCap, battery.chargeCapacity)] else []) + VfEvents(a)
      ensures previousVfFuelcap == ReadResult(old(bus.regs), bus.readFaults, FullCapNom)
    {
      if jig {
        var st := ResetCapacityByJig(bus, battery.chargeCapacity);
      }
      previousVfFuelcap := VfRangeCheck(bus, battery.chargeCapacity, previousVfFuelcap);
    }

    /** `sec_hal_fg_init`: clear the alarm, mark the first check, store the
        two capacity readings as previous values, flag a boot in low battery
        when not powered from a battery cable, reset DESIGNCAP on a jig, then
        the register phase; false when the STATUS re-read fails. */
    method Init(jig: bool, cableIsBattery: bool) returns (ok: bool)
      modifies bus`regs, bus`trace, this`isLowBattAlarm, this`isFirstCheck
      modifies this`previousFuelcap, this`previousVfFuelcap, this`lowBattBootFlag
      ensures !isLowBattAlarm && isFirstCheck
      ensures previousFuelcap == ReadResult(old(bus.regs), bus.readFaults, FullCap)
      ensures previousVfFuelcap == ReadResult(old(bus.regs), bus.readFaults, FullCapNom)
      ensures lowBattBootFlag == (old(lowBattBootFlag)
                || (!cableIsBattery && BootedInLowBattery(VoltageReading(old(bus.regs), bus.readFaults, VCell),
                                                          CurrentReading(old(bus.regs), bus.readFaults, MilliAmp))))
      ensures ok <==> Status !in bus.readFaults
      ensures var regs1 := if jig then Put(old(bus.regs), bus.writeFaults, DesignCap, battery.chargeCapacity) else old(bus.regs);
              && bus.regs == InitRegs(regs1, bus.readFaults, bus.writeFaults, battery.chargeCapacity, thermalSourceFg)
              && bus.trace == old(bus.trace) + [Rd(FullCap), Rd(FullCapNom)]
                              + (if cableIsBattery then [] else [Rd(VCell)] + CurrentReads(bus.readFaults))
                              + (if jig then [Wr(DesignCap, battery.chargeCapacity)] else [])
                              + InitRegisterEvents(regs1, bus.readFaults, battery.chargeCapacity, thermalSourceFg)
    {
      InitState(cableIsBattery);
      ok := JigInitRegisters(bus, jig, battery.chargeCapacity, thermalSourceFg);
    }

    /** The driver-state part of `sec_hal_fg_init`, which only reads. */
    method InitState(cableIsBattery: bool)
      modifies bus`trace, this`isLowBattAlarm, this`isFirstCheck
      modifies this`previousFuelcap, this`previousVfFuelcap, this`lowBattBootFlag
      ensures !isLowBattAlarm && isFirstCheck
      ensures previousFuelcap == ReadResult(bus.regs, bus.readFaults, FullCap)
      ensures previousVfFuelcap == ReadResult(bus.regs, bus.readFaults, FullCapNom)
      ensures lowBattBootFlag == (old(lowBattBootFlag)
                || (!cableIsBattery && BootedInLowBattery(VoltageReading(bus.regs, bus.readFaults, VCell),
                                                          CurrentReading(bus.regs, bus.readFaults, MilliAmp))))
      ensures bus.trace == old(bus.trace) + [Rd(FullCap), Rd(FullCapNom)]
                           + (if cableIsBattery then [] else [Rd(VCell)] + CurrentReads(bus.readFaults))
    {
      isLowBattAlarm := false;
      isFirstCheck := true;
      previousFuelcap := bus.Read(FullCap);
      previousVfFuelcap := bus.Read(FullCapNom);
      if !cableIsBattery {
        var low := IsBootedInLowBattery(bus);
        if low {
          lowBattBootFlag := true;
        }
      }
    }

    /** `fg_reset_soc`: after 500 ms, nothing more without a jig; with one,
        CYCLES := 0, the MISCCFG read (its failure gives -1) and the quick
        start. */
    method ResetSoc(jig: bool) returns (ret: int)
      modifies bus`regs, bus`trace
      ensures !jig ==> ret == 0 && bus.regs == old(bus.regs) && bus.trace == old(bus.trace) + [Sleep(500)]
      ensures jig && MiscCfg in bus.readFaults ==>
                && ret == -1 && bus.regs == Put(old(bus.regs), bus.writeFaults, Cycles, 0)
                && bus.trace == old(bus.trace) + [Sleep(500)] + [Wr(Cycles, 0)] + [Rd(MiscCfg)]
      ensures jig && MiscCfg !in bus.readFaults ==>
                var regs1 := Put(old(bus.regs), bus.writeFaults, Cycles, 0);
                var misc := Value(regs1, MiscCfg);
                && ret == (if MiscCfg in bus.writeFaults then -1 else 0)
                && bus.regs == QuickStartRegs(regs1, bus.writeFaults, battery.chargeCapacity, thermalSourceFg, misc)
                && bus.trace == old(bus.trace) + [Sleep(500)] + [Wr(Cycles, 0)] + [Rd(MiscCfg)]
                                + QuickStartEvents(regs1, bus.readFaults, bus.writeFaults,
                                                   battery.chargeCapacity, thermalSourceFg, misc)
    {
      bus.Delay(500);
      if !jig {
        return 0;
      }
      ret := JigResetSoc(bus, battery.chargeCapacity, thermalSourceFg);
    }

    /** `fg_read_remain_cap_percent`: REMCAP_REP through the smoothing (the
        correction is written back), then the larger of the capacity term
        and SOCREP's whole-percent byte; -1 at the first failed read. The
        division by FULLCAP is undefined in C when FULLCAP reads as 0. */
    method ReadRemainCapPercent() returns (r: int)
      requires RemCapRep !in bus.readFaults && FullCap !in bus.readFaults ==> Value(bus.regs, FullCap) > 0
      modifies bus`regs, bus`trace, this`prevRep1, this`prevRep2
      ensures r == RemainCapReading(old(bus.regs), bus.readFaults)
      ensures bus.regs == RemainCapRegs(old(bus.regs), bus.readFaults, bus.writeFaults, old(prevRep1), old(prevRep2))
      ensures bus.trace == old(bus.trace) + RemainCapEvents(old(bus.regs), bus.readFaults, old(prevRep1), old(prevRep2))
      ensures RemCapRep in bus.readFaults ==> prevRep1 == old(prevRep1) && prevRep2 == old(prevRep2)
      ensures RemCapRep !in bus.readFaults ==>
                var s := Smooth(Value(old(bus.regs), RemCapRep), old(prevRep1), old(prevRep2));
                prevRep1 == s.prev1 && prevRep2 == s.prev2
    {
      var rem := bus.Read(RemCapRep);
      if rem < 0 {
        return -1;
      }
      var s := Smooth(rem, prevRep1, prevRep2);
      prevRep1, prevRep2 := s.prev1, s.prev2;
      if s.write {
        var st := bus.Write(RemCapRep, ToU16(s.rep));
      }
      var full := bus.Read(FullCap);
      if full < 0 {
        return -1;
      }
      var socRep := bus.Read(SocRep);
      if socRep < 0 {
        return -1;
      }
      r := RemainCapResult(rem, full, socRep);
    }

    /** The range loop of `low_batt_compensation` for the current of `s`. */
    method SweepRanges(s: Sample)
      requires Valid()
      modifies lowBatt.cnt
      ensures lowBatt.Cells() == Sweep(old(lowBatt.Cells()), lowBatt.rows, lowBatt.cols, battery.lowBatteryTable, s,
                                       |battery.lowBatteryTable|)
    {
      var table := battery.lowBatteryTable;
      ghost var m0 := lowBatt.Cells();
      var i := 1;
      while i < |table|
        invariant 1 <= i && (i <= |table| || i == 1)
        invariant lowBatt.Cells() == Sweep(m0, lowBatt.rows, lowBatt.cols, table, s, Min(i, |table|))
      {
        SweepStep(i, s);
        i := i + 1;
      }
    }

    /** One iteration of the range loop: a hit in range `i` is counted, a
        matching range without a hit clears the counters. */
    method SweepStep(i: int, s: Sample)
      requires Valid() && 1 <= i < |battery.lowBatteryTable|
      modifies lowBatt.cnt
      ensures lowBatt.Cells() == Step(old(lowBatt.Cells()), lowBatt.rows, lowBatt.cols, battery.lowBatteryTable, i, s)
    {
      var table := battery.lowBatteryTable;
      if table[i - 1].range <= s.minCurrent < table[i].range {
        if s.soc >= 10 && s.vcell < Threshold(table[i], s.minCurrent) {
          lowBatt.Add(i, 1);
        } else {
          lowBatt.Reset();
        }
      }
    }

    /** The range loop, then the limit check, which clears the matrix when a
        counter has reached the limit. */
    method CountLowReadings(s: Sample) returns (reached: bool)
      requires Valid()
      modifies lowBatt.cnt
      ensures var swept := Sweep(old(lowBatt.Cells()), lowBatt.rows, lowBatt.cols, battery.lowBatteryTable, s,
                                 |battery.lowBatteryTable|);
              && reached == Reached(swept, lowBatt.maxCheck)
              && lowBatt.Cells() == if reached then Cleared(lowBatt.rows, lowBatt.cols) else swept
    {
      SweepRanges(s);
      var level;
      reached, level := lowBatt.CheckCondition(0);
      if reached {
        lowBatt.Reset();
      }
    }

    /** `low_batt_compensation`: at or under the compensation voltage, count
        against the smaller of the average and the given current, and when a
        counter reaches the limit clear them and read the SoC for the log;
        then the SOCREP read of `prevent_early_poweroff`, whose other
        effects are disabled. The SoC is returned unchanged. */
    method LowBattCompensation(fgSoc: int, fgVcell: int, fgCurrent: int) returns (r: int)
      requires Valid()
      modifies lowBatt.cnt, bus`trace
      ensures r == fgSoc
      ensures lowBatt.Cells()
                == Compensate(old(lowBatt.Cells()), lowBatt.rows, lowBatt.cols, battery.lowBatteryTable,
                              battery.lowBatteryCompVoltage, lowBatt.maxCheck,
                              Sample(fgSoc, fgVcell, Min(AvgCurrentReading(bus.regs, bus.readFaults, MilliAmp), fgCurrent)))
      ensures var sample := Sample(fgSoc, fgVcell, Min(AvgCurrentReading(bus.regs, bus.readFaults, MilliAmp), fgCurrent));
              var swept := Sweep(old(lowBatt.Cells()), lowBatt.rows, lowBatt.cols, battery.lowBatteryTable, sample,
                                 |battery.lowBatteryTable|);
              bus.trace == old(bus.trace)
                           + (if fgVcell <= battery.lowBatteryCompVoltage
                              then [Rd(AvgCurrent)] + (if Reached(swept, lowBatt.maxCheck) then [Rd(SocRep)] else [])
                              else [])
                           + [Rd(SocRep)]
    {
      if fgVcell <= battery.lowBatteryCompVoltage {
        var avg := ReadAvgCurrent(bus, MilliAmp);
        var reached := CountLowReadings(Sample(fgSoc, fgVcell, Min(avg, fgCurrent)));
        if reached {
          var logged := ReadSoc(bus, SocRep);
        }
      }
      var soc := ReadSoc(bus, SocRep);
      r := fgSoc;
    }

    /** `fuelgauge_recovery_handler`: one step of the alarm recovery; the
        result is the alarm flag afterwards. */
    method RecoveryHandler() returns (alarm: bool)
      modifies this`soc, this`isLowBattAlarm
      ensures AlarmState(soc, isLowBattAlarm) == RecoveryStep(AlarmState(old(soc), old(isLowBattAlarm)), tuning.reduceUnit)
      ensures alarm == isLowBattAlarm
    {
      if soc < tuning.reduceUnit {
        isLowBattAlarm := false;
      } else {
        soc := soc - tuning.reduceUnit;
      }
      alarm := isLowBattAlarm;
    }

    /** `sec_hal_fg_fuelalert_process`: read the SoC; unless charging, a jump
        beyond the threshold raises the alarm and, with at least one reduce
        unit of reported SoC left, ends there; otherwise a discharging
        battery's reported SoC drops to 0. The result is always true. */
    method FuelAlertProcess(status: ChargeStatus) returns (r: bool)
      modifies bus`trace, this`soc, this`isLowBattAlarm
      ensures r
      ensures bus.trace == old(bus.trace) + [Rd(SocRep)]
      ensures var current := SocReading(bus.regs, bus.readFaults, SocRep);
              var jump := status != Charging && SocJump(old(soc), current, tuning);
              && isLowBattAlarm == (old(isLowBattAlarm) || jump)
              && soc == (if status == Discharging && !(jump && old(soc) >= tuning.reduceUnit) then 0 else old(soc))
    {
      var current := ReadSoc(bus, SocRep);
      if status == Charging {
        return true;
      }
      var diff := soc - current;
      var limit := if diff <= tuning.stableDiff then tuning.stableDiffLowBatt else tuning.stableDiff;
      if diff > limit {
        isLowBattAlarm := true;
        if soc >= tuning.reduceUnit {
          return true;
        }
      }
      if status == Discharging {
        soc := 0;
      }
      r := true;
    }

    /** `sec_hal_fg_full_charged`: the pre-update compensation, then the
        delayed full-compensation work queued for 100 jiffies; false. */
    method FullCharged() returns (r: bool)
      modifies bus`regs, bus`trace, this`previousFuelcap, this`fullCompWork
      ensures !r && fullCompWork == Scheduled(100) && previousFuelcap == old(previousFuelcap)
      ensures var a := FullCapAction(old(bus.regs), bus.readFaults, battery.chargeCapacity, old(previousFuelcap));
              && bus.regs == (if a.Clamp? then Put(old(bus.regs), bus.writeFaults, FullCap, ToU16(a.target)) else old(bus.regs))
              && bus.trace == old(bus.trace) + [Rd(FullCap)] + (if a.Clamp? then [Wr(FullCap, ToU16(a.target))] else [])
    {
      FullChargedCompensation(true);
      fullCompWork := Scheduled(100);
      r := false;
    }

    /** `full_comp_work_handler`, the queued work firing: with an average
        current of 25 mA or more the work is queued again for 100 jiffies;
        otherwise (a failed read gives -1) the compensation runs, refreshes
        the previous value, and nothing is left pending. */
    method FullCompWorkHandler()
      modifies bus`regs, bus`trace, this`previousFuelcap, this`fullCompWork
      ensures var avg := AvgCurrentReading(old(bus.regs), bus.readFaults, MilliAmp);
              avg >= 25 ==> fullCompWork == Scheduled(100) && previousFuelcap == old(previousFuelcap)
                            && bus.regs == old(bus.regs) && bus.trace == old(bus.trace) + [Rd(AvgCurrent)]
      ensures var avg := AvgCurrentReading(old(bus.regs), bus.readFaults, MilliAmp);
              var a := FullCapAction(old(bus.regs), bus.readFaults, battery.chargeCapacity, old(previousFuelcap));
              avg < 25 ==>
                && fullCompWork == Idle
                && bus.regs == (if a.Clamp? then Put(old(bus.regs), bus.writeFaults, FullCap, ToU16(a.target)) else old(bus.regs))
                && bus.trace == old(bus.trace) + [Rd(AvgCurrent), Rd(FullCap)]
                                + (if a.Clamp? then [Wr(FullCap, ToU16(a.target))] else []) + [Rd(FullCap)]
                && previousFuelcap == ReadResult(bus.regs, bus.readFaults, FullCap)
    {
      fullCompWork := Idle;
      var avg := ReadAvgCurrent(bus, MilliAmp);
      if avg >= 25 {
        fullCompWork := Scheduled(100);
      } else {
        FullChargedCompensation(false);
      }
    }

    /** `get_fuelgauge_value`: dispatch on the kind. The read-only kinds read
        and decode their register; the temperature, the status check and
        the remaining-capacity percentage behave as their routines do; an
        unknown kind is -1 with no bus traffic. */
    method GetValue(kind: ValueKind) returns (v: int)
      requires kind.FgRawSoc? && RemCapRep !in bus.readFaults && FullCap !in bus.readFaults ==>
                 Value(bus.regs, FullCap) > 0
      modifies bus`regs, bus`trace, this`prevRep1, this`prevRep2
      ensures ReadOnlyKind(kind) ==>
                && ReadOnlyOutcome(kind, bus.readFaults, bus.regs, old(bus.trace), v, bus.trace)
                && unchanged(bus`regs, this`prevRep1, this`prevRep2)
      ensures !ReadOnlyKind(kind) ==>
                StatefulOutcome(kind, bus.readFaults, bus.writeFaults,
                                old(bus.regs), old(bus.trace), old(prevRep1), old(prevRep2),
                                v, bus.regs, bus.trace, prevRep1, prevRep2)
    {
      if ReadOnlyKind(kind) {
        v := ReadOnlyDispatch(bus, kind);
      } else {
        v := StatefulValue(kind);
      }
    }

    /** The kinds of `get_fuelgauge_value` whose routines write to the chip
        or the driver state, and the unknown kind. */
    method StatefulValue(kind: ValueKind) returns (v: int)
      requires !ReadOnlyKind(kind)
      requires kind.FgRawSoc? && RemCapRep !in bus.readFaults && FullCap !in bus.readFaults ==>
                 Value(bus.regs, FullCap) > 0
      modifies bus`regs, bus`trace, this`prevRep1, this`prevRep2
      ensures StatefulOutcome(kind, bus.readFaults, bus.writeFaults,
                              old(bus.regs), old(bus.trace), old(prevRep1), old(prevRep2),
                              v, bus.regs, bus.trace, prevRep1, prevRep2)
    {
      if kind.FgTemperature? {
        v := ReadTemperature(bus);
      } else if kind.FgCheckStatus? {
        v := CheckStatusReg(bus);
      } else if kind.FgRawSoc? {
        v := ReadRemainCapPercent();
      } else {
        v := -1;
      }
    }

    /** `sec_hal_fg_is_fuelalerted`: the status check through the value
        dispatch; true exactly when STATUS was read and written back with
        its alert bit set, which the write-back then clears. */
    method IsFuelAlerted() returns (alerted: bool)
      modifies bus`regs, bus`trace, this`prevRep1, this`prevRep2
      ensures alerted <==> Status !in bus.readFaults && Status !in bus.writeFaults
                           && AlertBit(Value(old(bus.regs), Status))
      ensures alerted ==> !AlertBit(Value(bus.regs, Status))
      ensures prevRep1 == old(prevRep1) && prevRep2 == old(prevRep2)
    {
      var v := GetValue(FgCheckStatus);
      alerted := v > 0;
      if Status !in bus.readFaults {
        ClearHighByteClearsAlert(Value(old(bus.regs), Status));
      }
    }

    /** `sec_hal_fg_reset`: true exactly when `fg_reset_soc` returned 0,
        which it always does without a jig and, with one, when MISCCFG was
        read and written back. */
    method Reset(jig: bool) returns (ok: bool)
      modifies bus`regs, bus`trace
      ensures ok <==> !jig || (MiscCfg !in bus.readFaults && MiscCfg !in bus.writeFaults)
      ensures !jig ==> bus.regs == old(bus.regs)
    {
      var ret := ResetSoc(jig);
      ok := ret == 0;
    }
  }
}
