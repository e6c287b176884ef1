/** The driver's register-level routines: the readers that fetch one
    register and decode it, the status check, the alert set-up, the
    write-and-verify helper, and the fixed application-register program
    shared by the initialisation and reset sequences. Each reader returns -1
    when a bus transaction it depends on fails. */
module Telemetry {
  import opened Registers
  import opened Codec

  // ------------------------------------------------------- reading results

  /** `fg_read_vcell`, `fg_read_vfocv`, `fg_read_avg_vcell`: mV, or -1. */
  function VoltageReading(regs: map<Reg, Word>, rf: set<Reg>, r: Reg): int
  {
    if r in rf then -1 else DecodeVoltage(Value(regs, r))
  }

  /** `fg_read_soc` (SOCREP), `fg_read_avsoc` (SOCAV), `fg_read_vfsoc`
      (VFSOC): 0.1 %, or -1. */
  function SocReading(regs: map<Reg, Word>, rf: set<Reg>, r: Reg): int
  {
    if r in rf then -1 else DecodeSoc(Value(regs, r))
  }

  /** `fg_read_rawsoc`: SOCREP in 0.01 %, or -1. */
  function RawSocReading(regs: map<Reg, Word>, rf: set<Reg>): int
  {
    if SocRep in rf then -1 else DecodeRawSoc(Value(regs, SocRep))
  }

  /** `fg_read_fullcap`, `fg_read_mixcap`, `fg_read_avcap`,
      `fg_read_repcap`: the raw capacity word, or -1. */
  function CapacityReading(regs: map<Reg, Word>, rf: set<Reg>, r: Reg): int
  {
    if r in rf then -1 else DecodeCapacity(Value(regs, r))
  }

  /** `fg_read_avg_current`: AVG_CURRENT, or -1. */
  function AvgCurrentReading(regs: map<Reg, Word>, rf: set<Reg>, unit: CurrentUnit): int
  {
    if AvgCurrent in rf then -1 else DecodeCurrent(Value(regs, AvgCurrent), unit)
  }

  /** `fg_read_current`: CURRENT, or -1; AVG_CURRENT is read as well (its
      value is only logged) and its failure also yields -1. */
  function CurrentReading(regs: map<Reg, Word>, rf: set<Reg>, unit: CurrentUnit): int
  {
    if Current in rf || AvgCurrent in rf then -1 else DecodeCurrent(Value(regs, Current), unit)
  }

  /** The reads `fg_read_current` issues: it stops after a failed CURRENT read. */
  function CurrentReads(rf: set<Reg>): seq<Event>
  {
    if Current in rf then [Rd(Current)] else [Rd(Current), Rd(AvgCurrent)]
  }

  /** `fg_read_temp`: STATUS is cleared first, and a failure of that write
      or of the TEMPERATURE read yields -1. */
  function TemperatureReading(regs: map<Reg, Word>, rf: set<Reg>, wf: set<Reg>): int
  {
    if Status in wf || Temperature in rf then -1 else DecodeTemperature(Value(regs, Temperature))
  }

  /** The transactions `fg_read_temp` issues. */
  function TemperatureEvents(wf: set<Reg>): seq<Event>
  {
    if Status in wf then [Wr(Status, 0)] else [Wr(Status, 0), Sleep(250), Rd(Temperature)]
  }

  /** Every decoded voltage, state of charge, capacity and temperature is
      non-negative, so -1 from those readers always means an I/O failure. */
  lemma FailureDistinguishable(regs: map<Reg, Word>, rf: set<Reg>, wf: set<Reg>, r: Reg)
    ensures VoltageReading(regs, rf, r) == -1 <==> r in rf
    ensures SocReading(regs, rf, r) == -1 <==> r in rf
    ensures RawSocReading(regs, rf) == -1 <==> SocRep in rf
    ensures CapacityReading(regs, rf, r) == -1 <==> r in rf
    ensures TemperatureReading(regs, rf, wf) == -1 <==> (Status in wf || Temperature in rf)
  {
    var w := Value(regs, Temperature);
    if w < 0x8000 {
      TemperaturePositiveRange(w, w);
    } else {
      TemperatureSignLost(w);
    }
  }

  /** The current readers are different: a genuine reading of -1 mA (word
      0xFFF9, 7 steps of discharge) cannot be told apart from a failure. */
  lemma CurrentFailureAmbiguous()
    ensures AvgCurrentReading(map[AvgCurrent := 0xFFF9], {}, MilliAmp) == -1
    ensures AvgCurrentReading(map[AvgCurrent := 0xFFF9], {AvgCurrent}, MilliAmp) == -1
  {
  }

  // ------------------------------------------------------------- readers

  /** One voltage register. */
  method ReadVoltage(bus: Bus, r: Reg) returns (mv: int)
    modifies bus`trace
    ensures mv == VoltageReading(bus.regs, bus.readFaults, r)
    ensures bus.trace == old(bus.trace) + [Rd(r)]
  {
    var v := bus.Read(r);
    if v == -1 {
      return -1;
    }
    mv := DecodeVoltage(v);
  }

  /** One state-of-charge register in 0.1 %. */
  method ReadSoc(bus: Bus, r: Reg) returns (soc: int)
    modifies bus`trace
    ensures soc == SocReading(bus.regs, bus.readFaults, r)
    ensures bus.trace == old(bus.trace) + [Rd(r)]
  {
    var v := bus.Read(r);
    if v == -1 {
      return -1;
    }
    soc := DecodeSoc(v);
  }

  /** SOCREP in 0.01 %. */
  method ReadRawSoc(bus: Bus) returns (soc: int)
    modifies bus`trace
    ensures soc == RawSocReading(bus.regs, bus.readFaults)
    ensures bus.trace == old(bus.trace) + [Rd(SocRep)]
  {
    var v := bus.Read(SocRep);
    if v == -1 {
      return -1;
    }
    soc := DecodeRawSoc(v);
  }

  /** One capacity register, raw. */
  method ReadCapacity(bus: Bus, r: Reg) returns (cap: int)
    modifies bus`trace
    ensures cap == CapacityReading(bus.regs, bus.readFaults, r)
    ensures bus.trace == old(bus.trace) + [Rd(r)]
  {
    var v := bus.Read(r);
    if v == -1 {
      return -1;
    }
    cap := DecodeCapacity(v);
  }

  /** `fg_read_current`. */
  method ReadCurrent(bus: Bus, unit: CurrentUnit) returns (current: int)
    modifies bus`trace
    ensures current == CurrentReading(bus.regs, bus.readFaults, unit)
    ensures bus.trace == old(bus.trace) + CurrentReads(bus.readFaults)
  {
    var now := bus.Read(Current);
    if now == -1 {
      return -1;
    }
    var avg := bus.Read(AvgCurrent);
    if avg == -1 {
      return -1;
    }
    current := DecodeCurrent(now, unit);
  }

  /** `fg_read_avg_current`. */
  method ReadAvgCurrent(bus: Bus, unit: CurrentUnit) returns (current: int)
    modifies bus`trace
    ensures current == AvgCurrentReading(bus.regs, bus.readFaults, unit)
    ensures bus.trace == old(bus.trace) + [Rd(AvgCurrent)]
  {
    var avg := bus.Read(AvgCurrent);
    if avg == -1 {
      return -1;
    }
    current := DecodeCurrent(avg, unit);
  }

  /** `fg_read_temp`: clear STATUS, wait 250 ms, read TEMPERATURE. */
  method ReadTemperature(bus: Bus) returns (temp: int)
    modifies bus`regs, bus`trace
    ensures temp == TemperatureReading(old(bus.regs), bus.readFaults, bus.writeFaults)
    ensures bus.regs == Put(old(bus.regs), bus.writeFaults, Status, 0)
    ensures bus.trace == old(bus.trace) + TemperatureEvents(bus.writeFaults)
  {
    var st := bus.Write(Status, 0);
    if st == -1 {
      return -1;
    }
    bus.Delay(250);
    var v := bus.Read(Temperature);
    if v == -1 {
      return -1;
    }
    temp := DecodeTemperature(v);
  }

  // -------------------------------------------------------------- status

  /** Bit 10 of STATUS (bit 2 of its high byte): the SoC-alert flag. */
  predicate AlertBit(w: Word)
    ensures AlertBit(w) ==> w >= 0x400
  {
    (w / 0x400) % 2 == 1
  }

  /** Bit 1 of STATUS (bit 1 of its low byte): the power-on-reset flag. */
  predicate PorBit(w: Word)
    ensures PorBit(w) ==> Lo(w) >= 2
  {
    (Lo(w) / 2) % 2 == 1
  }

  /** Testing bit 2 of the high byte is testing word bit 10. */
  lemma AlertBitIsHighByteBit2(w: Word)
    ensures AlertBit(w) <==> (Hi(w) / 4) % 2 == 1
  {
  }

  /** The high byte zeroed: what the status check writes back. */
  function ClearHighByte(w: Word): (r: Word)
    ensures r == Lo(w) && r < 0x100
  {
    MakeWord(0, Lo(w))
  }

  /** Zeroing the high byte keeps the low byte and clears the alert flag. */
  lemma ClearHighByteClearsAlert(w: Word)
    ensures Hi(ClearHighByte(w)) == 0 && Lo(ClearHighByte(w)) == Lo(w)
    ensures !AlertBit(ClearHighByte(w))
  {
  }

  /** `fg_check_status_reg`: 1 when the SoC alert fired, 0 when not, -1 on a
      failed read or write-back; after a read, the high byte of STATUS is
      written back as zero, which clears the alert. */
  method CheckStatusReg(bus: Bus) returns (ret: int)
    modifies bus`regs, bus`trace
    ensures Status in bus.readFaults ==>
              ret == -1 && bus.regs == old(bus.regs) && bus.trace == old(bus.trace) + [Rd(Status)]
    ensures Status !in bus.readFaults ==>
              var w := Value(old(bus.regs), Status);
              && bus.regs == Put(old(bus.regs), bus.writeFaults, Status, ClearHighByte(w))
              && bus.trace == old(bus.trace) + [Rd(Status), Wr(Status, ClearHighByte(w))]
              && ret == (if Status in bus.writeFaults then -1 else if AlertBit(w) then 1 else 0)
    ensures ret != -1 ==> !AlertBit(Value(bus.regs, Status))
  {
    var w := bus.Read(Status);
    if w == -1 {
      return -1;
    }
    ret := 0;
    AlertBitIsHighByteBit2(w);
    if (Hi(w) / 4) % 2 == 1 {
      ret := 1;
    }
    var st := bus.Write(Status, ClearHighByte(w));
    if st == -1 {
      return -1;
    }
    ClearHighByteClearsAlert(w);
  }

  // ---------------------------------------------------------- alert set-up

  /** MISCCFG with bits 0 and 1 of the low byte cleared (SoC alerts follow
      RepSOC); the low byte is the low end of the word, so this clears word
      bits 0 and 1. */
  function ClearLowBits01(w: Word): Word
  {
    w - w % 4
  }

  /** CONFIG with bit 2 of the low byte (alert enable) set. */
  function SetBit2(w: Word): Word
  {
    if (w / 4) % 2 == 1 then w else w + 4
  }

  /** SALRT: maximum threshold byte 0xFF (disabled), minimum threshold the
      low byte of `soc` (the `u8` assignment). */
  function SAlrtWord(soc: int): Word
  {
    MakeWord(0xFF, soc % 0x100)
  }

  /** Clearing bits 0 and 1 keeps the high byte and the rest of the low byte. */
  lemma ClearLowBits01Bits(w: Word)
    ensures Hi(ClearLowBits01(w)) == Hi(w) && Lo(ClearLowBits01(w)) % 4 == 0
    ensures Lo(ClearLowBits01(w)) / 4 == Lo(w) / 4
  {
    var hi: int, lo: int := Hi(w), Lo(w);
    ByteSplit(w, hi, lo);
    LowByteBits(lo);
    assert ClearLowBits01(w) == hi * 0x100 + (lo - lo % 4);
    WordBytesRoundTrip(ClearLowBits01(w), hi, lo - lo % 4);
  }

  /** Setting bit 2 keeps the high byte and the other low-byte bits. */
  lemma SetBit2Bits(w: Word)
    ensures Hi(SetBit2(w)) == Hi(w) && (Lo(SetBit2(w)) / 4) % 2 == 1
    ensures Lo(SetBit2(w)) % 4 == Lo(w) % 4 && Lo(SetBit2(w)) / 8 == Lo(w) / 8
  {
    var hi: int, lo: int := Hi(w), Lo(w);
    ByteSplit(w, hi, lo);
    LowByteBits(lo);
    var set2 := if (lo / 4) % 2 == 1 then lo else lo + 4;
    assert SetBit2(w) == hi * 0x100 + set2;
    WordBytesRoundTrip(SetBit2(w), hi, set2);
  }

  /** The SoC threshold word: maximum byte 0xFF, minimum byte `soc`. */
  lemma SAlrtWordBytes(soc: int)
    ensures Hi(SAlrtWord(soc)) == 0xFF
    ensures 0 <= soc < 0x100 ==> Lo(SAlrtWord(soc)) == soc
  {
    WordBytesRoundTrip(SAlrtWord(soc), 0xFF, soc % 0x100);
  }

  lemma ByteSplit(w: Word, hi: int, lo: int)
    requires hi == Hi(w) && lo == Lo(w)
    ensures w == hi * 0x100 + lo
    ensures w % 4 == lo % 4 && (w / 4) % 2 == (lo / 4) % 2
  {
    var q := lo / 4;
    DivModUnique(w, 4, hi * 64 + q, lo % 4);
    DivModUnique(hi * 64 + q, 2, hi * 32 + q / 2, q % 2);
  }

  lemma LowByteBits(lo: Byte)
    ensures (lo - lo % 4) % 4 == 0 && (lo - lo % 4) / 4 == lo / 4
    ensures (lo / 4) % 2 == 0 ==> lo + 4 < 0x100 && ((lo + 4) / 4) % 2 == 1
    ensures (lo / 4) % 2 == 0 ==> (lo + 4) % 4 == lo % 4 && (lo + 4) / 8 == lo / 8
  {
  }
  /** Whether every transaction `fg_alert_init` checks succeeds; the two
      read-backs are only compared and logged, so they cannot fail it. */
  predicate AlertInitSucceeds(rf: set<Reg>, wf: set<Reg>)
  {
    MiscCfg !in rf && MiscCfg !in wf && ThresholdWritesSucceed(wf) && Config !in rf && Config !in wf
  }

  predicate ThresholdWritesSucceed(wf: set<Reg>)
  {
    SAlrtThreshold !in wf && VAlrtThreshold !in wf && TAlrtThreshold !in wf
  }

  /** The registers `fg_alert_init` may write. */
  predicate AlertInitTouches(r: Reg)
  {
    r == MiscCfg || r == SAlrtThreshold || r == VAlrtThreshold || r == TAlrtThreshold || r == Config
  }

  /** The register file after a successful `fg_alert_init`. */
  function AlertRegisters(regs: map<Reg, Word>, soc: int): map<Reg, Word>
  {
    regs[MiscCfg := ClearLowBits01(Value(regs, MiscCfg))][SAlrtThreshold := SAlrtWord(soc)]
        [VAlrtThreshold := 0xFF00][TAlrtThreshold := 0x7F80][Config := SetBit2(Value(regs, Config))]
  }

  /** After a successful set-up, SoC alerts follow RepSOC (MISCCFG bits 0
      and 1 clear), the SoC threshold holds `soc` as its minimum byte, the
      voltage and temperature thresholds are at their disabled values, and
      CONFIG has the alert-enable bit set; every other bit of MISCCFG and
      CONFIG is kept. */
  lemma {:induction false} AlertRegistersProgrammed(regs: map<Reg, Word>, soc: int)
    requires 0 <= soc < 0x100
    ensures var a := AlertRegisters(regs, soc);
            && Lo(Value(a, MiscCfg)) % 4 == 0 && Lo(Value(a, MiscCfg)) / 4 == Lo(Value(regs, MiscCfg)) / 4
            && Hi(Value(a, MiscCfg)) == Hi(Value(regs, MiscCfg))
            && Hi(Value(a, SAlrtThreshold)) == 0xFF && Lo(Value(a, SAlrtThreshold)) == soc
            && Value(a, VAlrtThreshold) == 0xFF00 && Value(a, TAlrtThreshold) == 0x7F80
            && (Lo(Value(a, Config)) / 4) % 2 == 1 && Hi(Value(a, Config)) == Hi(Value(regs, Config))
            && Lo(Value(a, Config)) % 4 == Lo(Value(regs, Config)) % 4
            && Lo(Value(a, Config)) / 8 == Lo(Value(regs, Config)) / 8
  {
    ClearLowBits01Bits(Value(regs, MiscCfg));
    SAlrtWordBytes(soc);
    SetBit2Bits(Value(regs, Config));
  }

  /** The first step of `fg_alert_init`: SoC alerts follow RepSOC, by
      clearing bits 0 and 1 of MISCCFG. */
  method SelectRepSoc(bus: Bus) returns (ret: int)
    modifies bus`regs, bus`trace
    ensures MiscCfg in bus.readFaults ==>
              ret == -1 && bus.regs == old(bus.regs) && bus.trace == old(bus.trace) + [Rd(MiscCfg)]
    ensures MiscCfg !in bus.readFaults ==>
              var w := ClearLowBits01(Value(old(bus.regs), MiscCfg));
              && bus.regs == Put(old(bus.regs), bus.writeFaults, MiscCfg, w)
              && bus.trace == old(bus.trace) + [Rd(MiscCfg), Wr(MiscCfg, w)]
              && ret == (if MiscCfg in bus.writeFaults then -1 else 0)
  {
    var misc := bus.Read(MiscCfg);
    if misc == -1 {
      return -1;
    }
    var st := bus.Write(MiscCfg, ClearLowBits01(misc));
    if st == -1 {
      return -1;
    }
    ret := 0;
  }

  /** The registers after the threshold step: the writes in order, up to
      and including the first one that fails. */
  function ThresholdRegs(regs: map<Reg, Word>, wf: set<Reg>, soc: int): map<Reg, Word>
  {
    var r1 := Put(regs, wf, SAlrtThreshold, SAlrtWord(soc));
    var r2 := Put(r1, wf, VAlrtThreshold, 0xFF00);
    if SAlrtThreshold in wf then r1
    else if VAlrtThreshold in wf then r2
    else Put(r2, wf, TAlrtThreshold, 0x7F80)
  }

  /** The traffic of the threshold step: it ends with the first failing
      write; the read-backs follow the VALRT and TALRT writes. */
  function ThresholdEvents(wf: set<Reg>, soc: int): seq<Event>
  {
    var e1 := [Wr(SAlrtThreshold, SAlrtWord(soc))];
    var e2 := e1 + [Wr(VAlrtThreshold, 0xFF00)];
    if SAlrtThreshold in wf then e1
    else if VAlrtThreshold in wf then e2
    else if TAlrtThreshold in wf then e2 + [Rd(VAlrtThreshold), Wr(TAlrtThreshold, 0x7F80)]
    else e2 + [Rd(VAlrtThreshold), Wr(TAlrtThreshold, 0x7F80), Rd(TAlrtThreshold)]
  }

  /** The threshold step of `fg_alert_init`: the SoC threshold, then the
      voltage and temperature thresholds set to their disabled values, each
      read back for the log only; the step stops at the first failed write. */
  method SetThresholds(bus: Bus, soc: int) returns (ret: int)
    modifies bus`regs, bus`trace
    ensures ret == 0 || ret == -1
    ensures ret == 0 <==> ThresholdWritesSucceed(bus.writeFaults)
    ensures forall r :: r != SAlrtThreshold && r != VAlrtThreshold && r != TAlrtThreshold ==>
              Value(bus.regs, r) == Value(old(bus.regs), r)
    ensures bus.regs == ThresholdRegs(old(bus.regs), bus.writeFaults, soc)
    ensures bus.trace == old(bus.trace) + ThresholdEvents(bus.writeFaults, soc)
    ensures ret == 0 ==>
              && bus.regs == old(bus.regs)[SAlrtThreshold := SAlrtWord(soc)][VAlrtThreshold := 0xFF00][TAlrtThreshold := 0x7F80]
              && bus.trace == old(bus.trace) + [Wr(SAlrtThreshold, SAlrtWord(soc)), Wr(VAlrtThreshold, 0xFF00),
                                                Rd(VAlrtThreshold), Wr(TAlrtThreshold, 0x7F80), Rd(TAlrtThreshold)]
  {
    var st := bus.Write(SAlrtThreshold, SAlrtWord(soc));
    if st == -1 {
      return -1;
    }
    st := bus.Write(VAlrtThreshold, 0xFF00);
    if st == -1 {
      return -1;
    }
    var readBack := bus.Read(VAlrtThreshold);
    st := bus.Write(TAlrtThreshold, 0x7F80);
    if st == -1 {
      return -1;
    }
    readBack := bus.Read(TAlrtThreshold);
    ret := 0;
  }

  /** The last step of `fg_alert_init`: set the alert-enable bit of CONFIG. */
  method EnableSocAlert(bus: Bus) returns (ret: int)
    modifies bus`regs, bus`trace
    ensures Config in bus.readFaults ==>
              ret == -1 && bus.regs == old(bus.regs) && bus.trace == old(bus.trace) + [Rd(Config)]
    ensures Config !in bus.readFaults ==>
              var w := SetBit2(Value(old(bus.regs), Config));
              && bus.regs == Put(old(bus.regs), bus.writeFaults, Config, w)
              && bus.trace == old(bus.trace) + [Rd(Config), Wr(Config, w)]
              && ret == (if Config in bus.writeFaults then -1 else 0)
  {
    var config := bus.Read(Config);
    if config == -1 {
      return -1;
    }
    var st := bus.Write(Config, SetBit2(config));
    if st == -1 {
      return -1;
    }
    ret := 0;
  }

  /** The registers after `fg_alert_init`: each step's writes, up to and
      including the first failed transaction. */
  function AlertInitRegs(regs: map<Reg, Word>, rf: set<Reg>, wf: set<Reg>, soc: int): map<Reg, Word>
  {
    if MiscCfg in rf || MiscCfg in wf then regs
    else
      var r2 := ThresholdRegs(regs[MiscCfg := ClearLowBits01(Value(regs, MiscCfg))], wf, soc);
      if !ThresholdWritesSucceed(wf) || Config in rf then r2
      else Put(r2, wf, Config, SetBit2(Value(regs, Config)))
  }

  /** The traffic of `fg_alert_init`: it ends with the first failed
      transaction. */
  function AlertInitEvents(regs: map<Reg, Word>, rf: set<Reg>, wf: set<Reg>, soc: int): seq<Event>
  {
    if MiscCfg in rf then [Rd(MiscCfg)]
    else
      var e1 := [Rd(MiscCfg), Wr(MiscCfg, ClearLowBits01(Value(regs, MiscCfg)))];
      if MiscCfg in wf then e1
      else if !ThresholdWritesSucceed(wf) then e1 + ThresholdEvents(wf, soc)
      else if Config in rf then e1 + ThresholdEvents(wf, soc) + [Rd(Config)]
      else e1 + ThresholdEvents(wf, soc) + [Rd(Config), Wr(Config, SetBit2(Value(regs, Config)))]
  }

  /** `fg_alert_init(soc)`: program the alert thresholds and enable alerts;
      1 when every checked transaction succeeds, otherwise -1 at the first
      failure, with nothing issued after it. */
  method AlertInit(bus: Bus, soc: int) returns (ret: int)
    modifies bus`regs, bus`trace
    ensures ret == 1 || ret == -1
    ensures ret == 1 <==> AlertInitSucceeds(bus.readFaults, bus.writeFaults)
    ensures forall r :: !AlertInitTouches(r) ==> Value(bus.regs, r) == Value(old(bus.regs), r)
    ensures bus.regs == AlertInitRegs(old(bus.regs), bus.readFaults, bus.writeFaults, soc)
    ensures bus.trace == old(bus.trace) + AlertInitEvents(old(bus.regs), bus.readFaults, bus.writeFaults, soc)
    ensures MiscCfg in bus.readFaults ==> bus.regs == old(bus.regs) && bus.trace == old(bus.trace) + [Rd(MiscCfg)]
    ensures ret == 1 ==> bus.regs == AlertRegisters(old(bus.regs), soc)
    ensures ret == 1 ==>
              bus.trace == old(bus.trace)
                           + [Rd(MiscCfg), Wr(MiscCfg, ClearLowBits01(Value(old(bus.regs), MiscCfg)))]
                           + [Wr(SAlrtThreshold, SAlrtWord(soc)), Wr(VAlrtThreshold, 0xFF00),
                              Rd(VAlrtThreshold), Wr(TAlrtThreshold, 0x7F80), Rd(TAlrtThreshold)]
                           + [Rd(Config), Wr(Config, SetBit2(Value(old(bus.regs), Config)))]
  {
    ghost var r0, t0 := bus.regs, bus.trace;
    AlertInitRegsFrame(r0, bus.readFaults, bus.writeFaults, soc);
    if AlertInitSucceeds(bus.readFaults, bus.writeFaults) {
      AlertInitSuccess(r0, bus.readFaults, bus.writeFaults, soc);
    }
    ret := SelectRepSoc(bus);
    if ret == -1 {
      return -1;
    }
    ghost var e1 := [Rd(MiscCfg), Wr(MiscCfg, ClearLowBits01(Value(r0, MiscCfg)))];
    ret := SetThresholds(bus, soc);
    if ret == -1 {
      Appended(t0, e1, ThresholdEvents(bus.writeFaults, soc));
      return -1;
    }
    ghost var e2 := e1 + ThresholdEvents(bus.writeFaults, soc);
    Appended(t0, e1, ThresholdEvents(bus.writeFaults, soc));
    ret := EnableSocAlert(bus);
    if ret == -1 {
      if Config in bus.readFaults {
        Appended(t0, e2, [Rd(Config)]);
      } else {
        Appended(t0, e2, [Rd(Config), Wr(Config, SetBit2(Value(r0, Config)))]);
      }
      return -1;
    }
    Appended(t0, e2, [Rd(Config), Wr(Config, SetBit2(Value(r0, Config)))]);
    ret := 1;
  }

  /** Only the alert registers can change, whatever fails. */
  lemma AlertInitRegsFrame(regs: map<Reg, Word>, rf: set<Reg>, wf: set<Reg>, soc: int)
    ensures forall r :: !AlertInitTouches(r) ==> Value(AlertInitRegs(regs, rf, wf, soc), r) == Value(regs, r)
  {
  }

  /** When every checked transaction succeeds, the set-up leaves the
      programmed alert registers, after the full sequence of transfers. */
  lemma AlertInitSuccess(regs: map<Reg, Word>, rf: set<Reg>, wf: set<Reg>, soc: int)
    requires AlertInitSucceeds(rf, wf)
    ensures AlertInitRegs(regs, rf, wf, soc) == AlertRegisters(regs, soc)
    ensures AlertInitEvents(regs, rf, wf, soc)
              == [Rd(MiscCfg), Wr(MiscCfg, ClearLowBits01(Value(regs, MiscCfg)))]
                 + [Wr(SAlrtThreshold, SAlrtWord(soc)), Wr(VAlrtThreshold, 0xFF00),
                    Rd(VAlrtThreshold), Wr(TAlrtThreshold, 0x7F80), Rd(TAlrtThreshold)]
                 + [Rd(Config), Wr(Config, SetBit2(Value(regs, Config)))]
  {
  }

  // ----------------------------------------------------- write and verify

  /** What the read-back in `fg_write_and_verify_register` sees: the read
      result stored in a `u16`, so a failed read compares as 0xFFFF. */
  function ReadBack(regs: map<Reg, Word>, rf: set<Reg>, r: Reg): Word
  {
    ToU16(ReadResult(regs, rf, r))
  }

  /** `fg_write_and_verify_register`: write, read back, and try once more on
      a mismatch. With faults that persist, the second attempt sees what the
      first saw, so the register ends as one write leaves it. */
  method WriteAndVerify(bus: Bus, r: Reg, w: Word)
    modifies bus`regs, bus`trace
    ensures bus.regs == Put(old(bus.regs), bus.writeFaults, r, w)
    ensures var verified := ReadBack(bus.regs, bus.readFaults, r) == w;
            bus.trace == old(bus.trace) + (if verified then [Wr(r, w), Rd(r)] else [Wr(r, w), Rd(r), Wr(r, w), Rd(r)])
  {
    ghost var regs0, trace0 := bus.regs, bus.trace;
    ghost var after := Put(regs0, bus.writeFaults, r, w);
    PutIdempotent(regs0, bus.writeFaults, r, w);
    var retry := 2;
    while retry > 0
      invariant 0 <= retry <= 2
      invariant retry == 2 ==> bus.regs == regs0 && bus.trace == trace0
      invariant retry < 2 ==> bus.regs == after && ReadBack(after, bus.readFaults, r) != w
      invariant retry == 1 ==> bus.trace == trace0 + [Wr(r, w), Rd(r)]
      invariant retry == 0 ==> bus.trace == trace0 + [Wr(r, w), Rd(r), Wr(r, w), Rd(r)]
      decreases retry
    {
      var st := bus.Write(r, w);
      var v := bus.Read(r);
      var readData := ToU16(v);
      if readData != w {
        retry := retry - 1;
      } else {
        assert retry == 2;
        break;
      }
    }
  }

  /** A failed read-back passes verification exactly when the word written
      is 0xFFFF. */
  lemma FailedReadBackMatchesAllOnes(regs: map<Reg, Word>, rf: set<Reg>, r: Reg, w: Word)
    requires r in rf
    ensures ReadBack(regs, rf, r) == w <==> w == 0xFFFF
  {
  }

  // ------------------------------------------------- application registers

  /** CONFIG as programmed at the end of initialisation and reset: 0x2100
      when the temperature does not come from the fuel gauge, else 0x0230. */
  function ConfigWord(thermalSourceFg: bool): Word
  {
    if thermalSourceFg then 0x0230 else 0x2100
  }

  /** The fixed register program: DESIGNCAP, ATRATE = 0, FULLSOCTHR = 0x5F00
      (95 %), ICHGTERM = 0x03C0, and STATUS = 0, in that order. */
  function ApplicationWrites(design: Word): seq<Event>
  {
    [Wr(DesignCap, design), Wr(AtRate, 0), Wr(FullSocThr, 0x5F00), Wr(IChgTerm, 0x03C0), Wr(Status, 0)]
  }

  /** The register file after the program; failed writes are ignored. */
  function ApplicationRegisters(regs: map<Reg, Word>, wf: set<Reg>, design: Word): map<Reg, Word>
  {
    Put(Put(Put(Put(Put(regs, wf, DesignCap, design), wf, AtRate, 0), wf, FullSocThr, 0x5F00), wf, IChgTerm, 0x03C0), wf, Status, 0)
  }

  /** The registers the program writes. */
  predicate ApplicationRegister(r: Reg)
  {
    r == DesignCap || r == AtRate || r == FullSocThr || r == IChgTerm || r == Status
  }

  /** Every programmed register whose write succeeds holds its value. */
  lemma ApplicationRegistersProgrammed(regs: map<Reg, Word>, wf: set<Reg>, design: Word)
    ensures var a := ApplicationRegisters(regs, wf, design);
            && (DesignCap !in wf ==> Value(a, DesignCap) == design)
            && (AtRate !in wf ==> Value(a, AtRate) == 0)
            && (FullSocThr !in wf ==> Value(a, FullSocThr) == 0x5F00)
            && (IChgTerm !in wf ==> Value(a, IChgTerm) == 0x03C0)
            && (Status !in wf ==> Value(a, Status) == 0)
  {
  }

  /** Every register the program does not write, or whose write fails,
      keeps its value. */
  lemma ApplicationRegistersFrame(regs: map<Reg, Word>, wf: set<Reg>, design: Word)
    ensures forall r :: !ApplicationRegister(r) || r in wf ==>
              Value(ApplicationRegisters(regs, wf, design), r) == Value(regs, r)
  {
  }

  /** Running the program twice leaves the registers as running it once does. */
  lemma {:induction false} ApplicationRegistersIdempotent(regs: map<Reg, Word>, wf: set<Reg>, design: Word)
    ensures ApplicationRegisters(ApplicationRegisters(regs, wf, design), wf, design)
              == ApplicationRegisters(regs, wf, design)
  {
    var a := ApplicationRegisters(regs, wf, design);
    ApplicationRegistersProgrammed(regs, wf, design);
    PutSame(a, wf, DesignCap, design);
    PutSame(a, wf, AtRate, 0);
    PutSame(a, wf, FullSocThr, 0x5F00);
    PutSame(a, wf, IChgTerm, 0x03C0);
    PutSame(a, wf, Status, 0);
  }

  /** Writing the word a register already holds changes nothing. */
  lemma PutSame(regs: map<Reg, Word>, wf: set<Reg>, r: Reg, w: Word)
    requires r !in wf ==> r in regs && regs[r] == w
    ensures Put(regs, wf, r, w) == regs
  {
  }

  /** The program, written in order with each status ignored. */
  method WriteApplicationRegisters(bus: Bus, design: Word)
    modifies bus`regs, bus`trace
    ensures bus.regs == ApplicationRegisters(old(bus.regs), bus.writeFaults, design)
    ensures bus.trace == old(bus.trace) + ApplicationWrites(design)
  {
    var st := bus.Write(DesignCap, design);
    st := bus.Write(AtRate, 0);
    st := bus.Write(FullSocThr, 0x5F00);
    st := bus.Write(IChgTerm, 0x03C0);
    st := bus.Write(Status, 0);
  }

  /** `fg_reset_capacity_by_jig_connection`: DESIGNCAP := design capacity;
      0, or -1 when the write fails. Calling it twice leaves what calling it
      once leaves (see `PutIdempotent`). */
  method ResetCapacityByJig(bus: Bus, design: Word) returns (status: int)
    modifies bus`regs, bus`trace
    ensures bus.regs == Put(old(bus.regs), bus.writeFaults, DesignCap, design)
    ensures status == (if DesignCap in bus.writeFaults then -1 else 0)
    ensures bus.trace == old(bus.trace) + [Wr(DesignCap, design)]
  {
    status := bus.Write(DesignCap, design);
  }
}
