/** The capacity-tracking decision shared by `fg_fullcharged_compensation`
    (FULLCAP, 90 % floor) and `fg_check_vf_fuelcap_range` (FULLCAP_NOM, 50 %
    floor): a freshly read capacity is first held to a band around the design
    capacity and then to +-10 % of the previously stored reading. */
module Capacity {
  import opened Registers

  /** Write `target` back (one of the four corrective cases), or accept the
      reading as it is (the fourth, "Case 4", branch of the driver). */
  datatype CapAction = Clamp(target: int) | Accept

  /** The floor below design capacity: 90 % for the full capacity, 50 % for
      the nominal (voltage-fuel-gauge) capacity. */
  const FullCapFloorPct: nat := 90
  const VfCapFloorPct: nat := 50

  /** The design band: between the floor and 110 % of design capacity. */
  predicate InDesignBand(design: nat, floorPct: nat, value: int)
  {
    design * floorPct / 100 <= value <= design * 110 / 100
  }

  /** The band around the previous reading, computed with C's truncating
      division because the stored previous reading may be -1. */
  predicate InPreviousBand(prev: int, value: int)
  {
    CDiv(prev * 90, 100) <= value <= CDiv(prev * 110, 100)
  }

  /** The five-case decision, in the driver's order. */
  function CapDecision(design: nat, prev: int, value: int, floorPct: nat): (r: CapAction)
    ensures r.Clamp? ==> r.target != value
  {
    if value > design * 110 / 100 then Clamp(design * 110 / 100)
    else if value < design * floorPct / 100 then Clamp(design * floorPct / 100)
    else if value > CDiv(prev * 110, 100) then Clamp(CDiv(prev * 110, 100))
    else if value < CDiv(prev * 90, 100) then Clamp(CDiv(prev * 90, 100))
    else Accept
  }

  /** The reading is accepted exactly when it lies in both bands; otherwise
      the target is the bound of the first band it violates, so the value
      moves toward that band and never past it. */
  lemma DecisionCharacterised(design: nat, prev: int, value: int, floorPct: nat)
    requires floorPct <= 110
    ensures (CapDecision(design, prev, value, floorPct) == Accept)
              <==> (InDesignBand(design, floorPct, value) && InPreviousBand(prev, value))
    ensures !InDesignBand(design, floorPct, value) ==>
              CapDecision(design, prev, value, floorPct).Clamp?
              && InDesignBand(design, floorPct, CapDecision(design, prev, value, floorPct).target)
    ensures prev >= 0 && InDesignBand(design, floorPct, value) && !InPreviousBand(prev, value) ==>
              CapDecision(design, prev, value, floorPct).Clamp?
              && InPreviousBand(prev, CapDecision(design, prev, value, floorPct).target)
    ensures CapDecision(design, prev, value, floorPct).Clamp? ==>
              var t := CapDecision(design, prev, value, floorPct).target;
              (t < value && (value > design * 110 / 100 || value > CDiv(prev * 110, 100)))
              || (t > value && (value < design * floorPct / 100 || value < CDiv(prev * 90, 100)))
  {
    DivMonotone(design * floorPct, design * 110, 100);
    if prev >= 0 {
      DivMonotone(prev * 90, prev * 110, 100);
    }
  }

  /** Once the stored previous value is a reading inside the design band,
      that same reading is accepted: after a correction followed by a
      refresh of the previous value, the next run writes nothing. */
  lemma {:induction false} SettledReadingAccepted(design: nat, t: int, floorPct: nat)
    requires t >= 0 && InDesignBand(design, floorPct, t)
    ensures CapDecision(design, t, t, floorPct) == Accept
  {
    DivMonotone(t * 90, t * 100, 100);
    DivMonotone(t * 100, t * 110, 100);
  }

  /** With a non-negative previous value and a design capacity whose 110 %
      bound fits in 16 bits, every target fits the register, so the `(u16)`
      cast in the write-back changes nothing. */
  lemma {:induction false} TargetFitsRegister(design: nat, prev: int, value: int, floorPct: nat)
    requires 0 <= prev < 0x1_0000 && 0 <= value < 0x1_0000
    requires design * 110 / 100 < 0x1_0000 && floorPct <= 110
    ensures CapDecision(design, prev, value, floorPct).Clamp? ==>
              var t := CapDecision(design, prev, value, floorPct).target;
              0 <= t < 0x1_0000 && ToU16(t) == t
  {
    MulMonotone(floorPct, 110, design);
    assert design * floorPct <= design * 110;
    DivMonotone(design * floorPct, design * 110, 100);
    MulMonotone(90, 100, prev);
    assert prev * 90 <= prev * 100;
    DivMonotone(prev * 90, prev * 100, 100);
    assert CDiv(prev * 90, 100) == prev * 90 / 100 <= prev;
  }

  /** Design capacity 4000: a reading of 4600 (115 %) is written back as 4400
      and a reading of 3400 (85 %) as 3600, whatever the previous value. */
  lemma DesignBandExamples(prev: int)
    ensures CapDecision(4000, prev, 4600, FullCapFloorPct) == Clamp(4400)
    ensures CapDecision(4000, prev, 3400, FullCapFloorPct) == Clamp(3600)
    ensures CapDecision(4000, prev, 1900, VfCapFloorPct) == Clamp(2000)
  {
  }

  /** As written, the previous value is refreshed with the raw result of a
      register read, so a failed read stores -1. With -1 stored, any reading
      in the design band is "above" -1 * 110 / 100 == -1 and is clamped to
      -1, which the `(u16)` cast writes as 0xFFFF. */
  lemma {:induction false} FailedRefreshPoisonsNextRun(design: nat, value: int, floorPct: nat)
    requires InDesignBand(design, floorPct, value)
    ensures CapDecision(design, -1, value, floorPct) == Clamp(-1)
    ensures ToU16(CapDecision(design, -1, value, floorPct).target) == 0xFFFF
  {
    assert value >= 0;
  }

  /** The evidently intended refresh: keep the old previous value when the
      read fails. */
  function RefreshedPrevious(readResult: int, previous: int): (p: int)
    ensures readResult >= 0 ==> p == readResult
    ensures previous >= 0 ==> p >= 0
  {
    if readResult < 0 then previous else readResult
  }

  /** The previous value after the corrected refresh has run on each of a
      sequence of read results in turn: it is the last successful read, or
      the starting value when every read failed, and so never negative when
      the starting value is not. */
  function RefreshAll(results: seq<int>, previous: int): (p: int)
    ensures previous >= 0 ==> p >= 0
    ensures p == previous || p in results
    ensures results != [] && results[|results| - 1] >= 0 ==> p == results[|results| - 1]
    decreases |results|
  {
    if results == [] then previous
    else RefreshAll(results[1..], RefreshedPrevious(results[0], previous))
  }

  /** With a non-negative previous value no corrective target is negative. */
  lemma {:induction false} NonNegativePreviousTargets(design: nat, prev: int, value: int, floorPct: nat)
    requires prev >= 0
    ensures CapDecision(design, prev, value, floorPct).Clamp? ==>
              CapDecision(design, prev, value, floorPct).target >= 0
  {
    assert CDiv(prev * 90, 100) >= 0 && CDiv(prev * 110, 100) >= 0;
  }
}
