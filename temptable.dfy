/** `fg_adjust_temp`: converting a thermistor ADC reading to a temperature
    through a platform table sorted by descending ADC value, by binary search
    and then linear interpolation between the two bracketing entries. */
module TempTable {
  import opened Registers

  datatype Option<T> = None | Some(value: T)

  /** One row of a `sec_bat_adc_table_data_t` table. */
  datatype AdcEntry = AdcEntry(adc: int, temperature: int)

  /** The property `fg_adjust_temp` is asked to convert. */
  datatype TempProperty = PropTemp | PropTempAmbient | PropOther

  /** The tables are sorted by strictly descending ADC value. */
  predicate Descending(t: seq<AdcEntry>)
  {
    forall i, k :: 0 <= i < k < |t| ==> t[i].adc > t[k].adc
  }

  /** A table the lookup may be given: non-empty and descending. */
  predicate ValidTable(t: seq<AdcEntry>)
  {
    |t| > 0 && Descending(t)
  }

  /** The first index at or after `i` whose ADC value is at or below `adc`. */
  function FirstAtOrBelow(t: seq<AdcEntry>, adc: int, i: nat): (k: nat)
    requires i < |t| && t[|t| - 1].adc <= adc
    ensures i <= k < |t| && t[k].adc <= adc
    ensures forall j :: i <= j < k ==> t[j].adc > adc
    decreases |t| - i
  {
    if t[i].adc <= adc then i else FirstAtOrBelow(t, adc, i + 1)
  }

  /** In a descending table, an entry at or below `adc` preceded only by
      entries above it is the first such entry. */
  lemma FirstAtOrBelowIs(t: seq<AdcEntry>, adc: int, j: nat)
    requires Descending(t) && j < |t| && t[j].adc <= adc
    requires forall i :: 0 <= i < j ==> t[i].adc > adc
    ensures t[|t| - 1].adc <= adc && FirstAtOrBelow(t, adc, 0) == j
  {
    if j < |t| - 1 {
      assert t[j].adc > t[|t| - 1].adc;
    }
  }

  /** Linear interpolation between the entry above (`upper`, larger ADC) and
      the entry below (`lower`), with C's truncating division. */
  function Interpolate(upper: AdcEntry, lower: AdcEntry, adc: int): (r: int)
    requires lower.adc < upper.adc
    ensures adc == upper.adc ==> r == upper.temperature
    ensures adc == lower.adc ==> r == lower.temperature
  {
    var x, n, d := lower.temperature - upper.temperature, adc - upper.adc, lower.adc - upper.adc;
    CDivExact(x, d);
    assert n == 0 ==> x * n == 0;
    upper.temperature + CDiv(x * n, d)
  }

  /** The temperature the table assigns to `adc`: clamped to the first entry
      above the table's range and to the last entry below it, the entry's own
      temperature on an exact match, and otherwise interpolated between the
      two entries that bracket `adc`. */
  function TableTemp(t: seq<AdcEntry>, adc: int): (r: int)
    requires ValidTable(t)
    ensures (exists i :: 0 <= i < |t| && r == t[i].temperature)
            || (exists k :: 0 < k < |t| && t[k].adc < adc < t[k - 1].adc
                             && Between(r, t[k - 1].temperature, t[k].temperature))
  {
    if t[0].adc <= adc then t[0].temperature
    else if t[|t| - 1].adc >= adc then t[|t| - 1].temperature
    else
      var k := FirstAtOrBelow(t, adc, 0);
      if t[k].adc == adc then t[k].temperature
      else
        InterpolateBetween(t[k - 1], t[k], adc);
        Interpolate(t[k - 1], t[k], adc)
  }

  /** The lookup: out-of-range readings are clamped, then a binary search
      either finds the reading or leaves `low == high + 1` bracketing it. */
  method LookupTemp(t: seq<AdcEntry>, adc: int) returns (temp: int)
    requires ValidTable(t)
    ensures temp == TableTemp(t, adc)
  {
    if t[0].adc <= adc {
      return t[0].temperature;
    } else if t[|t| - 1].adc >= adc {
      return t[|t| - 1].temperature;
    }
    var low, high := 0, |t| - 1;
    while low <= high
      invariant 0 <= low <= high + 1 <= |t|
      invariant forall i :: 0 <= i < low ==> t[i].adc > adc
      invariant forall i :: high < i < |t| ==> t[i].adc < adc
      decreases high - low
    {
      var mid := (low + high) / 2;
      if t[mid].adc > adc {
        low := mid + 1;
      } else if t[mid].adc < adc {
        high := mid - 1;
      } else {
        FirstAtOrBelowIs(t, adc, mid);
        return t[mid].temperature;
      }
    }
    assert 0 <= high && low == high + 1 && low < |t|;
    FirstAtOrBelowIs(t, adc, low);
    temp := t[high].temperature;
    temp := temp + CDiv((t[low].temperature - t[high].temperature) * (adc - t[high].adc),
                        t[low].adc - t[high].adc);
  }

  /** `fg_adjust_temp`: without a table for the requested property, or for
      any other property, the reading is returned unchanged. */
  method AdjustTemp(psp: TempProperty, tempTable: Option<seq<AdcEntry>>,
                    ambientTable: Option<seq<AdcEntry>>, value: int) returns (temp: int)
    requires tempTable.Some? ==> ValidTable(tempTable.value)
    requires ambientTable.Some? ==> ValidTable(ambientTable.value)
    ensures psp == PropOther ==> temp == value
    ensures psp == PropTemp ==>
      temp == (if tempTable.None? then value else TableTemp(tempTable.value, value))
    ensures psp == PropTempAmbient ==>
      temp == (if ambientTable.None? then value else TableTemp(ambientTable.value, value))
  {
    var table: seq<AdcEntry>;
    match psp {
      case PropTemp =>
        if tempTable.None? { return value; }
        table := tempTable.value;
      case PropTempAmbient =>
        if ambientTable.None? { return value; }
        table := ambientTable.value;
      case PropOther =>
        return value;
    }
    temp := LookupTemp(table, value);
  }

  // ------------------------------------------------------------- properties

  /** A reading equal to an entry's ADC value yields that entry's temperature. */
  lemma {:induction false} ExactMatch(t: seq<AdcEntry>, i: nat)
    requires ValidTable(t) && i < |t|
    ensures TableTemp(t, t[i].adc) == t[i].temperature
  {
    var adc := t[i].adc;
    if t[0].adc <= adc {
      assert i == 0;
    } else if t[|t| - 1].adc >= adc {
      assert i == |t| - 1;
    } else {
      var k := FirstAtOrBelow(t, adc, 0);
      assert k == i;
    }
  }

  /** Inside the table's range and between entries, the result lies between
      the temperatures of the two entries that bracket the reading. */
  lemma {:induction false} InterpolationBracketed(t: seq<AdcEntry>, adc: int)
    requires ValidTable(t)
    requires t[|t| - 1].adc < adc < t[0].adc
    requires forall i :: 0 <= i < |t| ==> t[i].adc != adc
    ensures exists k :: (0 < k < |t| && t[k].adc < adc < t[k - 1].adc
                         && Between(TableTemp(t, adc), t[k - 1].temperature, t[k].temperature))
  {
    var k := FirstAtOrBelow(t, adc, 0);
    assert t[k].adc != adc;
    InterpolateBetween(t[k - 1], t[k], adc);
  }

  /** `x` lies between `a` and `b`, whichever is larger. */
  predicate Between(x: int, a: int, b: int)
  {
    (a <= x <= b) || (b <= x <= a)
  }

  /** Interpolating strictly between two entries stays between their
      temperatures. */
  lemma InterpolateBetween(upper: AdcEntry, lower: AdcEntry, adc: int)
    requires lower.adc < adc < upper.adc
    ensures Between(Interpolate(upper, lower, adc), upper.temperature, lower.temperature)
  {
    var x := lower.temperature - upper.temperature;
    var n := upper.adc - adc;
    var d := upper.adc - lower.adc;
    assert (lower.temperature - upper.temperature) * (adc - upper.adc) == -(x * n);
    CDivNegateBoth(x * n, d);
    FractionBounds(x, n, d);
  }

  /** A multiple of a negative divisor divides exactly. */
  lemma CDivExact(x: int, d: int)
    requires d < 0
    ensures CDiv(x * d, d) == x
  {
    var e := -d;
    if x >= 0 {
      assert x * d == -(x * e);
      DivModUnique(x * e, e, x, 0);
    } else {
      assert x * d == (-x) * e;
      DivModUnique((-x) * e, e, -x, 0);
    }
  }

  /** Negating dividend and divisor leaves a truncating quotient unchanged. */
  lemma CDivNegateBoth(a: int, d: int)
    requires d > 0
    ensures CDiv(-a, -d) == CDiv(a, d)
  {
  }

  /** A fraction `n/d` of `x` with `0 < n < d`, truncated toward zero, lies
      between 0 and `x`. */
  lemma FractionBounds(x: int, n: int, d: int)
    requires 0 < n < d
    ensures Between(CDiv(x * n, d), 0, x)
  {
    var m := Abs(x);
    FractionOfNat(m, n, d);
    if x < 0 {
      assert x * n == -(m * n);
    } else {
      assert x * n == m * n;
    }
  }

  lemma FractionOfNat(m: nat, n: int, d: int)
    requires 0 < n < d
    ensures 0 <= m * n / d <= m
  {
    MulBound(m, n, d);
    if m > 0 {
      var q := m * n / d;
      assert q * d <= m * n;
      MulCancel(q, m, d);
    }
  }

  lemma MulBound(m: nat, n: int, d: int)
    requires 0 < n < d
    ensures 0 <= m * n
    ensures m > 0 ==> m * n < m * d
  {
    assert m * d - m * n == m * (d - n);
  }
}
