/** The low-battery hit-count matrix of `low_batt_compensation`: one counter
    per (current range, SoC level) cell, of which only the one last hit is
    kept; a counter reaching the limit signals a confirmed low battery and
    clears the matrix. */
module LowBatt {
  import opened Registers

  /** The counters as a value: `m[range][level]`. */
  type Matrix = seq<seq<int>>

  predicate Shaped(m: Matrix, rows: nat, cols: nat)
  {
    |m| == rows && forall i :: 0 <= i < rows ==> |m[i]| == cols
  }

  /** Every counter zero (`reset_low_batt_comp_cnt`). */
  function Cleared(rows: nat, cols: nat): (m: Matrix)
    ensures Shaped(m, rows, cols)
  {
    seq(rows, i => seq(cols, j => 0))
  }

  predicate AllZero(m: Matrix)
  {
    forall i, j :: 0 <= i < |m| && 0 <= j < |m[i]| ==> m[i][j] == 0
  }

  /** `add_low_batt_comp_cnt`: cell (r, c) goes up by one, every other cell
      becomes zero. */
  function AddCount(m: Matrix, r: nat, c: nat): (m': Matrix)
    requires r < |m| && c < |m[r]|
    ensures |m'| == |m| && forall i :: 0 <= i < |m| ==> |m'[i]| == |m[i]|
    ensures m'[r][c] == m[r][c] + 1
  {
    seq(|m|, i requires 0 <= i < |m| =>
      seq(|m[i]|, j requires 0 <= j < |m[i]| => if i == r && j == c then m[r][c] + 1 else 0))
  }

  /** At most one counter is non-zero. */
  predicate AtMostOneNonZero(m: Matrix)
  {
    forall i, j, k, l ::
      (0 <= i < |m| && 0 <= j < |m[i]| && 0 <= k < |m| && 0 <= l < |m[k]| && m[i][j] != 0 && m[k][l] != 0)
      ==> i == k && j == l
  }

  /** Some counter has reached the limit. */
  predicate Reached(m: Matrix, maxCheck: int)
  {
    exists i, j :: 0 <= i < |m| && 0 <= j < |m[i]| && m[i][j] >= maxCheck
  }

  /** Adding keeps the shape, raises exactly the chosen cell by one and zeroes
      all others, so afterwards at most one counter is non-zero. */
  lemma AddCountCells(m: Matrix, rows: nat, cols: nat, r: nat, c: nat)
    requires Shaped(m, rows, cols) && r < rows && c < cols
    ensures Shaped(AddCount(m, r, c), rows, cols)
    ensures AddCount(m, r, c)[r][c] == m[r][c] + 1
    ensures forall i, j :: 0 <= i < rows && 0 <= j < cols && (i != r || j != c) ==>
              AddCount(m, r, c)[i][j] == 0
    ensures AtMostOneNonZero(AddCount(m, r, c))
  {
  }

  /** After clearing no counter is non-zero, and none has reached a positive
      limit. */
  lemma ClearedCells(rows: nat, cols: nat, maxCheck: int)
    ensures AllZero(Cleared(rows, cols)) && AtMostOneNonZero(Cleared(rows, cols))
    ensures maxCheck > 0 ==> !Reached(Cleared(rows, cols), maxCheck)
  {
  }

  // ------------------------------------------------------------ compensation

  /** One row of `low_battery_table`: the lower bound of a current range, and
      the slope and offset of that range's voltage threshold. */
  datatype LowBattRow = LowBattRow(range: int, slope: int, offset: int)

  /** What one compensation pass looks at: reported SoC (0.1 %), cell voltage
      (mV) and the smaller of the instantaneous and average current (mA). */
  datatype Sample = Sample(soc: int, vcell: int, minCurrent: int)

  /** `get_low_batt_threshold`: the voltage under which a reading in this
      range counts as low, `offset + current * slope / 1000` in C arithmetic. */
  function Threshold(row: LowBattRow, current: int): (v: int)
    ensures current * row.slope >= 0 ==> row.offset <= v
    ensures current * row.slope <= 0 ==> v <= row.offset
    ensures Abs(v - row.offset) * 1000 <= Abs(current * row.slope)
  {
    row.offset + CDiv(current * row.slope, 1000)
  }

  /** Range `i` holds the current when it lies in `[table[i-1].range, table[i].range)`. */
  predicate InRange(table: seq<LowBattRow>, i: nat, current: int)
    requires 1 <= i < |table|
    ensures InRange(table, i, current) ==> table[i - 1].range < table[i].range
  {
    table[i - 1].range <= current < table[i].range
  }

  /** The dimensions the driver assumes: every range index `i - 1` of the
      table is a matrix row, and the level index `1 / 2 == 0` a column. */
  predicate Fits(table: seq<LowBattRow>, rows: nat, cols: nat)
  {
    |table| <= rows + 1 && cols >= 1
  }

  /** One iteration of the range loop. A matching range with SoC of at least
      1 % and a voltage under the range's threshold counts a hit in cell
      `[i-1][0]`; a matching range otherwise clears the matrix. */
  function Step(m: Matrix, rows: nat, cols: nat, table: seq<LowBattRow>, i: nat, s: Sample): (m': Matrix)
    requires Shaped(m, rows, cols) && Fits(table, rows, cols) && 1 <= i < |table|
    ensures Shaped(m', rows, cols)
  {
    if !InRange(table, i, s.minCurrent) then m
    else if s.soc >= 10 && s.vcell < Threshold(table[i], s.minCurrent) then
      AddCountCells(m, rows, cols, i - 1, 0);
      AddCount(m, i - 1, 0)
    else Cleared(rows, cols)
  }

  /** The range loop run for `i` from 1 up to, not including, `k`. */
  function Sweep(m: Matrix, rows: nat, cols: nat, table: seq<LowBattRow>, s: Sample, k: nat): (m': Matrix)
    requires Shaped(m, rows, cols) && Fits(table, rows, cols) && k <= |table|
    ensures Shaped(m', rows, cols)
    decreases k
  {
    if k <= 1 then m
    else Step(Sweep(m, rows, cols, table, s, k - 1), rows, cols, table, k - 1, s)
  }

  /** `low_batt_compensation`'s effect on the matrix: nothing above the
      compensation voltage; otherwise the range loop, then a clear when a
      counter reached the limit. */
  function Compensate(m: Matrix, rows: nat, cols: nat, table: seq<LowBattRow>,
                      compVoltage: int, maxCheck: int, s: Sample): (m': Matrix)
    requires Shaped(m, rows, cols) && Fits(table, rows, cols)
    ensures Shaped(m', rows, cols)
  {
    if s.vcell > compVoltage then m
    else
      var swept := Sweep(m, rows, cols, table, s, |table|);
      if Reached(swept, maxCheck) then Cleared(rows, cols) else swept
  }

  /** The range loop keeps at most one counter non-zero. */
  lemma {:induction false} SweepKeepsSingleCell(m: Matrix, rows: nat, cols: nat,
                                                table: seq<LowBattRow>, s: Sample, k: nat)
    requires Shaped(m, rows, cols) && Fits(table, rows, cols) && k <= |table|
    requires AtMostOneNonZero(m)
    ensures AtMostOneNonZero(Sweep(m, rows, cols, table, s, k))
    decreases k
  {
    if k > 1 {
      SweepKeepsSingleCell(m, rows, cols, table, s, k - 1);
      var prev := Sweep(m, rows, cols, table, s, k - 1);
      if InRange(table, k - 1, s.minCurrent) && s.soc >= 10 && s.vcell < Threshold(table[k - 1], s.minCurrent) {
        AddCountCells(prev, rows, cols, k - 2, 0);
      } else if InRange(table, k - 1, s.minCurrent) {
        ClearedCells(rows, cols, 0);
      }
    }
  }

  /** A compensation pass leaves the matrix untouched above the compensation
      voltage, keeps at most one counter non-zero, and never leaves a counter
      at or above a positive limit: reaching the limit clears the matrix. */
  lemma {:induction false} CompensateProperties(m: Matrix, rows: nat, cols: nat, table: seq<LowBattRow>,
                                                compVoltage: int, maxCheck: int, s: Sample)
    requires Shaped(m, rows, cols) && Fits(table, rows, cols) && AtMostOneNonZero(m)
    ensures s.vcell > compVoltage ==> Compensate(m, rows, cols, table, compVoltage, maxCheck, s) == m
    ensures AtMostOneNonZero(Compensate(m, rows, cols, table, compVoltage, maxCheck, s))
    ensures s.vcell <= compVoltage && maxCheck > 0 ==>
              !Reached(Compensate(m, rows, cols, table, compVoltage, maxCheck, s), maxCheck)
    ensures s.vcell <= compVoltage && Reached(Sweep(m, rows, cols, table, s, |table|), maxCheck) ==>
              AllZero(Compensate(m, rows, cols, table, compVoltage, maxCheck, s))
  {
    SweepKeepsSingleCell(m, rows, cols, table, s, |table|);
    ClearedCells(rows, cols, maxCheck);
  }

  /** The ranges are strictly ascending, as in the battery data tables. */
  predicate Ascending(table: seq<LowBattRow>)
  {
    forall i, k :: 0 <= i < k < |table| ==> table[i].range < table[k].range
  }

  /** With ascending ranges at most one range holds a given current, so the
      loop acts on the matrix exactly once, in that range, or not at all. */
  lemma {:induction false} SweepSingleRange(m: Matrix, rows: nat, cols: nat, table: seq<LowBattRow>,
                                            s: Sample, r: nat, k: nat)
    requires Shaped(m, rows, cols) && Fits(table, rows, cols) && Ascending(table)
    requires 1 <= r < |table| && InRange(table, r, s.minCurrent) && k <= |table|
    ensures k <= r ==> Sweep(m, rows, cols, table, s, k) == m
    ensures k > r ==> Sweep(m, rows, cols, table, s, k) == Step(m, rows, cols, table, r, s)
    decreases k
  {
    if k > 1 {
      SweepSingleRange(m, rows, cols, table, s, r, k - 1);
      if k - 1 != r {
        assert !InRange(table, k - 1, s.minCurrent);
      }
    }
  }

  /** A compensation pass under the compensation voltage whose current lies
      in range `r`, on any matrix: a reading that is not low (SoC under 1 %
      or voltage at or over the threshold) clears every counter; a low one
      raises cell `[r-1][0]` by one and zeroes the others, or clears the
      matrix when that count reaches the limit. */
  lemma {:induction false} CompensateInRange(m: Matrix, rows: nat, cols: nat, table: seq<LowBattRow>,
                                             compVoltage: int, maxCheck: int, s: Sample, r: nat)
    requires Shaped(m, rows, cols) && Fits(table, rows, cols) && Ascending(table)
    requires 1 <= r < |table| && InRange(table, r, s.minCurrent) && s.vcell <= compVoltage && maxCheck > 0
    ensures var c := Compensate(m, rows, cols, table, compVoltage, maxCheck, s);
            var low := s.soc >= 10 && s.vcell < Threshold(table[r], s.minCurrent);
            && (!low ==> AllZero(c))
            && (low && m[r - 1][0] + 1 >= maxCheck ==> AllZero(c))
            && (low && m[r - 1][0] + 1 < maxCheck ==>
                  c[r - 1][0] == m[r - 1][0] + 1
                  && forall i, j :: 0 <= i < rows && 0 <= j < cols && (i != r - 1 || j != 0) ==> c[i][j] == 0)
  {
    SweepSingleRange(m, rows, cols, table, s, r, |table|);
    ClearedCells(rows, cols, maxCheck);
    if s.soc >= 10 && s.vcell < Threshold(table[r], s.minCurrent) {
      var a := AddCount(m, r - 1, 0);
      AddCountCells(m, rows, cols, r - 1, 0);
      if m[r - 1][0] + 1 >= maxCheck {
        assert Reached(a, maxCheck) by { assert a[r - 1][0] >= maxCheck; }
      } else {
        assert !Reached(a, maxCheck);
      }
    }
  }

  /** A current outside every range leaves the matrix untouched. */
  lemma {:induction false} SweepNoRange(m: Matrix, rows: nat, cols: nat, table: seq<LowBattRow>,
                                        s: Sample, k: nat)
    requires Shaped(m, rows, cols) && Fits(table, rows, cols) && k <= |table|
    requires forall i :: 1 <= i < |table| ==> !InRange(table, i, s.minCurrent)
    ensures Sweep(m, rows, cols, table, s, k) == m
    decreases k
  {
    if k > 1 {
      SweepNoRange(m, rows, cols, table, s, k - 1);
    }
  }

  /** `n` compensation passes on the same sample. */
  function Repeat(m: Matrix, rows: nat, cols: nat, table: seq<LowBattRow>,
                  compVoltage: int, maxCheck: int, s: Sample, n: nat): (m': Matrix)
    requires Shaped(m, rows, cols) && Fits(table, rows, cols)
    ensures Shaped(m', rows, cols)
  {
    if n == 0 then m
    else Compensate(Repeat(m, rows, cols, table, compVoltage, maxCheck, s, n - 1),
                    rows, cols, table, compVoltage, maxCheck, s)
  }

  /** Only the single cell (r, 0) holds `v`; every other counter is zero. */
  predicate OnlyCell(m: Matrix, r: nat, v: int)
  {
    forall i, j :: 0 <= i < |m| && 0 <= j < |m[i]| ==> m[i][j] == (if i == r && j == 0 then v else 0)
  }

  /** False-alarm suppression: starting from a cleared matrix, a low reading
      in range `r` repeated `n` times leaves a count of `n` in cell `[r-1][0]`
      while `n` is below the limit, and the pass that reaches the limit
      clears the matrix again. */
  lemma {:induction false} LowStreak(rows: nat, cols: nat, table: seq<LowBattRow>,
                                     compVoltage: int, maxCheck: int, s: Sample, r: nat, n: nat)
    requires Fits(table, rows, cols) && Ascending(table)
    requires 1 <= r < |table| && InRange(table, r, s.minCurrent)
    requires s.vcell <= compVoltage && s.soc >= 10 && s.vcell < Threshold(table[r], s.minCurrent)
    requires 0 < n <= maxCheck
    ensures n < maxCheck ==> OnlyCell(Repeat(Cleared(rows, cols), rows, cols, table, compVoltage, maxCheck, s, n), r - 1, n)
    ensures n == maxCheck ==> AllZero(Repeat(Cleared(rows, cols), rows, cols, table, compVoltage, maxCheck, s, n))
  {
    var z := Cleared(rows, cols);
    var prev := Repeat(z, rows, cols, table, compVoltage, maxCheck, s, n - 1);
    if n > 1 {
      LowStreak(rows, cols, table, compVoltage, maxCheck, s, r, n - 1);
    } else {
      assert prev == z;
    }
    StreakStep(prev, rows, cols, table, compVoltage, maxCheck, s, r, n);
  }

  /** One more low reading after `n - 1` of them: the count becomes `n`, or
      the matrix clears when `n` reaches the limit. */
  lemma {:induction false} StreakStep(prev: Matrix, rows: nat, cols: nat, table: seq<LowBattRow>,
                                      compVoltage: int, maxCheck: int, s: Sample, r: nat, n: nat)
    requires Shaped(prev, rows, cols) && Fits(table, rows, cols) && Ascending(table)
    requires 1 <= r < |table| && InRange(table, r, s.minCurrent)
    requires s.vcell <= compVoltage && s.soc >= 10 && s.vcell < Threshold(table[r], s.minCurrent)
    requires 0 < n <= maxCheck && OnlyCell(prev, r - 1, n - 1)
    ensures n < maxCheck ==> OnlyCell(Compensate(prev, rows, cols, table, compVoltage, maxCheck, s), r - 1, n)
    ensures n == maxCheck ==> AllZero(Compensate(prev, rows, cols, table, compVoltage, maxCheck, s))
  {
    SweepSingleRange(prev, rows, cols, table, s, r, |table|);
    var swept := Sweep(prev, rows, cols, table, s, |table|);
    assert swept == AddCount(prev, r - 1, 0);
    AddCountCells(prev, rows, cols, r - 1, 0);
    assert OnlyCell(swept, r - 1, n);
    if n < maxCheck {
      assert !Reached(swept, maxCheck);
    } else {
      assert swept[r - 1][0] >= maxCheck;
      ClearedCells(rows, cols, maxCheck);
    }
  }

  // ------------------------------------------------------------------ state

  /** `low_batt_comp_cnt`: the counters as the driver keeps them, a
      two-dimensional array updated in place. */
  class LowBattCounter {
    const rows: nat
    const cols: nat
    const maxCheck: int
    const cnt: array2<int>

    ghost predicate Valid()
      reads this
    {
      cnt.Length0 == rows && cnt.Length1 == cols
    }

    /** The counters as a matrix value. */
    ghost function Cells(): Matrix
      reads this, cnt
    {
      seq(cnt.Length0, i requires 0 <= i < cnt.Length0 reads cnt =>
        seq(cnt.Length1, j requires 0 <= j < cnt.Length1 reads cnt => cnt[i, j]))
    }

    constructor (rows: nat, cols: nat, maxCheck: int)
      ensures Valid() && this.rows == rows && this.cols == cols && this.maxCheck == maxCheck
      ensures Cells() == Cleared(rows, cols)
      ensures fresh(cnt)
    {
      this.rows, this.cols, this.maxCheck := rows, cols, maxCheck;
      cnt := new int[rows, cols]((i, j) => 0);
      new;
      CellsEqual(Cleared(rows, cols));
    }

    lemma CellsEqual(m: Matrix)
      requires Valid() && Shaped(m, rows, cols)
      requires forall i, j :: 0 <= i < rows && 0 <= j < cols ==> cnt[i, j] == m[i][j]
      ensures Cells() == m
    {
      var c := Cells();
      assert |c| == |m|;
      forall i | 0 <= i < rows
        ensures c[i] == m[i]
      {
        assert |c[i]| == |m[i]|;
        forall j | 0 <= j < cols
          ensures c[i][j] == m[i][j]
        {
        }
      }
    }

    /** `add_low_batt_comp_cnt(range, level)`: raise cell
        `[range-1][level/2]`, then zero every other cell row by row. */
    method Add(range: int, level: int)
      requires Valid() && 1 <= range <= rows && 0 <= level && level / 2 < cols
      modifies cnt
      ensures Cells() == AddCount(old(Cells()), range - 1, level / 2)
    {
      ghost var m0 := Cells();
      var r, c := range - 1, level / 2;
      cnt[r, c] := cnt[r, c] + 1;
      var i := 0;
      while i < rows
        invariant 0 <= i <= rows
        invariant forall a, b :: 0 <= a < rows && 0 <= b < cols ==>
          cnt[a, b] == (if a == r && b == c then m0[a][b] + 1 else if a < i then 0 else m0[a][b])
      {
        var j := 0;
        while j < cols
          invariant 0 <= j <= cols
          invariant forall a, b :: 0 <= a < rows && 0 <= b < cols ==>
            cnt[a, b] == (if a == r && b == c then m0[a][b] + 1
                          else if a < i || (a == i && b < j) then 0 else m0[a][b])
        {
          if !(i == r && j == c) {
            cnt[i, j] := 0;
          }
          j := j + 1;
        }
        i := i + 1;
      }
      CellsEqual(AddCount(m0, r, c));
    }

    /** `reset_low_batt_comp_cnt`: every counter to zero. */
    method Reset()
      requires Valid()
      modifies cnt
      ensures Cells() == Cleared(rows, cols)
    {
      forall i, j | 0 <= i < rows && 0 <= j < cols {
        cnt[i, j] := 0;
      }
      CellsEqual(Cleared(rows, cols));
    }

    /** `check_low_batt_comp_condition`: reports whether a counter reached
        the limit. The `break` leaves only the inner loop, so the level
        reported is `2 * j + 1` for the first such column of the last row
        holding one; without a hit the level is left as it was. */
    method CheckCondition(level0: int) returns (found: bool, level: int)
      requires Valid()
      ensures found <==> Reached(Cells(), maxCheck)
      ensures !found ==> level == level0
      ensures found ==>
        exists hr, hc :: (0 <= hr < rows && 0 <= hc < cols && cnt[hr, hc] >= maxCheck
                          && level == 2 * hc + 1
                          && (forall b :: 0 <= b < hc ==> cnt[hr, b] < maxCheck)
                          && (forall a, b :: hr < a < rows && 0 <= b < cols ==> cnt[a, b] < maxCheck))
    {
      found, level := false, level0;
      ghost var hr, hc := 0, 0;
      var i := 0;
      while i < rows
        invariant 0 <= i <= rows
        invariant !found ==> level == level0
        invariant !found ==> forall a, b :: 0 <= a < i && 0 <= b < cols ==> cnt[a, b] < maxCheck
        invariant found ==> 0 <= hr < i && 0 <= hc < cols && cnt[hr, hc] >= maxCheck
        invariant found ==> level == 2 * hc + 1
        invariant found ==> forall b :: 0 <= b < hc ==> cnt[hr, b] < maxCheck
        invariant found ==> forall a, b :: hr < a < i && 0 <= b < cols ==> cnt[a, b] < maxCheck
      {
        var j := 0;
        while j < cols
          invariant 0 <= j <= cols
          invariant forall b :: 0 <= b < j ==> cnt[i, b] < maxCheck
        {
          if cnt[i, j] >= maxCheck {
            found, level := true, j * 2 + 1;
            hr, hc := i, j;
            break;
          }
          j := j + 1;
        }
        i := i + 1;
      }
      var m := Cells();
      if found {
        assert m[hr][hc] >= maxCheck;
      } else {
        assert forall a, b :: 0 <= a < |m| && 0 <= b < |m[a]| ==> m[a][b] < maxCheck;
      }
    }
  }
}
