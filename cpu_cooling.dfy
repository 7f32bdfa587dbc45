/**
 * The cpufreq cooling device: cooling state k clips the CPU to the k-th
 * highest distinct frequency of its cpufreq table (state 0 is the highest),
 * kept in a table built once at registration with one level per valid entry;
 * when the cpufreq table repeats a frequency, the levels past the distinct
 * frequencies hold 0.
 */
module CpuCooling {
  import opened Wrappers

  /** Largest `unsigned int`; also what `freq = -1` stores. */
  const UINT_MAX: nat := 0xFFFF_FFFF
  /** Frequency marking an entry to skip (`~0u`). */
  const CPUFREQ_ENTRY_INVALID: nat := 0xFFFF_FFFF
  /** Frequency marking the end of a table (`~1u`). */
  const CPUFREQ_TABLE_END: nat := 0xFFFF_FFFE
  /** `-1UL` with a 64-bit `unsigned long`. */
  const THERMAL_CSTATE_INVALID: nat := 0xFFFF_FFFF_FFFF_FFFF
  const EINVAL: int := 22
  const EPROBE_DEFER: int := 517

  /**
   * The frequencies of a cpufreq table's entries up to (not including) the
   * CPUFREQ_TABLE_END entry: each an `unsigned int` other than the end marker.
   */
  ghost predicate WellFormedTable(table: seq<nat>) {
    |table| <= UINT_MAX
    && forall i :: 0 <= i < |table| ==> table[i] <= UINT_MAX && table[i] != CPUFREQ_TABLE_END
  }

  /** The entries cpufreq_for_each_valid_entry visits. */
  predicate IsValidFreq(f: nat) {
    f != CPUFREQ_ENTRY_INVALID
  }

  /** The number of valid entries of a table. */
  function CountValid(table: seq<nat>): (n: nat)
    ensures n <= |table|
    ensures n == 0 <==> forall i :: 0 <= i < |table| ==> !IsValidFreq(table[i])
  {
    if table == [] then 0
    else
      var last := |table| - 1;
      assert forall i :: 0 <= i < last ==> table[..last][i] == table[i];
      CountValid(table[..last]) + if IsValidFreq(table[last]) then 1 else 0
  }

  /** The "Find max levels" loop of __cpufreq_cooling_register: count the valid entries. */
  method CountValidEntries(table: seq<nat>) returns (n: nat)
    ensures n == CountValid(table)
  {
    n := 0;
    for i := 0 to |table|
      invariant n == CountValid(table[..i])
    {
      assert table[..i + 1][..i] == table[..i];
      if IsValidFreq(table[i]) {
        n := n + 1;
      }
    }
    assert table[..|table|] == table;
  }

  /**
   * `m` is what find_next_max(table, prevMax) returns: the largest valid
   * frequency strictly below `prevMax`, or 0 when there is none.
   */
  ghost predicate IsNextMax(table: seq<nat>, prevMax: nat, m: nat) {
    (m == 0 || (m < prevMax && exists i :: 0 <= i < |table| && table[i] == m && IsValidFreq(table[i])))
    && forall i :: 0 <= i < |table| && IsValidFreq(table[i]) && table[i] < prevMax ==> table[i] <= m
  }

  /** find_next_max. */
  method FindNextMax(table: seq<nat>, prevMax: nat) returns (max: nat)
    ensures IsNextMax(table, prevMax, max)
  {
    max := 0;
    for i := 0 to |table|
      invariant max == 0 || (max < prevMax && exists j :: 0 <= j < i && table[j] == max && IsValidFreq(table[j]))
      invariant forall j :: 0 <= j < i && IsValidFreq(table[j]) && table[j] < prevMax ==> table[j] <= max
    {
      if IsValidFreq(table[i]) && table[i] > max && table[i] < prevMax {
        max := table[i];
      }
    }
  }

  /**
   * `levels` is what the fill loop writes: level 0 is find_next_max below
   * UINT_MAX, and each further level is find_next_max below the one before.
   */
  ghost predicate IsLevelTable(table: seq<nat>, levels: seq<nat>) {
    (|levels| > 0 ==> IsNextMax(table, UINT_MAX, levels[0]))
    && forall i :: 0 < i < |levels| ==> IsNextMax(table, levels[i - 1], levels[i])
  }

  /** The fill loop of __cpufreq_cooling_register, `freq` starting at -1. */
  method FillFreqTable(table: seq<nat>, freqTable: array<nat>)
    modifies freqTable
    ensures IsLevelTable(table, freqTable[..])
  {
    var freq := UINT_MAX;
    for i := 0 to freqTable.Length
      invariant IsLevelTable(table, freqTable[..i])
      invariant freq == if i == 0 then UINT_MAX else freqTable[i - 1]
    {
      freq := FindNextMax(table, freq);
      ghost var done := freqTable[..i];
      freqTable[i] := freq;
      assert freqTable[..i + 1] == done + [freq];
    }
    assert freqTable[..freqTable.Length] == freqTable[..];
  }

  /** A prefix of a level table is a level table. */
  lemma LevelTablePrefix(table: seq<nat>, levels: seq<nat>, n: nat)
    requires IsLevelTable(table, levels) && n <= |levels|
    ensures IsLevelTable(table, levels[..n])
  {
    forall i | 0 < i < n
      ensures IsNextMax(table, levels[..n][i - 1], levels[..n][i])
    {
      assert levels[..n][i] == levels[i];
      assert levels[..n][i - 1] == levels[i - 1];
    }
  }

  /**
   * The level table descends: a higher cooling state never allows a higher
   * frequency, a nonzero level is strictly below the level before it, and
   * level 0 is the table's highest valid frequency.
   */
  lemma {:induction false} LevelsDescending(table: seq<nat>, levels: seq<nat>)
    requires WellFormedTable(table)
    requires IsLevelTable(table, levels)
    ensures forall i, j :: 0 <= i <= j < |levels| ==> levels[j] <= levels[i]
    ensures forall i :: 0 < i < |levels| && levels[i] != 0 ==> levels[i] < levels[i - 1]
    ensures |levels| > 0 ==> forall k :: 0 <= k < |table| && IsValidFreq(table[k]) ==> table[k] <= levels[0]
    decreases |levels|
  {
    if |levels| > 0 {
      assert IsNextMax(table, UINT_MAX, levels[0]);
      forall k | 0 <= k < |table| && IsValidFreq(table[k])
        ensures table[k] <= levels[0]
      {
        assert table[k] < UINT_MAX;
      }
    }
    if |levels| > 1 {
      var n := |levels| - 1;
      LevelTablePrefix(table, levels, n);
      LevelsDescending(table, levels[..n]);
      assert IsNextMax(table, levels[n - 1], levels[n]);
      forall i, j | 0 <= i <= j < |levels|
        ensures levels[j] <= levels[i]
      {
        if j < n {
          assert levels[..n][j] <= levels[..n][i];
        } else if i < n {
          assert levels[..n][n - 1] <= levels[..n][i];
        }
      }
      forall i | 0 < i < |levels| && levels[i] != 0
        ensures levels[i] < levels[i - 1]
      {
        assert IsNextMax(table, levels[i - 1], levels[i]);
      }
    }
  }

  /**
   * Every valid positive frequency of the table that is at least level i
   * appears among levels 0..i.
   */
  lemma {:induction false} LevelsCoverAbove(table: seq<nat>, levels: seq<nat>, i: nat)
    requires WellFormedTable(table)
    requires IsLevelTable(table, levels) && i < |levels|
    ensures forall k :: 0 <= k < |table| && IsValidFreq(table[k]) && 0 < table[k] && levels[i] <= table[k] ==>
      table[k] in levels[..i + 1]
    decreases i
  {
    forall k | 0 <= k < |table| && IsValidFreq(table[k]) && 0 < table[k] && levels[i] <= table[k]
      ensures table[k] in levels[..i + 1]
    {
      if i == 0 {
        assert IsNextMax(table, UINT_MAX, levels[0]);
        assert table[k] < UINT_MAX;
        assert levels[..1][0] == table[k];
      } else if levels[i - 1] <= table[k] {
        LevelsCoverAbove(table, levels, i - 1);
        assert table[k] in levels[..i];
        assert levels[..i] <= levels[..i + 1];
      } else {
        assert IsNextMax(table, levels[i - 1], levels[i]);
        assert levels[..i + 1][i] == table[k];
      }
    }
  }

  /**
   * A 0 level appears only once the distinct frequencies have run out: every
   * valid positive frequency of the table is already among the levels before it.
   */
  lemma ZeroLevelOnlyWhenExhausted(table: seq<nat>, levels: seq<nat>, i: nat)
    requires WellFormedTable(table)
    requires IsLevelTable(table, levels) && i < |levels| && levels[i] == 0
    ensures forall k :: 0 <= k < |table| && IsValidFreq(table[k]) && 0 < table[k] ==> table[k] in levels[..i]
  {
    LevelsCoverAbove(table, levels, i);
    forall k | 0 <= k < |table| && IsValidFreq(table[k]) && 0 < table[k]
      ensures table[k] in levels[..i]
    {
      assert table[k] in levels[..i + 1];
      assert levels[..i + 1] == levels[..i] + [0];
    }
  }

  /**
   * `max_level--` on an `unsigned int`: the count of valid entries less one,
   * wrapping to UINT_MAX when the count is 0.
   */
  function MaxLevelAsWritten(count: nat): (m: nat)
    requires count <= UINT_MAX
    ensures m <= UINT_MAX
    ensures 0 < count ==> m == count - 1
  {
    (count + UINT_MAX) % (UINT_MAX + 1)
  }

  /**
   * With no valid entry, freq_table is allocated with 0 entries while
   * max_level becomes UINT_MAX: the fill loop's guard `i <= max_level` holds
   * for every `unsigned int` i, and its first store is already past the end.
   */
  lemma EmptyTableMaxLevelWraps()
    ensures MaxLevelAsWritten(CountValid([])) == UINT_MAX
    ensures CountValid([CPUFREQ_ENTRY_INVALID]) == 0
  {
    assert [CPUFREQ_ENTRY_INVALID][..0] == [];
  }

  /** The per-device data of the cpufreq cooling device. */
  class CpufreqCoolingDevice {
    var cpufreqState: nat
    var cpufreqVal: nat
    const maxLevel: nat
    const freqTable: array<nat>
    /** The cpufreq table the device was registered with. */
    ghost const table: seq<nat>

    ghost predicate Valid()
      reads this, freqTable
    {
      WellFormedTable(table)
      && maxLevel + 1 == CountValid(table)
      && freqTable.Length == maxLevel + 1
      && IsLevelTable(table, freqTable[..])
      && cpufreqState <= maxLevel
      && cpufreqVal == freqTable[cpufreqState]
    }

    /**
     * __cpufreq_cooling_register once the table was found and allocations
     * succeeded: count the valid entries, fill the level table, start at
     * state 0 (kzalloc) with the highest frequency as the clip.
     */
    constructor Register(cpufreqTable: seq<nat>)
      requires WellFormedTable(cpufreqTable)
      requires CountValid(cpufreqTable) > 0
      ensures Valid() && fresh(freqTable)
      ensures table == cpufreqTable
      ensures maxLevel == CountValid(cpufreqTable) - 1
      ensures cpufreqState == 0 && cpufreqVal == freqTable[0]
    {
      var count := CountValidEntries(cpufreqTable);
      var levels := new nat[count];
      FillFreqTable(cpufreqTable, levels);
      table := cpufreqTable;
      maxLevel := MaxLevelAsWritten(count);
      freqTable := levels;
      cpufreqState := 0;
      cpufreqVal := levels[0];
    }

    /** get_level: the first level whose frequency is `freq`, or THERMAL_CSTATE_INVALID. */
    method GetLevel(freq: nat) returns (level: nat)
      requires Valid()
      ensures level == THERMAL_CSTATE_INVALID <==> forall k :: 0 <= k <= maxLevel ==> freqTable[k] != freq
      ensures level != THERMAL_CSTATE_INVALID ==>
        level <= maxLevel && freqTable[level] == freq
        && forall k :: 0 <= k < level ==> freqTable[k] != freq
    {
      LevelsDescending(table, freqTable[..]);
      level := 0;
      while level <= maxLevel
        invariant level <= maxLevel + 1
        invariant forall k :: 0 <= k < level ==> freqTable[k] != freq
      {
        if freq == freqTable[level] {
          return level;
        }
        if freq > freqTable[level] {
          assert forall k :: level <= k <= maxLevel ==> freqTable[..][k] <= freqTable[..][level];
          break;
        }
        level := level + 1;
      }
      return THERMAL_CSTATE_INVALID;
    }

    /** cpufreq_get_max_state. */
    method GetMaxState() returns (ret: int, state: nat)
      requires Valid()
      ensures ret == 0 && state == maxLevel
      ensures state + 1 == CountValid(table)
    {
      return 0, maxLevel;
    }

    /** cpufreq_get_cur_state. */
    method GetCurState() returns (ret: int, state: nat)
      requires Valid()
      ensures ret == 0 && state == cpufreqState
      ensures state <= maxLevel && freqTable[state] == cpufreqVal
    {
      return 0, cpufreqState;
    }

    /**
     * cpufreq_set_cur_state: refuse a state beyond max_level, do nothing for
     * the current state, otherwise move to the state and clip to its frequency.
     */
    method SetCurState(state: nat) returns (ret: int)
      requires Valid()
      modifies this`cpufreqState, this`cpufreqVal
      ensures Valid()
      ensures state > maxLevel ==> ret == -EINVAL && unchanged(this)
      ensures state == old(cpufreqState) ==> ret == 0 && unchanged(this)
      ensures state <= maxLevel ==> ret == 0 && cpufreqState == state && cpufreqVal == freqTable[state]
    {
      if state > maxLevel {
        return -EINVAL;
      }
      if cpufreqState == state {
        return 0;
      }
      var clipFreq := freqTable[state];
      cpufreqState := state;
      cpufreqVal := clipFreq;
      return 0;
    }
  }

  /**
   * __cpufreq_cooling_register with its error paths that depend on the table:
   * no table defers the probe, and (unlike the code as written) a table
   * without a valid entry is refused instead of wrapping max_level.
   */
  method CpufreqCoolingRegister(cpufreqTable: Option<seq<nat>>) returns (dev: CpufreqCoolingDevice?, err: int)
    requires cpufreqTable.Some? ==> WellFormedTable(cpufreqTable.value)
    ensures cpufreqTable.None? ==> dev == null && err == -EPROBE_DEFER
    ensures cpufreqTable.Some? && CountValid(cpufreqTable.value) == 0 ==> dev == null && err == -EINVAL
    ensures cpufreqTable.Some? && CountValid(cpufreqTable.value) > 0 ==>
      err == 0 && dev != null && fresh(dev) && dev.Valid() && dev.table == cpufreqTable.value
      && dev.cpufreqState == 0
  {
    if cpufreqTable.None? {
      return null, -EPROBE_DEFER;
    }
    var count := CountValidEntries(cpufreqTable.value);
    if count == 0 {
      return null, -EINVAL;
    }
    dev := new CpufreqCoolingDevice.Register(cpufreqTable.value);
    err := 0;
  }
}
