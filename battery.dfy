/** The battery reader `get_battery_level`, identical in src/SDL-notify.c and
    src/X11-notify.c: a `static int energy_full` memo that is (re)read while it
    is 0, the `-1.0f` sentinel when a counter file does not open, and
    `100.0f * energy_now / energy_full` otherwise. */
module Battery {

  /** A percentage as the C `float` holds it. Rounding to single precision is
      not modelled; the non-finite values that a zero `energy_full` produces
      are kept apart, because the callers compare them with thresholds. */
  datatype Level = Finite(pct: real) | Infinite(negative: bool) | NaN

  /** The "impossible value" returned when a counter file cannot be opened. */
  const SENTINEL: Level := Finite(-1.0)

  const ENERGY_FULL: string := "/sys/class/power_supply/BAT0/energy_full"
  const ENERGY_NOW: string := "/sys/class/power_supply/BAT0/energy_now"

  /** The sysfs counters at the moment of one call: a path is present when
      `fopen` succeeds on it, and maps to the integer `fscanf` reads. */
  type Sysfs = map<string, int>

  /** What one call returns, together with the memo it leaves behind. */
  datatype SampleResult = SampleResult(level: Level, energyFull: int)

  /** `100.0f * now / full`, with IEEE division's answers when `full` is 0. */
  function Percent(now: int, full: int): (l: Level)
    ensures full != 0 <==> l.Finite?
    ensures l.Finite? ==> l.pct * (full as real) == 100.0 * (now as real)
    ensures l.Infinite? ==> now != 0 && (l.negative <==> now < 0)
    ensures full == 0 && now != 0 ==> l == Infinite(now < 0)
    ensures full == 0 && now == 0 ==> l == NaN
  {
    if full != 0 then Finite(100.0 * (now as real) / (full as real))
    else if now == 0 then NaN
    else Infinite(now < 0)
  }

  /** One call of `get_battery_level` with memo `memo` against sysfs `fs`.
      The memo is taken from `energy_full` only while it is 0; the level is
      the sentinel when a file the call needs does not open, and otherwise
      the percentage of `energy_now` over the memo it leaves. */
  function Sample(memo: int, fs: Sysfs): (r: SampleResult)
    ensures memo != 0 ==> r.energyFull == memo
    ensures memo == 0 ==> r.energyFull == (if ENERGY_FULL in fs then fs[ENERGY_FULL] else 0)
    ensures (memo == 0 && ENERGY_FULL !in fs) || ENERGY_NOW !in fs ==> r.level == SENTINEL
    ensures (memo != 0 || ENERGY_FULL in fs) && ENERGY_NOW in fs ==>
              r.level == Percent(fs[ENERGY_NOW], r.energyFull)
  {
    if memo == 0 && ENERGY_FULL !in fs then SampleResult(SENTINEL, memo)
    else
      var full := if memo == 0 then fs[ENERGY_FULL] else memo;
      if ENERGY_NOW !in fs then SampleResult(SENTINEL, full)
      else SampleResult(Percent(fs[ENERGY_NOW], full), full)
  }

  /** The function-local static state of `get_battery_level`. */
  class BatteryReader {
    /** `static int energy_full`: 0 until a read stores a non-zero value. */
    var energyFull: int

    constructor ()
      ensures energyFull == 0
    {
      energyFull := 0;
    }

    method GetBatteryLevel(fs: Sysfs) returns (level: Level)
      modifies this
      ensures SampleResult(level, energyFull) == Sample(old(energyFull), fs)
    {
      if energyFull == 0 {
        if ENERGY_FULL !in fs {
          return SENTINEL;
        }
        energyFull := fs[ENERGY_FULL];
      }
      if ENERGY_NOW !in fs {
        return SENTINEL;
      }
      var energyNow := fs[ENERGY_NOW];
      level := Percent(energyNow, energyFull);
    }
  }

  /** A missing `energy_full` yields the sentinel and leaves the memo at 0, so
      the next call opens the file again and uses what it then holds. */
  lemma MissingFullIsRetried(fs1: Sysfs, fs2: Sysfs)
    requires ENERGY_FULL !in fs1
    requires ENERGY_FULL in fs2 && ENERGY_NOW in fs2
    ensures Sample(0, fs1) == SampleResult(SENTINEL, 0)
    ensures Sample(Sample(0, fs1).energyFull, fs2)
            == SampleResult(Percent(fs2[ENERGY_NOW], fs2[ENERGY_FULL]), fs2[ENERGY_FULL])
  {
  }

  /** Once the memo is non-zero, `energy_full` is never consulted again and the
      memo never changes: the result depends on `energy_now` alone. */
  lemma FullReadOnlyWhileUnset(memo: int, fs: Sysfs, other: Sysfs)
    requires memo != 0
    requires (ENERGY_NOW in fs <==> ENERGY_NOW in other)
    requires ENERGY_NOW in fs ==> fs[ENERGY_NOW] == other[ENERGY_NOW]
    ensures Sample(memo, fs) == Sample(memo, other)
    ensures Sample(memo, fs).energyFull == memo
  {
  }

  /** While the memo is 0, a call that opens `energy_full` adopts its value. */
  lemma FullReadWhileUnset(fs: Sysfs)
    requires ENERGY_FULL in fs
    ensures Sample(0, fs).energyFull == fs[ENERGY_FULL]
  {
  }

  /** A missing `energy_now` yields the sentinel for this call only; the memo
      is what the `energy_full` step left, so later calls are not poisoned. */
  lemma MissingNowKeepsMemo(memo: int, fs: Sysfs)
    requires ENERGY_NOW !in fs
    ensures Sample(memo, fs).level == SENTINEL
    ensures memo != 0 ==> Sample(memo, fs).energyFull == memo
    ensures memo == 0 && ENERGY_FULL in fs ==> Sample(memo, fs).energyFull == fs[ENERGY_FULL]
  {
  }

  /** With both counters available the result is the charge as a percentage of
      the full capacity: `level * full == 100 * now`, within [0, 100] when the
      counters are consistent, and non-finite only for a zero capacity. */
  lemma ReadingIsPercentOfFull(memo: int, fs: Sysfs)
    requires ENERGY_NOW in fs && (memo != 0 || ENERGY_FULL in fs)
    ensures var full := if memo != 0 then memo else fs[ENERGY_FULL];
            var l := Sample(memo, fs).level;
            (full != 0 <==> l.Finite?) &&
            (l.Finite? ==> l.pct * (full as real) == 100.0 * (fs[ENERGY_NOW] as real)) &&
            (0 <= fs[ENERGY_NOW] <= full && full != 0 ==> 0.0 <= l.pct <= 100.0)
  {
    var full := if memo != 0 then memo else fs[ENERGY_FULL];
    var now := fs[ENERGY_NOW];
    var l := Sample(memo, fs).level;
    if 0 <= now <= full && full != 0 {
      PercentBounds(now, full);
    }
  }

  /** A charge between empty and full is a percentage between 0 and 100. */
  lemma PercentBounds(now: int, full: int)
    requires 0 <= now <= full && full != 0
    ensures Percent(now, full).Finite?
    ensures 0.0 <= Percent(now, full).pct <= 100.0
  {
    var p := Percent(now, full).pct;
    assert p * (full as real) == 100.0 * (now as real);
  }
}
