/** The notification cycle of `main` in src/X11-notify.c: every two seconds
    read the battery and, when the level is below 10 or above 85, open a
    window showing it until the user clicks it. */
module X11Notify {
  import opened Battery

  const LOW_BATTERY: real := 10.0
  const HIGH_BATTERY: real := 85.0

  /** `battery_level < LOW_BATTERY || battery_level > HIGH_BATTERY` under
      IEEE comparison: an infinity is on one side or the other, NaN on
      neither. */
  predicate NeedsNotice(l: Level) {
    if l.Finite? then l.pct < LOW_BATTERY || l.pct > HIGH_BATTERY
    else l.Infinite?
  }

  /** What one cycle makes visible: the notification (create_client, notify
      until a click, XDestroyWindow) and the two-second sleep. */
  datatype Action = Notified(level: Level) | Slept

  /** The actions of one cycle for the level it read. */
  function Cycle(l: Level): seq<Action> {
    (if NeedsNotice(l) then [Notified(l)] else []) + [Slept]
  }

  /** The actions of a run of cycles and the memo it leaves. */
  datatype Trace = Trace(actions: seq<Action>, energyFull: int)

  /** The first `|cycles|` passes of the `for (;;)` loop, one sysfs snapshot
      per pass. */
  function Cycles(memo: int, cycles: seq<Sysfs>): Trace
    decreases |cycles|
  {
    if cycles == [] then Trace([], memo)
    else
      var prev := Cycles(memo, cycles[..|cycles| - 1]);
      var s := Sample(prev.energyFull, cycles[|cycles| - 1]);
      Trace(prev.actions + Cycle(s.level), s.energyFull)
  }

  /** The `for (;;)` loop of `main`, run for the given cycles. */
  method NotifyLoop(reader: BatteryReader, cycles: seq<Sysfs>) returns (actions: seq<Action>)
    modifies reader
    ensures Trace(actions, reader.energyFull) == Cycles(old(reader.energyFull), cycles)
  {
    actions := [];
    var i := 0;
    while i < |cycles|
      invariant 0 <= i <= |cycles|
      invariant Trace(actions, reader.energyFull) == Cycles(old(reader.energyFull), cycles[..i])
    {
      assert cycles[..i + 1][..i] == cycles[..i];
      var batteryLevel := reader.GetBatteryLevel(cycles[i]);
      if NeedsNotice(batteryLevel) {
        actions := actions + [Notified(batteryLevel)];
      }
      actions := actions + [Slept];
      i := i + 1;
    }
    assert cycles[..|cycles|] == cycles;
  }

  /** The number of two-second sleeps in `a`. */
  function Sleeps(a: seq<Action>): nat
    decreases |a|
  {
    if a == [] then 0 else (if a[0] == Slept then 1 else 0) + Sleeps(a[1..])
  }

  lemma {:induction false} SleepsAppend(a: seq<Action>, b: seq<Action>)
    ensures Sleeps(a + b) == Sleeps(a) + Sleeps(b)
    decreases |a|
  {
    if a != [] {
      assert (a + b)[0] == a[0] && (a + b)[1..] == a[1..] + b;
      SleepsAppend(a[1..], b);
    } else {
      assert a + b == b;
    }
  }

  /** A cycle notifies exactly when the level is below 10 or above 85; a level
      in [10, 85], both ends included, only sleeps. */
  lemma NotifiesExactlyOutsideBand(l: Level)
    ensures Cycle(l) == [Notified(l), Slept] <==> NeedsNotice(l)
    ensures !NeedsNotice(l) ==> Cycle(l) == [Slept]
    ensures l.Finite? && LOW_BATTERY <= l.pct <= HIGH_BATTERY ==> Cycle(l) == [Slept]
  {
  }

  /** The threshold test's IEEE answers: a finite level notifies when it is
      below 10 or above 85, the limits themselves do not, either infinity
      always does and NaN never does. */
  lemma NoticeDecisions(l: Level)
    ensures NeedsNotice(l) <==> (l.Finite? && (l.pct < 10.0 || l.pct > 85.0)) || l.Infinite?
    ensures !NeedsNotice(Finite(10.0)) && !NeedsNotice(Finite(85.0)) && NeedsNotice(SENTINEL)
    ensures !NeedsNotice(NaN) && NeedsNotice(Infinite(true)) && NeedsNotice(Infinite(false))
  {
  }

  /** The sentinel is below 10: an unreadable battery always notifies, showing
      -1. */
  lemma UnreadableAlwaysNotifies(memo: int, fs: Sysfs)
    requires (memo == 0 && ENERGY_FULL !in fs) || ENERGY_NOW !in fs
    ensures Cycle(Sample(memo, fs).level) == [Notified(SENTINEL), Slept]
  {
  }

  /** Over any run every notification shows a level outside [10, 85], there is
      exactly one sleep per cycle, and the run ends with a sleep. */
  lemma {:induction false} RunNotifiesOnlyOutsideBand(memo: int, cycles: seq<Sysfs>)
    ensures var a := Cycles(memo, cycles).actions;
            (forall k :: 0 <= k < |a| && a[k].Notified? ==> NeedsNotice(a[k].level)) &&
            Sleeps(a) == |cycles| &&
            (|a| == 0 || a[|a| - 1] == Slept)
    decreases |cycles|
  {
    if cycles != [] {
      var prev := Cycles(memo, cycles[..|cycles| - 1]);
      RunNotifiesOnlyOutsideBand(memo, cycles[..|cycles| - 1]);
      var s := Sample(prev.energyFull, cycles[|cycles| - 1]);
      var a := prev.actions + Cycle(s.level);
      forall k | 0 <= k < |a| && a[k].Notified?
        ensures NeedsNotice(a[k].level)
      {
        if k >= |prev.actions| {
          assert a[k] == Cycle(s.level)[k - |prev.actions|];
        }
      }
      assert a[|a| - 1] == Slept;
      SleepsAppend(prev.actions, Cycle(s.level));
      assert Sleeps([Slept]) == 1;
      assert [Notified(s.level), Slept][1..] == [Slept];
    }
  }
}
