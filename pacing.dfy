/** Frame pacing of the visible popup in src/SDL-notify.c: measure how long a
    frame took on the monotonic clock and, when that is below the 16 ms frame
    budget, ask `nanosleep` for the rest. */
module FramePacing {

  const FPS: int := 60
  /** `MSEC_PER_FRAME = 1000 / FPS`, an `int` division: 16. */
  const MSEC_PER_FRAME: int := 1000 / FPS
  const NSEC_PER_MSEC: int := 1_000_000
  const NSEC_PER_SEC: int := 1_000_000_000

  /** A `struct timespec` read from `CLOCK_MONOTONIC`. */
  datatype TimeSpec = TimeSpec(sec: int, nsec: int)

  /** A timespec as the kernel returns it: the nanoseconds are below a second. */
  predicate Normalized(t: TimeSpec) {
    0 <= t.nsec < NSEC_PER_SEC
  }

  function ElapsedNs(start: TimeSpec, end: TimeSpec): int {
    (end.sec - start.sec) * NSEC_PER_SEC + (end.nsec - start.nsec)
  }

  /** `ns / 1000000` in C: whole milliseconds, truncated toward zero. */
  function NsToMsec(ns: int): (ms: int)
    ensures ns >= 0 ==> 0 <= ms * NSEC_PER_MSEC <= ns < ms * NSEC_PER_MSEC + NSEC_PER_MSEC
    ensures ns < 0 ==> ns <= ms * NSEC_PER_MSEC < ns + NSEC_PER_MSEC && ms <= 0
  {
    if ns >= 0 then ns / NSEC_PER_MSEC else -((-ns) / NSEC_PER_MSEC)
  }

  /** The nanoseconds of sleep requested after a frame, 0 when `nanosleep`
      is not called: the source's computation applied to the whole elapsed
      time. For a well-formed frame the request is a valid `tv_nsec`, and
      the frame then lasts at least the budget and less than one millisecond
      more; a frame already over budget is not delayed. */
  function FrameSleep(start: TimeSpec, end: TimeSpec): (ns: int)
    ensures Normalized(start) && Normalized(end) && ElapsedNs(start, end) >= 0 ==>
              0 <= ns < NSEC_PER_SEC &&
              (ns > 0 <==> ElapsedNs(start, end) < MSEC_PER_FRAME * NSEC_PER_MSEC) &&
              (ns > 0 ==> MSEC_PER_FRAME * NSEC_PER_MSEC <= ElapsedNs(start, end) + ns
                                                          < (MSEC_PER_FRAME + 1) * NSEC_PER_MSEC)
  {
    var msec := NsToMsec(ElapsedNs(start, end));
    if msec < MSEC_PER_FRAME then (MSEC_PER_FRAME - msec) * NSEC_PER_MSEC else 0
  }

  /** The same request as src/SDL-notify.c computes it: from the difference of
      the `tv_nsec` fields alone, the seconds being ignored. */
  function FrameSleepAsWritten(start: TimeSpec, end: TimeSpec): (ns: int)
  {
    var msec := NsToMsec(end.nsec - start.nsec);
    if msec < MSEC_PER_FRAME then (MSEC_PER_FRAME - msec) * NSEC_PER_MSEC else 0
  }

  /** Within one second of the clock both computations agree. */
  lemma AsWrittenAgreesWithinSecond(start: TimeSpec, end: TimeSpec)
    requires start.sec == end.sec
    ensures FrameSleepAsWritten(start, end) == FrameSleep(start, end)
  {
    assert ElapsedNs(start, end) == end.nsec - start.nsec;
  }

  /** Across a second boundary the source's request goes wrong: a 20 ms frame,
      already over budget, is followed by a 996 ms sleep; an 8 ms frame asks
      for 1008 ms, a `tv_nsec` of a second or more that `nanosleep` rejects
      with EINVAL, so that frame is not paced at all. */
  lemma SecondRolloverMisPaces()
    ensures var s, e := TimeSpec(0, 990_000_000), TimeSpec(1, 10_000_000);
            ElapsedNs(s, e) == 20_000_000 &&
            FrameSleep(s, e) == 0 && FrameSleepAsWritten(s, e) == 996_000_000
    ensures var s, e := TimeSpec(0, 995_000_000), TimeSpec(1, 3_000_000);
            ElapsedNs(s, e) == 8_000_000 &&
            FrameSleep(s, e) == 8_000_000 && FrameSleepAsWritten(s, e) == 1_008_000_000 &&
            FrameSleepAsWritten(s, e) >= NSEC_PER_SEC
  {
  }
}
