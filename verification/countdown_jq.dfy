/**
 * `updateCountdown` of the jQuery page. It runs with `ms`, the target instant
 * minus the current clock, both in milliseconds. For a negative `ms` it writes
 * nothing and stops. Otherwise it writes the four fields and runs again
 * 1000 ms later.
 */
module JqCountdown {
  import opened Countdown

  /** The fixed delay before the next update. */
  const Period: nat := 1000

  /** One run of `updateCountdown` with `ms` milliseconds remaining. */
  function Update(ms: int): (t: Tick)
    ensures t.Idle? <==> ms < 0
    ensures !t.Final?
    ensures t.Shown? ==> t.delay == Period && t.seconds == CeilSeconds(ms)
  {
    if ms < 0 then Idle else Shown(CeilSeconds(ms), Period)
  }

  /** At exactly 0 ms the page shows all zeros and still schedules one more run. */
  lemma ZeroRemainingReschedules()
    ensures Update(0) == Shown(0, Period)
    ensures Written(Update(0)) == AllZero
  {
    ZeroShowsAllZero();
  }

  /**
   * The last run that wrote anything once the updates stop, starting with `ms`
   * remaining and `last` the run before (`Idle` when nothing was written yet).
   * Each run happens `Period` ms after the one before it, and timer lateness
   * is ignored.
   */
  function Settle(ms: int, last: Tick): (r: Tick)
    ensures ms < 0 ==> r == last
    ensures ms >= 0 ==> r == Shown(CeilSeconds(ms % 1000), Period)
    decreases if ms < 0 then 0 else ms + 1
  {
    var t := Update(ms);
    match t
    case Shown(_, delay) =>
      ShiftKeepsRemainder(ms);
      Settle(ms - delay, t)
    case _ => last
  }

  lemma ShiftKeepsRemainder(ms: int)
    ensures (ms - 1000) % 1000 == ms % 1000
  {
  }

  /**
   * How many runs write the fields: one per whole second in `ms`, and one more
   * for the leftover below a second, which may be 0 ms.
   */
  function WritingRuns(ms: int): (n: nat)
    ensures n == if ms < 0 then 0 else ms / 1000 + 1
    decreases if ms < 0 then 0 else ms + 1
  {
    var t := Update(ms);
    if t.Shown? then 1 + WritingRuns(ms - t.delay) else 0
  }

  /**
   * The page as written stops on one second. Unless the first run falls on a
   * whole second before the target, the last run that writes anything has
   * between 1 and 999 ms left and shows one second. The run after it has a
   * negative `ms` and writes nothing.
   */
  lemma SettlesOnOneSecond(ms: int, last: Tick)
    requires ms >= 0 && ms % 1000 != 0
    ensures Settle(ms, last) == Shown(1, Period)
  {
  }

  /** The fields are then frozen on 00:00:00:01 instead of reaching zero. */
  lemma FreezesOnOneSecond(ms: int, last: Tick)
    requires ms >= 0 && ms % 1000 != 0
    ensures !Settle(ms, last).Idle? && Written(Settle(ms, last)) == OneSecondLeft
  {
    SettlesOnOneSecond(ms, last);
    LastSecondShowsOne(ms % 1000);
  }

  /** A concrete case: a first run 500 ms before the target leaves 00:00:00:01 on screen. */
  lemma HalfSecondBeforeTargetFreezes()
    ensures Settle(500, Idle) == Shown(1, Period)
    ensures Written(Settle(500, Idle)) == OneSecondLeft != AllZero
  {
    FreezesOnOneSecond(500, Idle);
  }

  /**
   * The intended ending: once the target has passed, the fields are set to
   * "00" and nothing more is scheduled. This is what the plain page does.
   */
  function UpdateSettled(ms: int): (t: Tick)
    ensures t.Final? <==> ms < 0
    ensures !t.Idle?
    ensures t.Shown? ==> t.delay == Period && t.seconds == CeilSeconds(ms)
  {
    if ms < 0 then Final else Shown(CeilSeconds(ms), Period)
  }

  /** `Settle` with the intended ending. */
  function SettleFixed(ms: int): (r: Tick)
    ensures r == Final
    decreases if ms < 0 then 0 else ms + 1
  {
    var t := UpdateSettled(ms);
    if t.Shown? then SettleFixed(ms - t.delay) else t
  }

  /** With the intended ending the last run always writes all zeros. */
  lemma SettledEndsAtZero(ms: int)
    ensures Written(SettleFixed(ms)) == AllZero
  {
  }
}
