/**
 * `updateCountdownElements` of the plain page. With `msRemaining = target - now`
 * at most zero it writes "00" into every field and stops. Otherwise it writes
 * the four fields and runs again 6 ms after the next whole second of the clock.
 */
module PlainCountdown {
  import opened Countdown
  import JsNumber

  /** The margin after the second boundary at which the next update runs. */
  const Margin: nat := 6

  /** `1000 - (now % 1000) + 6`, with JavaScript's truncating `%`. */
  function NextDelay(now: int): (delay: int)
    ensures delay >= 7
    ensures now >= 0 ==> delay <= 1006
  {
    1000 - JsNumber.RemInt(now, 1000) + Margin
  }

  /** The next run falls `Margin` ms after a whole second: for a non-negative clock, the next one. */
  lemma NextDelayLands(now: int)
    ensures (now + NextDelay(now)) % 1000 == Margin
    ensures now >= 0 ==> now + NextDelay(now) == (now / 1000 + 1) * 1000 + Margin
  {
  }

  /** One run of `updateCountdownElements` at clock `now`. */
  function Update(target: int, now: int): (t: Tick)
    ensures t.Final? <==> target - now <= 0
    ensures !t.Idle?
    ensures t.Shown? ==> t.seconds == CeilSeconds(target - now) >= 1 && t.delay == NextDelay(now)
  {
    var msRemaining := target - now;
    if msRemaining <= 0 then Final else Shown(CeilSeconds(msRemaining), NextDelay(now))
  }

  /**
   * When the target lies on a whole second, as a date built from whole hours
   * does, every update shows exactly one second less than the one before it.
   * No second is skipped or shown twice.
   */
  lemma TicksOneSecondApart(target: int, now: int)
    requires target % 1000 == 0 && now >= 0 && target > now
    ensures CeilSeconds(target - (now + NextDelay(now))) == CeilSeconds(target - now) - 1
  {
    var T, q, r := target / 1000, now / 1000, now % 1000;
    assert target == 1000 * T && now == 1000 * q + r;
    NextDelayLands(now);
    assert now + NextDelay(now) == 1000 * (q + 1) + 6;
    assert target - now == 1000 * (T - q) - r;
    assert CeilSeconds(target - now) == T - q;
    assert target - (now + NextDelay(now)) == 1000 * (T - q - 1) - 6;
  }

  /**
   * The last run that wrote anything once the updates stop, starting at clock
   * `now`. Each update runs at the time it scheduled, and timer lateness is
   * ignored. However the countdown starts, it ends on the run that writes "00"
   * into every field.
   */
  function Settle(target: int, now: int): (r: Tick)
    ensures r == Final
    decreases if target - now <= 0 then 0 else target - now
  {
    var t := Update(target, now);
    if t.Shown? then Settle(target, now + t.delay) else t
  }

  /**
   * How many runs write a number of seconds before the final run. For a
   * target on a whole second and a non-negative clock, that is one run per
   * second remaining at the start, counted down without a gap.
   */
  function WritingRuns(target: int, now: int): (n: nat)
    ensures target % 1000 == 0 && now >= 0 ==>
      n == if target - now <= 0 then 0 else CeilSeconds(target - now)
    decreases if target - now <= 0 then 0 else target - now
  {
    var t := Update(target, now);
    if t.Shown? then
      RunStep(target, now);
      1 + WritingRuns(target, now + t.delay)
    else 0
  }

  /** One run takes exactly one second off the seconds still to be written. */
  lemma RunStep(target: int, now: int)
    requires target - now > 0
    ensures target % 1000 == 0 && now >= 0 ==>
      var next := now + NextDelay(now);
      (if target - next <= 0 then 0 else CeilSeconds(target - next)) == CeilSeconds(target - now) - 1
  {
  }

  /** The fields the countdown leaves on screen are all "00". */
  lemma SettlesAtZero(target: int, now: int)
    ensures Written(Settle(target, now)) == AllZero
  {
  }
}
