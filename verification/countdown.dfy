/**
 * The countdown arithmetic shared by both versions of the page: remaining
 * milliseconds become whole seconds (rounded up), the seconds split into
 * days, hours, minutes and seconds, and each field is shown as a numeral
 * zero-padded to two digits.
 */
module Countdown {
  import opened Decimal
  import opened Arith

  const SecondsPerDay: nat := 86400
  const SecondsPerHour: nat := 3600
  const SecondsPerMinute: nat := 60

  datatype Parts = Parts(days: nat, hours: nat, minutes: nat, seconds: nat)

  /** Every field below the day is smaller than its radix. */
  predicate InRange(p: Parts)
  {
    p.hours < 24 && p.minutes < 60 && p.seconds < 60
  }

  /** The number of seconds a decomposition stands for. */
  function TotalSeconds(p: Parts): nat
  {
    p.days * SecondsPerDay + p.hours * SecondsPerHour + p.minutes * SecondsPerMinute + p.seconds
  }

  /** `Math.ceil(ms / 1000)` for a whole number of milliseconds, of any sign. */
  function CeilSeconds(ms: int): (s: int)
    ensures (s - 1) * 1000 < ms <= s * 1000
    ensures ms >= 0 ==> s >= 0
    ensures ms > 0 ==> s >= 1
  {
    -((-ms) / 1000)
  }

  /**
   * The decomposition both pages compute: days by `floor(s / 86400)`, hours by
   * `floor((s % 86400) / 3600)`, minutes by `floor((s % 3600) / 60)` and seconds
   * by `s % 60`.
   */
  function Split(s: nat): (p: Parts)
    ensures InRange(p)
    ensures TotalSeconds(p) == s
  {
    SplitRecombines(s);
    Parts(s / SecondsPerDay, (s % SecondsPerDay) / SecondsPerHour, (s % SecondsPerHour) / SecondsPerMinute, s % SecondsPerMinute)
  }

  lemma SplitRecombines(s: nat)
    ensures var p := Parts(s / 86400, (s % 86400) / 3600, (s % 3600) / 60, s % 60);
      InRange(p) && TotalSeconds(p) == s
  {
    var d, r := s / 86400, s % 86400;
    var h, r2 := r / 3600, r % 3600;
    var m, sec := r2 / 60, r2 % 60;
    DivMod(s, 3600, 24 * d + h, r2);
    DivMod(s, 60, 60 * (24 * d + h) + m, sec);
  }

  /** `q` and `r` are the quotient and remainder of `n` by `k` when `n == q * k + r` with `r < k`. */
  lemma DivMod(n: nat, k: nat, q: nat, r: nat)
    requires r < k && n == q * k + r
    ensures n / k == q && n % k == r
  {
    UniqueQuotient(n / k, n % k, q, r, k);
  }

  /** Splitting is the inverse of recombining: a decomposition in range is the only one of its total. */
  lemma {:induction false} SplitOfTotal(p: Parts)
    requires InRange(p)
    ensures Split(TotalSeconds(p)) == p
  {
    var s := TotalSeconds(p);
    var q := Split(s);
    var a := p.hours * 3600 + p.minutes * 60 + p.seconds;
    var b := q.hours * 3600 + q.minutes * 60 + q.seconds;
    assert a < 86400 && b < 86400;
    assert p.days * 86400 + a == q.days * 86400 + b;
    UniqueQuotient(p.days, a, q.days, b, 86400);
    var c := p.minutes * 60 + p.seconds;
    var e := q.minutes * 60 + q.seconds;
    UniqueQuotient(p.hours, c, q.hours, e, 3600);
    UniqueQuotient(p.minutes, p.seconds, q.minutes, q.seconds, 60);
  }

  /** The four texts written into the countdown's day, hour, minute and second fields. */
  datatype Display = Display(d: string, h: string, m: string, s: string)

  const AllZero: Display := Display("00", "00", "00", "00")

  /** The display one second before the target. */
  const OneSecondLeft: Display := Display("00", "00", "00", "01")

  /**
   * `r` is how a field holding `v` reads: the numeral of `v`, at least two
   * characters long, exactly two when `v` has at most two digits, and never
   * cut short when `v` has more.
   */
  predicate PaddedNumeral(r: string, v: nat)
  {
    && AllDigits(r) && Value(r) == v
    && |r| >= 2
    && (v < 100 ==> |r| == 2)
    && (v >= 10 ==> r == NatToString(v))
  }

  /** One field: `String(v).padStart(2, '0')`. */
  function Field(v: nat): (r: string)
    ensures PaddedNumeral(r, v)
  {
    assert Pow10(2) == 100;
    ZeroPad(v, 2)
  }

  /** Each field as `String(v).padStart(2, '0')`. */
  function Show(p: Parts): (r: Display)
    ensures PaddedNumeral(r.d, p.days)
    ensures PaddedNumeral(r.h, p.hours)
    ensures PaddedNumeral(r.m, p.minutes)
    ensures PaddedNumeral(r.s, p.seconds)
  {
    Display(Field(p.days), Field(p.hours), Field(p.minutes), Field(p.seconds))
  }

  /** Two decompositions show the same texts only if they are the same decomposition. */
  lemma ShowInjective(p: Parts, q: Parts)
    requires Show(p) == Show(q)
    ensures p == q
  {
  }

  /** The numbers a display's four fields read as. */
  function ReadBack(r: Display): Parts
    requires AllDigits(r.d) && AllDigits(r.h) && AllDigits(r.m) && AllDigits(r.s)
  {
    Parts(Value(r.d), Value(r.h), Value(r.m), Value(r.s))
  }

  /**
   * `r` shows `s` seconds: its four fields are zero-padded numerals whose
   * values recombine to `s`, with hours, minutes and seconds below their radix.
   */
  predicate Shows(r: Display, s: nat)
  {
    && AllDigits(r.d) && AllDigits(r.h) && AllDigits(r.m) && AllDigits(r.s)
    && var p := ReadBack(r);
    && PaddedNumeral(r.d, p.days) && PaddedNumeral(r.h, p.hours)
    && PaddedNumeral(r.m, p.minutes) && PaddedNumeral(r.s, p.seconds)
    && InRange(p) && TotalSeconds(p) == s
  }

  /** The fields for `s` whole seconds: split, and each part padded. */
  function ShowSeconds(s: nat): (r: Display)
    ensures Shows(r, s)
  {
    var p := Split(s);
    ShowReadsBack(p);
    Show(p)
  }

  /** The remaining time as shown: seconds rounded up, split, and padded. */
  function ShowRemaining(ms: int): (r: Display)
    requires ms >= 0
    ensures Shows(r, CeilSeconds(ms))
  {
    ShowSeconds(CeilSeconds(ms))
  }

  /** Showing an in-range decomposition is read back as that decomposition. */
  lemma ShowReadsBack(p: Parts)
    requires InRange(p)
    ensures Shows(Show(p), TotalSeconds(p))
  {
    var r := Show(p);
    assert ReadBack(r) == p;
  }

  /**
   * What one run of a countdown update does. A run that writes records the
   * number of whole seconds it shows; the texts it writes are `Written`.
   */
  datatype Tick =
    | Idle                              // writes nothing and schedules nothing
    | Final                             // writes "00" into every field and schedules nothing
    | Shown(seconds: nat, delay: int)   // writes the fields for `seconds` and runs again after `delay` ms

  /** The texts a writing run leaves in the four fields. */
  function Written(t: Tick): (r: Display)
    requires !t.Idle?
    ensures Shows(r, if t.Shown? then t.seconds else 0)
  {
    match t
    case Final => AllZero
    case Shown(s, _) => ShowSeconds(s)
  }

  /** At 0 ms nothing is left: every field shows "00". */
  lemma ZeroShowsAllZero()
    ensures ShowRemaining(0) == AllZero
  {
    NoSecondsShowAllZero(0);
  }

  /** When the remaining time rounds up to no seconds at all, every field shows "00". */
  lemma NoSecondsShowAllZero(ms: int)
    requires ms >= 0 && CeilSeconds(ms) == 0
    ensures ShowRemaining(ms) == AllZero
  {
    var p := Split(0);
    assert p == Parts(0, 0, 0, 0);
    FieldOfZero();
  }

  lemma FieldOfZero()
    ensures Field(0) == "00"
  {
    assert NatToString(0) == "0";
    assert Repeat('0', 1) == "0";
  }

  /** From 1 ms to 1000 ms before the target the countdown shows 00:00:00:01. */
  lemma LastSecondShowsOne(ms: int)
    requires 1 <= ms <= 1000
    ensures CeilSeconds(ms) == 1
    ensures ShowRemaining(ms) == OneSecondLeft
  {
    assert CeilSeconds(ms) == 1;
    var p := Split(1);
    assert p == Parts(0, 0, 0, 1);
    assert Field(0) == "00";
    assert Field(1) == "01";
  }
}
