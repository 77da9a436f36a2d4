/** `calculate_countdown`: the whole days from "now" until a certificate's
    expiry, as `(end_time - current_time).days` computes them. The clock is
    a parameter: `now` is the current UTC instant in microseconds since
    1970-01-01 00:00:00, the resolution of `datetime.now`. */
module Countdown {
  import opened Results
  import Calendar
  import opened Timestamp

  const MicrosPerSecond := 1_000_000
  const SecondsPerDay := 86_400
  const MicrosPerDay := 86_400_000_000

  function SecondOfDay(t: DateTime): (n: int)
    requires Valid(t)
    ensures 0 <= n < SecondsPerDay
  {
    t.hour * 3600 + t.minute * 60 + t.second
  }

  /** The instant a UTC date and time denotes, in seconds since 1970-01-01 00:00:00. */
  function UnixSeconds(t: DateTime): int
    requires Valid(t)
  {
    (Calendar.Ordinal(t.year, t.month, t.day) - Calendar.Ordinal(1970, 1, 1)) * SecondsPerDay + SecondOfDay(t)
  }

  /** A `timedelta`: days, seconds and microseconds. */
  datatype TimeDelta = TimeDelta(days: int, seconds: int, microseconds: int)

  function TotalMicros(d: TimeDelta): int {
    d.days * MicrosPerDay + d.seconds * MicrosPerSecond + d.microseconds
  }

  /** The canonical form `timedelta` keeps: only `days` carries a sign. */
  predicate Normalized(d: TimeDelta) {
    0 <= d.seconds < SecondsPerDay && 0 <= d.microseconds < MicrosPerSecond
  }

  /** The `timedelta` of a span of microseconds, normalized as `timedelta`
      normalizes its arguments. */
  function DeltaOf(us: int): (d: TimeDelta)
    ensures Normalized(d) && TotalMicros(d) == us
  {
    var rest := us % MicrosPerDay;
    TimeDelta(us / MicrosPerDay, rest / MicrosPerSecond, rest % MicrosPerSecond)
  }

  /** A span has one normalized form only, so `DeltaOf` is the only
      normalization there is. */
  lemma NormalizedUnique(d1: TimeDelta, d2: TimeDelta)
    requires Normalized(d1) && Normalized(d2) && TotalMicros(d1) == TotalMicros(d2)
    ensures d1 == d2
  {
    var w1 := d1.seconds * MicrosPerSecond + d1.microseconds;
    var w2 := d2.seconds * MicrosPerSecond + d2.microseconds;
    assert 0 <= w1 < MicrosPerDay && 0 <= w2 < MicrosPerDay;
    assert d1.days == d2.days;
  }

  /** `end - now` for an aware UTC `datetime` and the clock reading. */
  function Subtract(end: DateTime, now: int): (d: TimeDelta)
    requires Valid(end)
    ensures Normalized(d) && TotalMicros(d) == UnixSeconds(end) * MicrosPerSecond - now
    ensures d.days * MicrosPerDay <= UnixSeconds(end) * MicrosPerSecond - now < (d.days + 1) * MicrosPerDay
  {
    DeltaOf(UnixSeconds(end) * MicrosPerSecond - now)
  }

  /** `calculate_countdown(cert_end_time)`: parse the expiry as UTC and take
      the `days` of the difference, which is the floor of the difference
      over one day; a timestamp `strptime` refuses fails the call. */
  function CalculateCountdown(certEndTime: string, now: int): (r: Result<int, ParseError>)
    ensures r.Ok? <==> Strptime(certEndTime).Ok?
    ensures r.Err? ==> r == Err(Strptime(certEndTime).error)
    ensures r.Ok? ==>
              var diff := UnixSeconds(Strptime(certEndTime).value) * MicrosPerSecond - now;
              r.value * MicrosPerDay <= diff < (r.value + 1) * MicrosPerDay
  {
    var end :- Strptime(certEndTime);
    Ok(Subtract(end, now).days)
  }

  /** With a clock reading in whole seconds the countdown is the floor of
      the difference in seconds over 86400. */
  lemma CountdownInWholeSeconds(certEndTime: string, nowSeconds: int)
    requires Strptime(certEndTime).Ok?
    ensures var c := CalculateCountdown(certEndTime, nowSeconds * MicrosPerSecond).value;
            var diff := UnixSeconds(Strptime(certEndTime).value) - nowSeconds;
            c * SecondsPerDay <= diff < (c + 1) * SecondsPerDay && c == diff / SecondsPerDay
  {
    var c := CalculateCountdown(certEndTime, nowSeconds * MicrosPerSecond).value;
    var diff := UnixSeconds(Strptime(certEndTime).value) - nowSeconds;
    assert c * MicrosPerDay <= diff * MicrosPerSecond < (c + 1) * MicrosPerDay;
    assert c * SecondsPerDay <= diff < (c + 1) * SecondsPerDay;
  }

  /** The countdown is negative exactly for a certificate that has already
      expired, and zero exactly when less than one day is left. */
  lemma CountdownSign(certEndTime: string, now: int)
    requires Strptime(certEndTime).Ok?
    ensures var c := CalculateCountdown(certEndTime, now).value;
            var diff := UnixSeconds(Strptime(certEndTime).value) * MicrosPerSecond - now;
            (c < 0 <==> diff < 0) && (c == 0 <==> 0 <= diff < MicrosPerDay)
  {
  }

  /** For one clock reading, a later instant of expiry never has a smaller countdown. */
  lemma CountdownMonotone(earlier: string, later: string, now: int)
    requires Strptime(earlier).Ok? && Strptime(later).Ok?
    requires UnixSeconds(Strptime(earlier).value) <= UnixSeconds(Strptime(later).value)
    ensures CalculateCountdown(earlier, now).value <= CalculateCountdown(later, now).value
  {
  }

  /** Lexicographic order on date and time fields. */
  predicate NotAfter(a: DateTime, b: DateTime) {
    || Calendar.DateBefore(a.year, a.month, a.day, b.year, b.month, b.day)
    || ((a.year, a.month, a.day) == (b.year, b.month, b.day)
        && (a.hour < b.hour || (a.hour == b.hour
            && (a.minute < b.minute || (a.minute == b.minute && a.second <= b.second)))))
  }

  /** Later fields denote a later instant. */
  lemma UnixSecondsMonotone(a: DateTime, b: DateTime)
    requires Valid(a) && Valid(b) && NotAfter(a, b)
    ensures UnixSeconds(a) <= UnixSeconds(b)
  {
    if Calendar.DateBefore(a.year, a.month, a.day, b.year, b.month, b.day) {
      Calendar.OrdinalMonotone(a.year, a.month, a.day, b.year, b.month, b.day);
    }
  }

  /** For one clock reading, a timestamp whose fields are later never has a
      smaller countdown. */
  lemma LaterTimestampNotSmallerCountdown(earlier: string, later: string, now: int)
    requires Strptime(earlier).Ok? && Strptime(later).Ok?
    requires NotAfter(Strptime(earlier).value, Strptime(later).value)
    ensures CalculateCountdown(earlier, now).value <= CalculateCountdown(later, now).value
  {
    UnixSecondsMonotone(Strptime(earlier).value, Strptime(later).value);
    CountdownMonotone(earlier, later, now);
  }
}
