/**
 * The frame record of the archive, after the scripts have normalised it,
 * and the calendar arithmetic behind its `datetime` column.
 */
module Frames {
  import opened Wrappers

  /** A footprint centroid in degrees. */
  datatype Position = Position(ra: real, dec: real)

  /** One row of the frame table. `datetime` is the parsed `DATE_OBS`,
      counted in microseconds from 0001-01-01T00:00:00 (the proleptic
      Gregorian calendar Python's `datetime` uses). A `BLKUID` of `None`
      behaves like pandas' NaN: it equals nothing, not even itself. A
      missing `pos` is a row whose `RA`/`DEC` are empty. */
  datatype Frame = Frame(
    id: int,
    dateObs: string,
    datetime: int,
    blkuid: Option<int>,
    exptime: real,
    filter: string,
    instrume: string,
    objectName: string,
    obstype: string,
    propid: string,
    reqnum: int,
    rlevel: int,
    pos: Option<Position>)

  /** A calendar date and time of day, as Python's `datetime.datetime`. */
  datatype DateTime = DateTime(
    year: int, month: int, day: int,
    hour: int, minute: int, second: int, microsecond: int)

  const MicrosPerSecond: int := 1_000_000
  const MicrosPerDay: int := 86_400_000_000

  predicate IsLeap(y: int)
  {
    y % 4 == 0 && (y % 100 != 0 || y % 400 == 0)
  }

  function DaysInMonth(y: int, m: int): (n: int)
    requires 1 <= m <= 12
    ensures 28 <= n <= 31
  {
    if m == 2 then (if IsLeap(y) then 29 else 28)
    else if m == 4 || m == 6 || m == 9 || m == 11 then 30
    else 31
  }

  /** The ranges `datetime.datetime` accepts. */
  predicate ValidDateTime(d: DateTime)
  {
    && 1 <= d.year <= 9999
    && 1 <= d.month <= 12
    && 1 <= d.day <= DaysInMonth(d.year, d.month)
    && 0 <= d.hour < 24
    && 0 <= d.minute < 60
    && 0 <= d.second < 60
    && 0 <= d.microsecond < MicrosPerSecond
  }

  /** Days in the years before `y`. */
  function DaysBeforeYear(y: int): int
  {
    var p := y - 1;
    365 * p + p / 4 - p / 100 + p / 400
  }

  /** Days in the months of year `y` before month `m`. */
  function DaysBeforeMonth(y: int, m: int): int
    requires 1 <= m <= 12
    decreases m
  {
    if m == 1 then 0 else DaysBeforeMonth(y, m - 1) + DaysInMonth(y, m - 1)
  }

  /** `datetime.toordinal()` minus one: whole days since 0001-01-01. */
  function DayNumber(d: DateTime): int
    requires 1 <= d.month <= 12
  {
    DaysBeforeYear(d.year) + DaysBeforeMonth(d.year, d.month) + d.day - 1
  }

  /** The instant of a calendar datetime, in microseconds. */
  function Micros(d: DateTime): int
    requires 1 <= d.month <= 12
  {
    (((DayNumber(d) * 24 + d.hour) * 60 + d.minute) * 60 + d.second) * MicrosPerSecond
      + d.microsecond
  }

  // The time-of-day fields of an instant, as `datetime` reports them.
  function MicroOf(t: int): int { t % MicrosPerSecond }
  function SecondsOf(t: int): int { t / MicrosPerSecond }
  function SecondOf(t: int): int { SecondsOf(t) % 60 }
  function MinutesOf(t: int): int { SecondsOf(t) / 60 }
  function MinuteOf(t: int): int { MinutesOf(t) % 60 }
  function HoursOf(t: int): int { MinutesOf(t) / 60 }
  function HourOf(t: int): int { HoursOf(t) % 24 }

  /** Euclidean division is determined by quotient and remainder. */
  lemma DivModOf(x: int, k: int, q: int, r: int)
    requires k > 0 && 0 <= r < k && x == q * k + r
    ensures x / k == q && x % k == r
  {
    var q', r' := x / k, x % k;
    assert (q - q') * k == r' - r;
    if q > q' {
      MulAtLeast(q - q', k);
    } else if q < q' {
      MulAtLeast(q' - q, k);
    }
  }

  lemma MulAtLeast(a: int, k: int)
    requires a >= 1 && k > 0
    ensures a * k >= k
  {
  }

  /** Reading the time of day back from an instant gives the datetime's own
      hour, minute, second and microsecond. */
  lemma {:induction false} TimeOfDay(d: DateTime)
    requires ValidDateTime(d)
    ensures MicroOf(Micros(d)) == d.microsecond
    ensures SecondOf(Micros(d)) == d.second
    ensures MinuteOf(Micros(d)) == d.minute
    ensures HourOf(Micros(d)) == d.hour
  {
    var t := Micros(d);
    var hours := DayNumber(d) * 24 + d.hour;
    var minutes := hours * 60 + d.minute;
    var seconds := minutes * 60 + d.second;
    DivModOf(t, MicrosPerSecond, seconds, d.microsecond);
    DivModOf(seconds, 60, minutes, d.second);
    DivModOf(minutes, 60, hours, d.minute);
    DivModOf(hours, 24, DayNumber(d), d.hour);
  }
}
