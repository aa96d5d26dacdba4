/** Go `time.Time` values in the one fixed zone the app runs in, seen as civil
    date-times, and the parts of Go's time arithmetic the app relies on:
    `Day`, `Before`, `After`, `Sub` and `Duration.Round(time.Minute)`.
    Durations are nanoseconds, as `time.Duration` is. */
module CivilTime {
  import opened GoInt

  const Second: int := 1_000_000_000
  const Minute: int := 60_000_000_000
  const Hour: int := 3_600_000_000_000
  const NanosPerDay: int := 86_400_000_000_000

  predicate IsLeapYear(y: int) {
    y % 4 == 0 && (y % 100 != 0 || y % 400 == 0)
  }

  function DaysInYear(y: int): int {
    if IsLeapYear(y) then 366 else 365
  }

  function DaysInMonth(y: int, m: int): (n: int)
    requires 1 <= m <= 12
    ensures 28 <= n <= 31
  {
    if m == 2 then (if IsLeapYear(y) then 29 else 28)
    else if m == 4 || m == 6 || m == 9 || m == 11 then 30
    else 31
  }

  /** Days of year `y` that lie before the first of month `m`. */
  function DaysBeforeMonth(y: int, m: int): int
    requires 1 <= m <= 12
  {
    (if m > 2 && IsLeapYear(y) then 1 else 0) +
    (if m == 1 then 0 else if m == 2 then 31 else if m == 3 then 59
     else if m == 4 then 90 else if m == 5 then 120 else if m == 6 then 151
     else if m == 7 then 181 else if m == 8 then 212 else if m == 9 then 243
     else if m == 10 then 273 else if m == 11 then 304 else 334)
  }

  /** Days from 1 January of year 1 to 1 January of year `y` in the proleptic
      Gregorian calendar (negative before year 1). */
  function DaysBeforeYear(y: int): int {
    var p := y - 1;
    365 * p + p / 4 - p / 100 + p / 400
  }

  datatype DateTime = DateTime(year: int, month: int, day: int,
                               hour: int, minute: int, second: int, nanosecond: int)

  predicate ValidDateTime(t: DateTime) {
    && 1 <= t.month <= 12
    && 1 <= t.day <= DaysInMonth(t.year, t.month)
    && 0 <= t.hour < 24 && 0 <= t.minute < 60 && 0 <= t.second < 60
    && 0 <= t.nanosecond < Second
  }

  /** A wall-clock reading in the app's zone. */
  type Time = t: DateTime | ValidDateTime(t) witness DateTime(1970, 1, 1, 0, 0, 0, 0)

  /** Days since 1 January of year 1 of the date of `t`. */
  function DayNumber(t: Time): int {
    DaysBeforeYear(t.year) + DaysBeforeMonth(t.year, t.month) + t.day - 1
  }

  function NanoOfDay(t: Time): (n: int)
    ensures 0 <= n < NanosPerDay
  {
    t.hour * 3_600_000_000_000 + t.minute * 60_000_000_000 + t.second * 1_000_000_000 + t.nanosecond
  }

  /** The instant `t` denotes: nanoseconds since 0001-01-01T00:00 in the zone. */
  function Nanos(t: Time): int {
    DayNumber(t) * 86_400_000_000_000 + NanoOfDay(t)
  }

  /** `t.Before(u)`. */
  predicate Before(t: Time, u: Time) {
    Nanos(t) < Nanos(u)
  }

  /** `t.After(u)`. */
  predicate After(t: Time, u: Time) {
    Nanos(t) > Nanos(u)
  }

  /** `t.Sub(u)`: the duration from `u` to `t`, clamped to the int64 range. */
  function Sub(t: Time, u: Time): (d: Int64)
    ensures d == Saturate(Nanos(t) - Nanos(u))
    ensures d > 0 <==> After(t, u)
    ensures d < 0 <==> Before(t, u)
  {
    Saturate(Nanos(t) - Nanos(u))
  }

  /** The civil (field-by-field) order of two date-times. */
  predicate CivilLess(a: DateTime, b: DateTime) {
    if a.year != b.year then a.year < b.year
    else if a.month != b.month then a.month < b.month
    else if a.day != b.day then a.day < b.day
    else if a.hour != b.hour then a.hour < b.hour
    else if a.minute != b.minute then a.minute < b.minute
    else if a.second != b.second then a.second < b.second
    else a.nanosecond < b.nanosecond
  }

  predicate SameDate(a: DateTime, b: DateTime) {
    a.year == b.year && a.month == b.month && a.day == b.day
  }

  lemma YearLength(y: int)
    ensures DaysBeforeYear(y + 1) == DaysBeforeYear(y) + DaysInYear(y)
  {
    var p := y - 1;
    DivStep(y, 4);
    DivStep(y, 100);
    DivStep(y, 400);
    var extra := (y / 4 - p / 4) - (y / 100 - p / 100) + (y / 400 - p / 400);
    assert DaysBeforeYear(y + 1) == DaysBeforeYear(y) + 365 + extra;
    Divides(y);
  }

  /** Multiples of 400 are multiples of 100, and those are multiples of 4. */
  lemma Divides(y: int)
    ensures y % 400 == 0 ==> y % 100 == 0
    ensures y % 100 == 0 ==> y % 4 == 0
  {
    if y % 400 == 0 {
      var q := y / 400;
      assert y == 400 * q;
      HundredsOfFourHundreds(q);
    }
    if y % 100 == 0 {
      var q := y / 100;
      assert y == 100 * q;
      FoursOfHundreds(q);
    }
  }

  lemma HundredsOfFourHundreds(q: int)
    ensures (400 * q) % 100 == 0
  {
  }

  lemma FoursOfHundreds(q: int)
    ensures (100 * q) % 4 == 0
  {
  }

  lemma DivStep(y: int, k: int)
    requires k == 4 || k == 100 || k == 400
    ensures y / k - (y - 1) / k == if y % k == 0 then 1 else 0
  {
    if k == 4 {
      assert y / 4 - (y - 1) / 4 == if y % 4 == 0 then 1 else 0;
    } else if k == 100 {
      assert y / 100 - (y - 1) / 100 == if y % 100 == 0 then 1 else 0;
    } else {
      assert y / 400 - (y - 1) / 400 == if y % 400 == 0 then 1 else 0;
    }
  }

  lemma {:induction false} YearsAfter(y1: int, y2: int)
    requires y1 < y2
    ensures DaysBeforeYear(y1) + DaysInYear(y1) <= DaysBeforeYear(y2)
    decreases y2 - y1
  {
    YearLength(y1);
    if y1 + 1 < y2 {
      YearsAfter(y1 + 1, y2);
    }
  }

  lemma MonthsAfter(y: int, m1: int, m2: int)
    requires 1 <= m1 < m2 <= 12
    ensures DaysBeforeMonth(y, m1) + DaysInMonth(y, m1) <= DaysBeforeMonth(y, m2)
  {
  }

  lemma LastMonth(y: int, m: int)
    requires 1 <= m <= 12
    ensures DaysBeforeMonth(y, m) + DaysInMonth(y, m) <= DaysInYear(y)
  {
  }

  /** The day numbers of two dates follow their civil order, and a later date
      is at least as many days on as the earlier date's month has left. */
  lemma DayNumberOrder(a: Time, b: Time)
    requires a.year < b.year || (a.year == b.year && a.month < b.month)
    ensures DayNumber(a) + DaysInMonth(a.year, a.month) - a.day < DayNumber(b) - b.day + 1
  {
    if a.year < b.year {
      LastMonth(a.year, a.month);
      YearsAfter(a.year, b.year);
    } else {
      MonthsAfter(a.year, a.month, b.month);
    }
  }

  /** Instant order is civil order: the encoding `Nanos` is strictly monotone,
      so `Before` orders wall-clock readings field by field. */
  lemma {:induction false} CivilLessIsBefore(a: Time, b: Time)
    requires CivilLess(a, b)
    ensures Before(a, b)
  {
    if a.year != b.year || a.month != b.month {
      DayNumberOrder(a, b);
      assert DayNumber(a) < DayNumber(b);
    } else if a.day != b.day {
      assert DayNumber(a) < DayNumber(b);
    }
    if DayNumber(a) < DayNumber(b) {
      assert DayNumber(a) * 86_400_000_000_000 + 86_400_000_000_000 <= DayNumber(b) * 86_400_000_000_000;
    }
  }

  /** `Before` agrees with the civil order in both directions. */
  lemma {:induction false} BeforeIffCivilLess(a: Time, b: Time)
    ensures Before(a, b) <==> CivilLess(a, b)
  {
    if CivilLess(a, b) {
      CivilLessIsBefore(a, b);
    } else if CivilLess(b, a) {
      CivilLessIsBefore(b, a);
    } else {
      assert a == b;
    }
  }

  /** Two different dates with the same day of the month are at least 28 days
      apart. */
  lemma {:induction false} SameDayOfMonthFarApart(a: Time, b: Time)
    requires a.day == b.day && !SameDate(a, b)
    ensures DayNumber(a) - DayNumber(b) >= 28 || DayNumber(b) - DayNumber(a) >= 28
  {
    if a.year < b.year || (a.year == b.year && a.month < b.month) {
      DayNumberOrder(a, b);
    } else {
      DayNumberOrder(b, a);
    }
  }

  /** Go's `d.Round(time.Minute)`: the multiple of a minute nearest to `d`,
      halves rounded away from zero, clamped to the int64 range. */
  function RoundToMinute(d: Int64): (r: Int64)
    ensures d >= 0 ==> r >= 0
    ensures d <= 0 ==> r <= 0
    ensures InInt64(NearestMinute(d)) ==> r == NearestMinute(d)
    ensures !InInt64(NearestMinute(d)) ==> r == Saturate(NearestMinute(d))
  {
    assert InInt64(d);
    QuotRem(d, Minute);
    NearestByRemainder(d);
    var rem := Rem(d, Minute);
    if d < 0 then
      var back := -rem;
      if back + back < Minute then d + back
      else if d - Minute + back >= MinInt64 then d - Minute + back
      else MinInt64
    else
      if rem + rem < Minute then d - rem
      else if d + Minute - rem <= MaxInt64 then d + Minute - rem
      else MaxInt64
  }

  /** For minutes the clamping branches of `Round` are never taken: near either
      end of the int64 range the remainder is below half a minute, so the
      rounded duration is always the exact nearest minute. */
  lemma RoundToMinuteExact(d: Int64)
    ensures InInt64(NearestMinute(d)) && RoundToMinute(d) == NearestMinute(d)
  {
    assert InInt64(d);
    QuotRem(d, Minute);
    NearestByRemainder(d);
    var q, rem := Quot(d, Minute), Rem(d, Minute);
    if d >= 0 {
      assert q <= 153_722_867;
      assert q == 153_722_867 ==> rem <= 16_854_775_807;
    } else {
      assert q >= -153_722_867;
      assert q == -153_722_867 ==> rem >= -16_854_775_808;
    }
  }

  /** Reference definition of rounding to the nearest minute, halves away
      from zero, on unbounded integers. */
  function NearestMinute(d: int): (r: int)
    ensures r % Minute == 0
    ensures -Minute / 2 <= r - d <= Minute / 2
  {
    var n := if d >= 0 then d else -d;
    var q := (n + 30_000_000_000) / 60_000_000_000;
    RoundedDown(n + 30_000_000_000, q);
    MinutesOf(q);
    MinutesOf(-q);
    if d >= 0 then q * 60_000_000_000 else (-q) * 60_000_000_000
  }

  lemma RoundedDown(a: int, q: int)
    requires q == a / 60_000_000_000
    ensures q * 60_000_000_000 <= a < q * 60_000_000_000 + 60_000_000_000
  {
  }

  lemma MinutesOf(q: int)
    ensures (q * 60_000_000_000) % 60_000_000_000 == 0
  {
  }

  lemma QuotientOf(a: int, q: int, s: int)
    requires a == q * 60_000_000_000 + s && 0 <= s < 60_000_000_000
    ensures a / 60_000_000_000 == q
  {
  }

  /** Rounding to the nearest minute in terms of Go's truncated remainder,
      which is how `Duration.Round` computes it. */
  lemma NearestByRemainder(d: int)
    ensures var rem := Rem(d, Minute);
      && (d >= 0 ==> NearestMinute(d) == if rem + rem < Minute then d - rem else d + Minute - rem)
      && (d < 0 ==> NearestMinute(d) == if -rem - rem < Minute then d - rem else d - Minute - rem)
  {
    QuotRem(d, Minute);
    var n := if d >= 0 then d else -d;
    var q := n / Minute;
    var s := n - q * Minute;
    RoundedDown(n, q);
    assert Rem(d, Minute) == (if d >= 0 then s else -s);
    if s + s < Minute {
      QuotientOf(n + 30_000_000_000, q, s + 30_000_000_000);
    } else {
      QuotientOf(n + 30_000_000_000, q + 1, s - 30_000_000_000);
    }
  }
}
