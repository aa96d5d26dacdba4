/** Sunrise and sunset data for the current day: the staleness test, and the
    conversion of the two raw "HH:MM:SS" strings of the weather service's
    reply into times on today's date. */
module Data {
  import opened Wrappers
  import opened CivilTime
  import opened Text

  /** `SunData`: when the data was fetched, and the day's sunrise and sunset. */
  datatype SunData = SunData(fetchTime: Time, sunrise: Time, sunset: Time)

  /** `rawSunData`: the two strings of the reply, as decoded from JSON. */
  datatype RawSunData = RawSunData(sunrise: string, sunset: string)

  /** The hour, minute and second that a "15:04:05" reading yields. */
  datatype Clock = Clock(hour: int, minute: int, second: int)

  predicate ValidClock(c: Clock) {
    0 <= c.hour < 24 && 0 <= c.minute < 60 && 0 <= c.second < 60
  }

  /** "Error parsing raw time", naming the string that did not parse. */
  datatype ParseError = ParseError(rawTime: string)

  /** The `(*SunData, error)` pair that `convert` returns. */
  datatype Converted = Converted(data: Option<SunData>, err: Option<ParseError>)

  /** `d.NeedsRefresh()` when the clock reads `now`: only the day of the month
      of `now` and of the fetch time are compared, so a refresh is asked for
      only once the calendar date has changed. */
  predicate NeedsRefresh(d: SunData, now: Time)
    ensures NeedsRefresh(d, now) ==> !SameDate(now, d.fetchTime)
  {
    now.day != d.fetchTime.day
  }

  /** Year and month play no part: data fetched on 5 March counts as fresh on
      5 April, although the calendar dates differ. */
  lemma MonthOldDataLooksFresh()
    ensures var d := SunData(DateTime(2024, 3, 5, 9, 0, 0, 0), DateTime(2024, 3, 5, 6, 30, 0, 0),
                             DateTime(2024, 3, 5, 18, 5, 0, 0));
            var now := DateTime(2024, 4, 5, 9, 0, 0, 0);
            !NeedsRefresh(d, now) && !SameDate(now, d.fetchTime)
  {
  }

  /** Within four weeks of the fetch, in either direction, the day-of-month
      test is exactly "the calendar date has changed". */
  lemma {:induction false} NeedsRefreshWithinFourWeeks(d: SunData, now: Time)
    requires -28 < DayNumber(now) - DayNumber(d.fetchTime) < 28
    ensures NeedsRefresh(d, now) <==> !SameDate(now, d.fetchTime)
  {
    if now.day == d.fetchTime.day && !SameDate(now, d.fetchTime) {
      SameDayOfMonthFarApart(now, d.fetchTime);
    }
  }

  /** The text wttr.in sends for a clock reading: two digits per field. */
  function FormatClock(c: Clock): (s: string)
    requires ValidClock(c)
    ensures |s| == 8
  {
    TwoDigits(c.hour) + ":" + TwoDigits(c.minute) + ":" + TwoDigits(c.second)
  }

  /** `time.Parse("15:04:05", s)`, keeping its hour, minute and second: an
      hour of one or two digits below 24, then ':', a minute of exactly two
      digits below 60, ':', a second of exactly two digits below 60, and
      nothing after it. */
  function ParseClock(s: string): (r: Option<Clock>)
    ensures r.Some? ==> ValidClock(r.value)
  {
    if |s| == 0 || !IsDigit(s[0]) then None
    else
      var hourLen := if |s| >= 2 && IsDigit(s[1]) then 2 else 1;
      if |s| != hourLen + 6 || s[hourLen] != ':' || s[hourLen + 3] != ':'
         || !AllDigits(s[hourLen + 1..hourLen + 3]) || !AllDigits(s[hourLen + 4..])
      then None
      else
        assert AllDigits(s[..hourLen]);
        var hour := DigitsValue(s[..hourLen]);
        var minute := DigitsValue(s[hourLen + 1..hourLen + 3]);
        var second := DigitsValue(s[hourLen + 4..]);
        if hour < 24 && minute < 60 && second < 60 then Some(Clock(hour, minute, second))
        else None
  }

  /** Every clock reading, written as the service writes it, parses back to
      itself. */
  lemma ParseFormatRoundTrip(c: Clock)
    requires ValidClock(c)
    ensures ParseClock(FormatClock(c)) == Some(c)
  {
    var s := FormatClock(c);
    assert s[..2] == TwoDigits(c.hour);
    assert s[3..5] == TwoDigits(c.minute);
    assert s[6..] == TwoDigits(c.second);
    TwoDigitsRoundTrip(c.hour);
    TwoDigitsRoundTrip(c.minute);
    TwoDigitsRoundTrip(c.second);
  }

  /** Conversely, a string that parses is the formatted reading, or that
      reading without the leading zero of a one-digit hour. */
  lemma ParsedIsFormatted(s: string)
    requires ParseClock(s).Some?
    ensures var c := ParseClock(s).value;
            s == FormatClock(c) || (c.hour < 10 && s == FormatClock(c)[1..])
  {
    if IsDigit(s[1]) {
      ParsedTwoDigitHour(s);
    } else {
      ParsedOneDigitHour(s);
    }
  }

  lemma ParsedTwoDigitHour(s: string)
    requires ParseClock(s).Some? && IsDigit(s[1])
    ensures s == FormatClock(ParseClock(s).value)
  {
    var c := ParseClock(s).value;
    assert AllDigits(s[..2]);
    assert c == Clock(DigitsValue(s[..2]), DigitsValue(s[3..5]), DigitsValue(s[6..]));
    DigitsValueTwo(s[..2]);
    DigitsValueTwo(s[3..5]);
    DigitsValueTwo(s[6..]);
    assert s == s[..2] + ":" + s[3..5] + ":" + s[6..];
  }

  lemma ParsedOneDigitHour(s: string)
    requires ParseClock(s).Some? && |s| >= 2 && !IsDigit(s[1])
    ensures var c := ParseClock(s).value;
            c.hour < 10 && s == FormatClock(c)[1..]
  {
    var c := ParseClock(s).value;
    assert AllDigits(s[..1]);
    assert c == Clock(DigitsValue(s[..1]), DigitsValue(s[2..4]), DigitsValue(s[5..]));
    SingleDigit(s[..1]);
    DigitsValueTwo(s[2..4]);
    DigitsValueTwo(s[5..]);
    var f := FormatClock(c);
    assert f == ['0', s[0]] + ":" + s[2..4] + ":" + s[5..];
    assert f[1..] == [s[0]] + ":" + s[2..4] + ":" + s[5..];
    assert s == [s[0]] + ":" + s[2..4] + ":" + s[5..];
  }

  /** The `parse` closure of `convert`: the clock of `rawTime` on the date of
      `now`, with zero nanoseconds, or an error naming `rawTime`. */
  function ParseOnDate(rawTime: string, now: Time): (r: Result<Time, ParseError>)
    ensures r.Ok? <==> ParseClock(rawTime).Some?
    ensures r.Err? ==> r.error == ParseError(rawTime)
    ensures r.Ok? ==> var c := ParseClock(rawTime).value;
                      && SameDate(r.value, now)
                      && r.value.hour == c.hour && r.value.minute == c.minute
                      && r.value.second == c.second && r.value.nanosecond == 0
  {
    match ParseClock(rawTime)
    case None => Err(ParseError(rawTime))
    case Some(c) => Ok(DateTime(now.year, now.month, now.day, c.hour, c.minute, c.second, 0))
  }

  /** `rd.convert()` with the clock reading `now`. */
  function Convert(raw: RawSunData, now: Time): (c: Converted)
    ensures c.data.Some? <==> c.err.None?
    ensures c.data.Some? <==> ParseClock(raw.sunrise).Some? && ParseClock(raw.sunset).Some?
    ensures ParseClock(raw.sunrise).None? ==> c.err == Some(ParseError(raw.sunrise))
    ensures ParseClock(raw.sunrise).Some? && ParseClock(raw.sunset).None?
            ==> c.err == Some(ParseError(raw.sunset))
    ensures c.data.Some? ==> var d := c.data.value;
                             && d.fetchTime == now
                             && SameDate(d.sunrise, now) && SameDate(d.sunset, now)
                             && d.sunrise.nanosecond == 0 && d.sunset.nanosecond == 0
    ensures c.data.Some? ==> && c.data.value.sunrise == ParseOnDate(raw.sunrise, now).value
                             && c.data.value.sunset == ParseOnDate(raw.sunset, now).value
  {
    match ParseOnDate(raw.sunrise, now)
    case Err(e) => Converted(None, Some(e))
    case Ok(sunrise) =>
      match ParseOnDate(raw.sunset, now)
      case Err(e) => Converted(None, Some(e))
      case Ok(sunset) => Converted(Some(SunData(now, sunrise, sunset)), None)
  }

  /** Once the sunrise string fails, the sunset string is never looked at. */
  lemma SunriseErrorIgnoresSunset(raw: RawSunData, otherSunset: string, now: Time)
    requires ParseClock(raw.sunrise).None?
    ensures Convert(raw.(sunset := otherSunset), now) == Convert(raw, now)
  {
  }

  /** A reply in the service's format converts to those very clock readings on
      today's date, fetched now. */
  lemma ConvertServiceReply(rise: Clock, fall: Clock, now: Time)
    requires ValidClock(rise) && ValidClock(fall)
    ensures var c := Convert(RawSunData(FormatClock(rise), FormatClock(fall)), now);
            && c.err.None? && c.data.Some?
            && c.data.value.fetchTime == now
            && c.data.value.sunrise == DateTime(now.year, now.month, now.day, rise.hour, rise.minute, rise.second, 0)
            && c.data.value.sunset == DateTime(now.year, now.month, now.day, fall.hour, fall.minute, fall.second, 0)
  {
    ParseFormatRoundTrip(rise);
    ParseFormatRoundTrip(fall);
  }

  /** Freshly converted data does not need a refresh at the moment it was read. */
  lemma ConvertedIsFresh(raw: RawSunData, now: Time)
    requires Convert(raw, now).data.Some?
    ensures !NeedsRefresh(Convert(raw, now).data.value, now)
  {
  }
}
