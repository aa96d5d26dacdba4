/** What the status bar shows: the time left until sunset as "<h>h<m>m", and
    the choice between the three display states made by `Render`. */
module Ui {
  import opened Wrappers
  import opened GoInt
  import opened CivilTime
  import opened Text
  import opened Data

  /** Shown between launch and the first render. */
  const TitleLoading: string := "◌"
  /** Before sunrise or after sunset. */
  const TitleDark: string := "◻"
  /** What `titleDaylightFormat` puts before the time to sunset. */
  const TitleDaylightPrefix: string := "◼ "
  const UntilSunrise: string := " until sunrise"
  const UntilSunset: string := " until sunset"
  const TooLate: string := "You snooze, you lose."

  /** The hours and minutes that `toString` prints for duration `d`, each
      computed with Go's truncating division. */
  function HoursMinutes(d: int): (int, int) {
    var hours := Quot(d, Hour);
    (hours, Quot(d - hours * Hour, Minute))
  }

  /** `toString(d)`: `fmt.Sprintf("%dh%dm", hours, minutes)`. A non-negative
      duration prints as its whole hours and the whole minutes within the last
      hour, without signs. */
  function ToString(d: int): (s: string)
    ensures d >= 0 ==> s == NatText(d / Hour) + "h" + NatText(d % Hour / Minute) + "m"
  {
    HoursMinutesSplit(d);
    var (hours, minutes) := HoursMinutes(d);
    IntText(hours) + "h" + IntText(minutes) + "m"
  }

  /** The split is the whole minutes of `d`, truncated toward zero, written as
      hours and the minutes left over, which never reach an hour and take the
      sign of `d`. For d >= 0: hours = d div 1h, minutes = (d - hours*1h) div 1min. */
  lemma {:induction false} HoursMinutesSplit(d: int)
    ensures var (h, m) := HoursMinutes(d);
            && h * 60 + m == Quot(d, Minute)
            && -60 < m < 60
            && (d >= 0 ==> h == d / Hour && 0 <= h && 0 <= m && m == (d - h * Hour) / Minute)
            && (d < 0 ==> h <= 0 && m <= 0)
  {
    var n := if d >= 0 then d else -d;
    var q, r := n / 3_600_000_000_000, n % 3_600_000_000_000;
    var mm, s := r / 60_000_000_000, r % 60_000_000_000;
    assert n == q * 3_600_000_000_000 + mm * 60_000_000_000 + s;
    assert n == (q * 60 + mm) * 60_000_000_000 + s;
    assert n / 60_000_000_000 == q * 60 + mm;
    if d >= 0 {
      assert HoursMinutes(d) == (q, mm);
    } else {
      assert Quot(d, Hour) == -q;
      assert d - (-q) * Hour == -r;
      assert Quot(-r, Minute) == -mm;
      assert HoursMinutes(d) == (-q, -mm);
    }
  }

  /** The two titles `Render` sets: the status bar icon's and the verbose menu
      item's. */
  datatype Titles = Titles(status: string, verbose: string)

  /** The three mutually exclusive display states, tested in this order. */
  datatype Phase = BeforeSunrise | AfterSunset | Daylight

  function PhaseOf(d: SunData, now: Time): (p: Phase)
    ensures p == BeforeSunrise <==> Before(now, d.sunrise)
    ensures p == AfterSunset <==> !Before(now, d.sunrise) && After(now, d.sunset)
    ensures p == Daylight <==> !Before(now, d.sunrise) && !After(now, d.sunset)
  {
    if Before(now, d.sunrise) then BeforeSunrise
    else if After(now, d.sunset) then AfterSunset
    else Daylight
  }

  /** Daylight is exactly the clock reading lying between sunrise and sunset,
      both included, in the civil order of the wall clock. */
  lemma DaylightIsBetween(d: SunData, now: Time)
    ensures PhaseOf(d, now) == Daylight <==> !CivilLess(now, d.sunrise) && !CivilLess(d.sunset, now)
  {
    BeforeIffCivilLess(now, d.sunrise);
    BeforeIffCivilLess(d.sunset, now);
  }

  /** The time to sunset that the daylight state shows, rounded to the minute. */
  function ToSunset(d: SunData, now: Time): Int64 {
    RoundToMinute(Sub(d.sunset, now))
  }

  /** The titles `Render(data)` leaves behind when the titles were `current`.
      `formatDuration` is Go's `Duration.String`, which the app uses for the
      time to sunrise. */
  function Rendered(current: Titles, data: Option<SunData>, now: Time, formatDuration: int -> string): (t: Titles)
    ensures data.None? ==> t == current
    ensures data.Some? ==> (t.status == TitleDark <==> PhaseOf(data.value, now) != Daylight)
    ensures data.Some? && PhaseOf(data.value, now) == BeforeSunrise ==>
              t.verbose == formatDuration(RoundToMinute(Sub(data.value.sunrise, now))) + UntilSunrise
    ensures data.Some? && PhaseOf(data.value, now) == AfterSunset ==> t.verbose == TooLate
    ensures data.Some? && PhaseOf(data.value, now) == Daylight ==>
              && ToSunset(data.value, now) >= 0
              && t.status == TitleDaylightPrefix + ToString(ToSunset(data.value, now))
              && t.verbose == ToString(ToSunset(data.value, now)) + UntilSunset
  {
    match data
    case None => current
    case Some(d) =>
      if Before(now, d.sunrise) then
        Titles(TitleDark, formatDuration(RoundToMinute(Sub(d.sunrise, now))) + UntilSunrise)
      else if After(now, d.sunset) then
        Titles(TitleDark, TooLate)
      else
        var toSunset := ToString(RoundToMinute(Sub(d.sunset, now)));
        assert (TitleDaylightPrefix + toSunset)[0] != TitleDark[0];
        Titles(TitleDaylightPrefix + toSunset, toSunset + UntilSunset)
  }

  /** In daylight the status bar reads "◼ <h>h<m>m" where h hours and m
      minutes, m below 60, are the time to sunset rounded to the minute. */
  lemma DaylightShowsTimeToSunset(current: Titles, d: SunData, now: Time, formatDuration: int -> string)
    requires PhaseOf(d, now) == Daylight
    ensures var t := Rendered(current, Some(d), now, formatDuration);
            exists h: nat, m: nat ::
              && t.status == TitleDaylightPrefix + NatText(h) + "h" + NatText(m) + "m"
              && m < 60
              && (h * 60 + m) * Minute == ToSunset(d, now)
  {
    var c := ToSunset(d, now);
    DaylightStatus(current, d, now, formatDuration);
    var h, m := WholeMinutesText(c);
    var t := Rendered(current, Some(d), now, formatDuration);
    var digits := NatText(h) + "h" + NatText(m) + "m";
    assert t.status == TitleDaylightPrefix + digits;
    assert TitleDaylightPrefix + digits == TitleDaylightPrefix + NatText(h) + "h" + NatText(m) + "m";
  }

  /** The daylight status title is `toString` of a non-negative, whole number
      of minutes. */
  lemma DaylightStatus(current: Titles, d: SunData, now: Time, formatDuration: int -> string)
    requires PhaseOf(d, now) == Daylight
    ensures var c := ToSunset(d, now);
            && c >= 0 && c % Minute == 0
            && Rendered(current, Some(d), now, formatDuration).status == TitleDaylightPrefix + ToString(c)
  {
    var diff := Sub(d.sunset, now);
    assert diff >= 0;
    RoundToMinuteExact(diff);
    assert ToSunset(d, now) == NearestMinute(diff);
  }

  /** Unless the time to sunset overflows a duration, the rounded time shown
      is within half a minute of the exact one. */
  lemma ToSunsetIsClose(d: SunData, now: Time)
    requires InInt64(Nanos(d.sunset) - Nanos(now))
    ensures -Minute / 2 <= ToSunset(d, now) - (Nanos(d.sunset) - Nanos(now)) <= Minute / 2
  {
    var diff := Sub(d.sunset, now);
    assert diff == Nanos(d.sunset) - Nanos(now);
    RoundToMinuteExact(diff);
    assert ToSunset(d, now) == NearestMinute(diff);
  }

  /** A non-negative whole number of minutes prints as its hours and the
      minutes left over, without signs. */
  lemma WholeMinutesText(c: int) returns (h: nat, m: nat)
    requires c >= 0 && c % Minute == 0
    ensures ToString(c) == NatText(h) + "h" + NatText(m) + "m"
    ensures m < 60 && (h * 60 + m) * Minute == c
  {
    var k := c / Minute;
    assert c == k * 60_000_000_000;
    h, m := k / 60, k % 60;
    assert c / Hour == h && c % Hour / Minute == m;
  }


  /** When the clock is both before sunrise and after sunset, the sunrise state
      wins. */
  lemma SunriseStateWins(d: SunData, now: Time)
    requires Before(now, d.sunrise) && After(now, d.sunset)
    ensures PhaseOf(d, now) == BeforeSunrise
  {
  }

  /** The `ui` struct: the two components whose titles follow the data. */
  class View {
    var statusTitle: string
    var verboseTitle: string

    /** The titles as `InitUI` leaves them. */
    constructor()
      ensures statusTitle == TitleLoading && verboseTitle == ""
    {
      statusTitle := TitleLoading;
      verboseTitle := "";
    }

    /** The two titles currently shown. */
    function Shown(): Titles
      reads this
    {
      Titles(statusTitle, verboseTitle)
    }

    method SetStatusItemTitle(title: string)
      modifies this
      ensures statusTitle == title && verboseTitle == old(verboseTitle)
    {
      statusTitle := title;
    }

    /** `components.Render(data)` when the clock reads `now`. */
    method Render(data: Option<SunData>, now: Time, formatDuration: int -> string)
      modifies this
      ensures Shown() == Rendered(old(Shown()), data, now, formatDuration)
    {
      if data.None? {
        // Unrenderable: the titles stay as they are.
      } else if Before(now, data.value.sunrise) {
        SetStatusItemTitle(TitleDark);
        var toSunrise := RoundToMinute(Sub(data.value.sunrise, now));
        verboseTitle := formatDuration(toSunrise) + UntilSunrise;
      } else if After(now, data.value.sunset) {
        SetStatusItemTitle(TitleDark);
        verboseTitle := TooLate;
      } else {
        var toSunset := RoundToMinute(Sub(data.value.sunset, now));
        var toSunsetString := ToString(toSunset);
        SetStatusItemTitle(TitleDaylightPrefix + toSunsetString);
        verboseTitle := toSunsetString + UntilSunset;
      }
    }
  }
}
