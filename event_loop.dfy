/** The app's event loop: the goroutine that holds the cached sun data,
    renders it into the two titles, and serves one event at a time — the
    one-minute tick, a manual refresh, and a request for a calendar event that
    ends at sunset. A fetch is passed in as the reply it got (or none). */
module EventLoop {
  import opened Wrappers
  import opened GoInt
  import opened CivilTime
  import opened Text
  import opened Data
  import opened Ui
  import opened TempFileRegistry

  /** The name format of the calendar files. */
  const EventFileNameFormat: string := "daylight.*.ics"

  /** The event lengths, in minutes, that the calendar submenu offers. */
  const MenuMinutes: seq<int> := [30, 60, 90]

  /** The copy of `toString` in the app's main file. It prints exactly what
      the library's `toString` prints, so the split proved in
      `Ui.HoursMinutesSplit` holds for it too. */
  function MainToString(d: int): (s: string)
    ensures s == Ui.ToString(d)
  {
    var hours := Quot(d, Hour);
    var minutes := Quot(d - hours * Hour, Minute);
    IntText(hours) + "h" + IntText(minutes) + "m"
  }

  /** Why a fetch gave no data. */
  datatype FetchError = RequestFailed | BadTime(cause: ParseError)

  /** `daylight.GetCurrentData()`: `response` is the decoded reply of the
      weather service, None when the request or the JSON decoding failed. */
  function GetCurrentData(response: Option<RawSunData>, now: Time): (r: Result<SunData, FetchError>)
    ensures response.None? ==> r == Err(RequestFailed)
    ensures response.Some? ==> (r.Ok? <==> Convert(response.value, now).err.None?)
    ensures response.Some? && r.Ok? ==> Convert(response.value, now).data == Some(r.value)
    ensures response.Some? && r.Err? ==> r.error == BadTime(Convert(response.value, now).err.value)
    ensures r.Ok? ==> r.value.fetchTime == now && !NeedsRefresh(r.value, now)
  {
    match response
    case None => Err(RequestFailed)
    case Some(raw) =>
      var c := Convert(raw, now);
      if c.err.None? then Ok(c.data.value) else Err(BadTime(c.err.value))
  }

  /** What the goroutine works on: the cached data (nil before the first
      successful fetch), the two titles, the temp-file registry, and the file
      system. */
  datatype LoopState = LoopState(fetchedData: Option<SunData>, titles: Titles,
                                 registry: seq<Option<File>>, disk: set<string>)

  /** The events the loop's `select` serves. The fifteen-minute cleanup case
      never fires: both timers are made anew on every iteration, so the
      one-minute one always wins. */
  datatype Event =
    | Tick(now: Time, response: Option<RawSunData>)
    | RefreshClicked(now: Time, response: Option<RawSunData>)
    | NewEventClicked(minutes: Int64, candidate: Option<string>)

  /** The start and end of a calendar event, as instants (see `Nanos`). */
  datatype CalendarEvent = CalendarEvent(startAt: int, endAt: int)

  /** A calendar file written with `event` and handed to the `open` command. */
  datatype Opened = Opened(file: string, event: CalendarEvent)

  /** The result of serving one event: a fault (a nil dereference, which ends
      the program), or the next state and the file launched, if any. */
  datatype Outcome = Panicked | Next(state: LoopState, launched: Option<Opened>)

  /** The state the goroutine starts in. */
  function Initial(disk: set<string>): LoopState {
    LoopState(None, Titles(TitleLoading, ""), [], disk)
  }

  /** The `fetchAndRender` closure: on success the cache takes the new data
      and the titles are rendered from it; on failure nothing changes. */
  function AfterFetch(s: LoopState, now: Time, response: Option<RawSunData>, formatDuration: int -> string): (t: LoopState)
    ensures t.registry == s.registry && t.disk == s.disk
    ensures GetCurrentData(response, now).Err? ==> t == s
    ensures GetCurrentData(response, now).Ok? ==>
              && t.fetchedData == Some(GetCurrentData(response, now).value)
              && t.fetchedData.value.fetchTime == now
              && !NeedsRefresh(t.fetchedData.value, now)
              && t.titles == Rendered(s.titles, t.fetchedData, now, formatDuration)
    ensures s.fetchedData.Some? ==> t.fetchedData.Some?
  {
    match GetCurrentData(response, now)
    case Ok(d) => s.(fetchedData := Some(d), titles := Rendered(s.titles, Some(d), now, formatDuration))
    case Err(_) => s
  }

  /** The event of `createCalendarEvent`: it starts `minutes` minutes before
      sunset (the offset computed in int64) and ends at sunset. */
  function CalendarEventFor(sunset: Time, minutes: Int64): (e: CalendarEvent)
    ensures e.endAt == Nanos(sunset)
  {
    CalendarEvent(Nanos(sunset) + Wrap(minutes * -Minute), Nanos(sunset))
  }

  /** An event lasts exactly its minutes whenever their nanoseconds fit in an
      int64, as every length the menu offers does. */
  lemma EventLastsItsMinutes(sunset: Time, minutes: Int64)
    requires -MaxInt64 <= minutes * Minute <= MaxInt64
    ensures var e := CalendarEventFor(sunset, minutes);
            e.endAt - e.startAt == minutes * Minute && e.endAt == Nanos(sunset)
  {
    assert minutes * -Minute == -(minutes * Minute);
  }

  lemma MenuEventsLastTheirMinutes(sunset: Time)
    ensures forall i :: 0 <= i < |MenuMinutes| ==>
              var e := CalendarEventFor(sunset, MenuMinutes[i]);
              e.endAt - e.startAt == MenuMinutes[i] * Minute
  {
    forall i | 0 <= i < |MenuMinutes|
      ensures var e := CalendarEventFor(sunset, MenuMinutes[i]);
              e.endAt - e.startAt == MenuMinutes[i] * Minute
    {
      EventLastsItsMinutes(sunset, MenuMinutes[i]);
    }
  }

  /** `createCalendarEvent` on the registry and the file system: a new temp
      file is registered (nil if creation failed); only when it was created is
      the event written to it and the file launched. */
  function CreatedEvent(registry: seq<Option<File>>, disk: set<string>, sunset: Time,
                        minutes: Int64, candidate: Option<string>)
    : (r: (seq<Option<File>>, set<string>, Option<Opened>))
    ensures var (registry', disk', launched) := r;
            && |registry'| == |registry| + 1 && registry'[..|registry|] == registry
            && (launched.Some? <==> candidate.Some? && candidate.value !in disk)
            && (launched.Some? ==>
                  && launched.value == Opened(candidate.value, CalendarEventFor(sunset, minutes))
                  && registry'[|registry|] == Some(File(candidate.value))
                  && disk' == disk + {candidate.value})
            && (launched.None? ==> registry'[|registry|] == None && disk' == disk)
  {
    var created := candidate.Some? && candidate.value !in disk;
    var file := if created then Some(File(candidate.value)) else None;
    NamesOne(file);
    assert (registry + [file])[..|registry|] == registry;
    (registry + [file], disk + Names([file]),
     if created then Some(Opened(candidate.value, CalendarEventFor(sunset, minutes))) else None)
  }

  /** One iteration of the loop, serving `e`. Only the tick and the new-event
      handlers fault, and only while nothing has been fetched, because they
      dereference the cache; with data cached, no event faults or empties
      the cache. */
  function Step(s: LoopState, e: Event, formatDuration: int -> string): (o: Outcome)
    ensures o.Panicked? <==> s.fetchedData.None? && !e.RefreshClicked?
    ensures s.fetchedData.Some? ==> o.Next? && o.state.fetchedData.Some?
  {
    match e
    case Tick(now, response) =>
      if s.fetchedData.None? then Panicked
      else if NeedsRefresh(s.fetchedData.value, now) then Next(AfterFetch(s, now, response, formatDuration), None)
      else Next(s, None)
    case RefreshClicked(now, response) =>
      Next(AfterFetch(s, now, response, formatDuration), None)
    case NewEventClicked(minutes, candidate) =>
      if s.fetchedData.None? then Panicked
      else
        var (registry, disk, launched) :=
          CreatedEvent(s.registry, s.disk, s.fetchedData.value.sunset, minutes, candidate);
        Next(s.(registry := registry, disk := disk), launched)
  }

  /** The tick refetches only when the cache needs a refresh, and then acts
      exactly as a manual refresh does; a manual refresh always refetches, so
      it replaces the cache whenever the fetch succeeds. */
  lemma TickRefetchesOnlyWhenStale(s: LoopState, now: Time, response: Option<RawSunData>, formatDuration: int -> string)
    requires s.fetchedData.Some?
    ensures !NeedsRefresh(s.fetchedData.value, now) ==> Step(s, Tick(now, response), formatDuration) == Next(s, None)
    ensures NeedsRefresh(s.fetchedData.value, now) ==>
              Step(s, Tick(now, response), formatDuration) == Step(s, RefreshClicked(now, response), formatDuration)
    ensures var o := Step(s, RefreshClicked(now, response), formatDuration);
            && o.Next? && o.launched.None?
            && o.state.fetchedData == (if GetCurrentData(response, now).Ok?
                                       then Some(GetCurrentData(response, now).value)
                                       else s.fetchedData)
  {
  }

  /** A new-event request uses the cached sunset, fetches nothing, leaves the
      cache and the titles alone, registers exactly one more entry, and opens
      a file only when the temp file was created. */
  lemma {:induction false} NewEventUsesCachedSunset(s: LoopState, minutes: Int64, candidate: Option<string>,
                                                    formatDuration: int -> string)
    requires s.fetchedData.Some?
    ensures var o := Step(s, NewEventClicked(minutes, candidate), formatDuration);
            && o.Next?
            && o.state.fetchedData == s.fetchedData && o.state.titles == s.titles
            && |o.state.registry| == |s.registry| + 1 && o.state.registry[..|s.registry|] == s.registry
            && (o.launched.Some? <==> candidate.Some? && candidate.value !in s.disk)
            && (o.launched.Some? ==>
                  && o.launched.value.event.endAt == Nanos(s.fetchedData.value.sunset)
                  && o.launched.value.file in o.state.disk
                  && o.state.registry[|s.registry|] == Some(File(o.launched.value.file)))
            && (o.launched.None? ==> o.state.disk == s.disk && o.state.registry[|s.registry|] == None)
  {
    var o := Step(s, NewEventClicked(minutes, candidate), formatDuration);
    var file := if candidate.Some? && candidate.value !in s.disk then Some(File(candidate.value)) else None;
    assert o.state.registry == s.registry + [file];
    assert Names([file]) == Names([]) + (if file.Some? then {file.value.name} else {});
  }

  /** The states reached by serving `events` in order, or None once one of them
      faulted. */
  function Run(s: LoopState, events: seq<Event>, formatDuration: int -> string): (r: Option<LoopState>)
    ensures r.Some? ==> |s.registry| <= |r.value.registry| && s.disk <= r.value.disk
    ensures s.fetchedData.None? && events != [] && events[0].Tick? ==> r.None?
    decreases |events|
  {
    if events == [] then Some(s)
    else match Step(s, events[0], formatDuration)
      case Panicked => None
      case Next(t, _) => Run(t, events[1..], formatDuration)
  }

  /** Once data has been fetched the loop never faults, and the cache is never
      emptied again: a failed fetch keeps showing the last good data. */
  lemma {:induction false} LoadedLoopNeverLosesData(s: LoopState, events: seq<Event>, formatDuration: int -> string)
    requires s.fetchedData.Some?
    ensures Run(s, events, formatDuration).Some?
    ensures Run(s, events, formatDuration).value.fetchedData.Some?
    decreases |events|
  {
    if events != [] {
      var o := Step(s, events[0], formatDuration);
      LoadedLoopNeverLosesData(o.state, events[1..], formatDuration);
    }
  }

  function NewEventCount(events: seq<Event>): nat {
    if events == [] then 0
    else (if events[0].NewEventClicked? then 1 else 0) + NewEventCount(events[1..])
  }

  /** The loop never empties the registry: every new-event request adds one
      entry and nothing takes any away. */
  lemma {:induction false} RegistryOnlyGrows(s: LoopState, events: seq<Event>, formatDuration: int -> string)
    requires Run(s, events, formatDuration).Some?
    ensures var t := Run(s, events, formatDuration).value;
            && |t.registry| == |s.registry| + NewEventCount(events)
            && t.registry[..|s.registry|] == s.registry
            && s.disk <= t.disk
    decreases |events|
  {
    if events != [] {
      var o := Step(s, events[0], formatDuration);
      if events[0].NewEventClicked? {
        NewEventUsesCachedSunset(s, events[0].minutes, events[0].candidate, formatDuration);
      }
      RegistryOnlyGrows(o.state, events[1..], formatDuration);
      var t := Run(s, events, formatDuration).value;
      assert t.registry[..|s.registry|] == t.registry[..|o.state.registry|][..|s.registry|];
    }
  }

  /** If the first fetch at launch fails, the first tick faults. */
  lemma FailedStartupThenTickPanics(disk: set<string>, now: Time, response: Option<RawSunData>,
                                    tick: Time, later: Option<RawSunData>, formatDuration: int -> string)
    requires GetCurrentData(response, now).Err?
    ensures var s := AfterFetch(Initial(disk), now, response, formatDuration);
            s == Initial(disk) && Step(s, Tick(tick, later), formatDuration) == Panicked
  {
  }

  /** `createCalendarEvent(tmpfiles, sunset, minutes)`; `candidate` is what
      creating the temp file could do (see `Disk.CreateTemp`). */
  method CreateCalendarEvent(tmpfiles: TempFiles, disk: Disk, sunset: Time, minutes: Int64, candidate: Option<string>)
    returns (launched: Option<Opened>)
    modifies tmpfiles, disk
    ensures (tmpfiles.files, disk.names, launched)
            == CreatedEvent(old(tmpfiles.files), old(disk.names), sunset, minutes, candidate)
    ensures tmpfiles.fileNameFormat == old(tmpfiles.fileNameFormat)
  {
    var event := CalendarEventFor(sunset, minutes);
    var icsEventFile, err := tmpfiles.New(disk, candidate);
    if err {
      return None;
    }
    launched := Some(Opened(icsEventFile.value.name, event));
  }

  /** The goroutine, with the objects it shares with the launch callback. */
  class Coordinator {
    var fetchedData: Option<SunData>
    const view: View
    const tempFiles: TempFiles
    const disk: Disk

    function State(): LoopState
      reads this, view, tempFiles, disk
    {
      LoopState(fetchedData, view.Shown(), tempFiles.files, disk.names)
    }

    /** The launch callback's setup and the goroutine's first fetch. */
    constructor(disk: Disk, now: Time, response: Option<RawSunData>, formatDuration: int -> string)
      ensures this.disk == disk && fresh(view) && fresh(tempFiles)
      ensures tempFiles.fileNameFormat == EventFileNameFormat
      ensures State() == AfterFetch(Initial(disk.names), now, response, formatDuration)
    {
      fetchedData := None;
      view := new View();
      tempFiles := new TempFiles(EventFileNameFormat);
      this.disk := disk;
      new;
      FetchAndRender(now, response, formatDuration);
    }

    /** The `render` closure: the same logic as `Ui.View.Render`. */
    method Render(now: Time, formatDuration: int -> string)
      modifies view
      ensures State() == old(State()).(titles := Rendered(old(State()).titles, fetchedData, now, formatDuration))
    {
      view.Render(fetchedData, now, formatDuration);
    }

    /** The `fetchAndRender` closure. */
    method FetchAndRender(now: Time, response: Option<RawSunData>, formatDuration: int -> string)
      modifies this, view
      ensures State() == AfterFetch(old(State()), now, response, formatDuration)
    {
      var refetchedData := GetCurrentData(response, now);
      if refetchedData.Ok? {
        fetchedData := Some(refetchedData.value);
        Render(now, formatDuration);
      }
    }

    /** One turn of the `for`/`select` loop. It faults where `Step` says so, so
        it is only called where `Step` goes on. */
    method Handle(e: Event, formatDuration: int -> string) returns (launched: Option<Opened>)
      requires Step(State(), e, formatDuration).Next?
      modifies this, view, tempFiles, disk
      ensures Step(old(State()), e, formatDuration) == Next(State(), launched)
      ensures tempFiles.fileNameFormat == old(tempFiles.fileNameFormat)
    {
      match e
      case Tick(now, response) =>
        if NeedsRefresh(fetchedData.value, now) {
          FetchAndRender(now, response, formatDuration);
        }
        launched := None;
      case RefreshClicked(now, response) =>
        FetchAndRender(now, response, formatDuration);
        launched := None;
      case NewEventClicked(minutes, candidate) =>
        launched := CreateCalendarEvent(tempFiles, disk, fetchedData.value.sunset, minutes, candidate);
    }
  }
}
