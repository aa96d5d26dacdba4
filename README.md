# Daylight: a verified model of its sun-data cache, display and event loop

Daylight is a macOS status-bar app. It shows the time left until sunset and
can create a calendar event for the last 30, 60 or 90 minutes before
sunset. This project models the sequential logic behind it in Dafny:

- **Sun data** (`data.dfy`, module `Data`). `SunData` holds the fetch time,
  sunrise and sunset. The staleness test `NeedsRefresh` compares only the
  day of the month of the fetch time and of the current clock reading.
  `Convert` turns the two `"HH:MM:SS"` strings of the weather service's
  reply into times on today's date.
- **Temp-file registry** (`tempfiles.dfy`, module `TempFileRegistry`).
  `TempFiles` is a class whose `files` field `New` appends to and `CleanUp`
  empties. It works over a `Disk` object: the set of file names that exist,
  and the names whose removal the file system refuses. A failed `New` still registers a nil handle. `CleanUp`
  requires the registry to hold no nil entries, because `f.Name()` faults on
  a nil `*os.File`. `FailedNewLeavesNil` shows that a failed `New` breaks
  that precondition.
- **Display** (`ui.dfy`, module `Ui`). `ToString` renders a duration as
  `"<h>h<m>m"` using Go's truncating division. `Render` picks one of three
  mutually exclusive states: before sunrise, after sunset, or daylight. It
  then sets the status-bar title and the verbose menu-item title. The
  `View` class holds those two titles.
- **Event loop** (`event_loop.dfy`, module `EventLoop`). The goroutine of
  the app's main file is modelled twice:
  - as a pure transition function `Step` over one event at a time (a tick,
    a manual refresh, or a new-event request), with `Run` for a sequence of
    events;
  - as a `Coordinator` class whose `Handle` method is proved to do exactly
    what `Step` says.

  The tick and new-event handlers dereference the cache. Before the first
  successful fetch they fault, and `Step` reports that as `Panicked`.

Supporting modules:

- `CivilTime`: wall-clock readings as civil date-times in one fixed zone.
  `Nanos` maps them to instants. `BeforeIffCivilLess` proves that the
  instant order is the field-by-field civil order, so `Before`, `After` and
  `Sub` behave as Go's do. Go's `Duration.Round(time.Minute)` is modelled
  by `RoundToMinute`: halves round away from zero. The code clamps at the
  int64 bounds, and `RoundToMinuteExact` proves that clamping never happens
  when rounding to a minute.
- `GoInt`: int64 range, wrap-around, saturation, and Go's truncating `/`
  and `%`.
- `Text`: decimal text as `%d` prints it.
- `Wrappers`: `Option` and `Result`.

The clock, the network reply, the outcome of creating a temp file, and
Go's `Duration.String` are parameters. The model does no I/O.

Some behaviours of the code are worth stating plainly:

- A manual refresh does not show a loading title first.
- A new-event request made before any data was fetched faults.
- The data holds only today's sunrise and sunset.
- The fifteen-minute cleanup never runs (see below).

## Model

| member | source | states |
|---|---|---|
| `Data.NeedsRefreshWithinFourWeeks` | data.go:42-45 | when the fetch and now are less than 28 days apart, `NeedsRefresh` holds exactly when the calendar date has changed |
| `Data.MonthOldDataLooksFresh` | data.go:43-45 | only the day of the month is compared: data fetched on 5 March is not stale on 5 April |
| `Data.NeedsRefresh` | data.go:42-45 | a refresh is asked for only once the calendar date has changed: data fetched earlier on the same date is never stale |
| `Data.ParseFormatRoundTrip` | data.go:13-17 | a clock reading written as the service writes it (`07:04:45`) parses back to the same hour, minute and second |
| `Data.ParsedIsFormatted` | data.go:17 | conversely, a string accepted by layout `15:04:05` is such a reading, with a one-digit hour allowed |
| `Data.ParseClock` | data.go:64 | an accepted string always yields an hour below 24 and a minute and second below 60 |
| `Data.ParseOnDate` | data.go:63-69 | the `parse` closure fails exactly when the string does not parse, naming that string; otherwise it gives the string's hour, minute and second on now's year, month and day, with zero nanoseconds |
| `Data.Convert` | data.go:54-80 | data and error are never both set or both unset; a bad sunrise string is the error; a good sunrise with a bad sunset makes the sunset string the error; on success the fetch time is now, and sunrise and sunset are what `parse` gives for their strings: each string's hour, minute and second on now's date with zero nanoseconds |
| `Data.SunriseErrorIgnoresSunset` | data.go:71-74 | once the sunrise string fails, the result does not depend on the sunset string |
| `Data.ConvertServiceReply` | data.go:60-79 | a well-formed reply converts to exactly its clock readings on today's date, fetched now |
| `Data.ConvertedIsFresh` | data.go:79 | freshly converted data does not need a refresh at the moment it was read |
| `CivilTime.BeforeIffCivilLess` | ui.go:102 | `Before` on wall-clock readings is their civil, field-by-field order |
| `CivilTime.CivilLessIsBefore` | ui.go:107 | the instant encoding is strictly monotone in the civil order |
| `CivilTime.Sub` | ui.go:113 | `t.Sub(u)` is the difference of the instants clamped to int64; it is positive exactly when t is after u and negative exactly when t is before u |
| `CivilTime.RoundToMinute` | ui.go:105 | `Round(time.Minute)` keeps the sign and equals the nearest multiple of a minute (halves away from zero), saturating at the int64 bounds |
| `CivilTime.NearestMinute` | ui.go:113 | the reference rounding is a multiple of a minute within half a minute of its input |
| `CivilTime.RoundToMinuteExact` | ui.go:105 | the clamping branches of `Round(time.Minute)` are never taken: every duration rounds to its exact nearest minute, which fits in an int64 |
| `GoInt.QuotRem` | ui.go:129-130 | Go's truncating division splits a value into quotient and remainder, the remainder smaller than the divisor and of the dividend's sign |
| `Text.NatTextRoundTrip` | ui.go:131 | the decimal digits `%d` prints read back as the number printed |
| `Ui.ToString` | ui.go:128-131 | a non-negative duration prints as its whole hours, `h`, the whole minutes within the last hour, `m`, without signs |
| `Ui.HoursMinutesSplit` | ui.go:128-131 | for every duration, hours·60 + minutes is its whole minutes truncated toward zero, and abs(minutes) < 60; for d ≥ 0, hours = d div 1h and minutes = (d − hours·1h) div 1min, with 0 ≤ minutes < 60 |
| `Ui.PhaseOf` | ui.go:102-116 | the three display states are mutually exclusive and tested in order: before sunrise, then after sunset, else daylight |
| `Ui.DaylightIsBetween` | ui.go:102-111 | daylight is exactly sunrise ≤ now ≤ sunset on the wall clock |
| `Ui.Rendered` | ui.go:97-117 | nil data leaves both titles unchanged; the status title is dark exactly outside daylight; before sunrise the verbose title is the rounded time to sunrise followed by ` until sunrise`; after sunset it is `You snooze, you lose.`; in daylight the rounded time to sunset is non-negative, the status title is `◼ ` and its `toString`, and the verbose title is that string and ` until sunset` |
| `Ui.DaylightShowsTimeToSunset` | ui.go:111-116 | in daylight the status title reads `◼ <h>h<m>m`, where h hours and m < 60 minutes add up to the time to sunset rounded to the minute |
| `Ui.ToSunsetIsClose` | ui.go:113 | unless the time to sunset overflows a duration, the rounded time shown is within half a minute of the exact time |
| `Ui.SunriseStateWins` | ui.go:102-110 | when now is both before sunrise and after sunset, the sunrise state is chosen |
| `Ui.View.Render` | ui.go:97-118 | the two titles afterwards are what `Rendered` gives for the titles before |
| `Ui.View.SetStatusItemTitle` | ui.go:122-124 | sets the status title and leaves the verbose title alone |
| `Ui.View.constructor` | ui.go:39-44 | the status title starts as the loading glyph `◌` and the verbose title starts empty |
| `TempFileRegistry.TempFiles.constructor` | tempfiles.go:17-21 | a registry starts empty with the given file-name format |
| `TempFileRegistry.TempFiles.Append` | tempfiles.go:23-27 | adds the handle at the end and changes nothing else |
| `TempFileRegistry.TempFiles.New` | tempfiles.go:41-45 | exactly one entry is appended and the earlier entries are unchanged; the entry is the new file, or nil when creation failed; the file system gains only that file; the error is set exactly when creation failed; the name format is unchanged |
| `TempFileRegistry.TempFiles.CleanUp` | tempfiles.go:30-37 | the registry ends empty; removal of every registered name is attempted and its error ignored, so exactly the registered names the file system lets go are deleted, and any it refused are forgotten; the name format is unchanged |
| `TempFileRegistry.Disk.CreateTemp` | tempfiles.go:42 | temp-file creation is exclusive: it fails when refused or when the name exists; otherwise the file exists afterwards |
| `TempFileRegistry.Disk.Remove` | tempfiles.go:34 | the name no longer exists afterwards unless the file system refuses to remove it, in which case nothing changes; the error is set exactly when the name did not exist or removal was refused |
| `TempFileRegistry.NamesSpec` | tempfiles.go:33-35 | `CleanUp` attempts to remove a name exactly when a non-nil registered handle carries it |
| `TempFileRegistry.NamesAppend` | tempfiles.go:26 | the names of a registry with entries appended are the old names plus those of the new entries |
| `TempFileRegistry.NewThenCleanUp` | tempfiles.go:39-40 | a file returned by `New` is gone after the next `CleanUp` unless the file system refuses to remove it; a second `CleanUp` removes nothing more and leaves the registry empty |
| `TempFileRegistry.FailedNewLeavesNil` | tempfiles.go:42-44 | a failed `New` appends a nil entry, which the next `CleanUp` would dereference |
| `EventLoop.MainToString` | cmd/daylight/main.go:146-150 | the main file's copy of `toString` prints exactly what the library's `toString` prints |
| `EventLoop.GetCurrentData` | data.go:29-40 | a failed request is `RequestFailed`; otherwise success is exactly `convert` reporting no error, the data is `convert`'s data, and an error wraps `convert`'s error; fresh data is stamped with now and is not stale |
| `EventLoop.AfterFetch` | cmd/daylight/main.go:71-79 | a failed fetch changes nothing and renders nothing; a successful one puts exactly the fetched data, stamped now, in the cache and renders it; the registry and file system are untouched; a full cache is never emptied |
| `EventLoop.Step` | cmd/daylight/main.go:84-99 | one loop iteration faults exactly when the cache is nil and the event is a tick or a new-event request; with data cached it never faults and never empties the cache |
| `EventLoop.TickRefetchesOnlyWhenStale` | cmd/daylight/main.go:86-95 | a tick does nothing unless the cache needs a refresh, and then acts exactly like a manual refresh; a manual refresh never faults, launches nothing, and leaves the fetched data in the cache when the fetch succeeds and the old cache otherwise |
| `EventLoop.NewEventUsesCachedSunset` | cmd/daylight/main.go:96-97 | a new-event request fetches nothing and keeps the cache and titles; it registers exactly one more entry; it opens a file only when the temp file was created, and that event ends at the cached sunset |
| `EventLoop.CalendarEventFor` | cmd/daylight/main.go:155-161 | the event ends at sunset |
| `EventLoop.CreatedEvent` | cmd/daylight/main.go:152-178 | `createCalendarEvent` adds exactly one registry entry after the old ones; a file is launched exactly when a temp file with an unused name was created; the launched file holds the event for `minutes` before sunset, and it is registered and added to the file system; otherwise the entry is nil and the file system is unchanged |
| `EventLoop.EventLastsItsMinutes` | cmd/daylight/main.go:155-161 | when the offset fits in an int64, the event starts `minutes` minutes before sunset, so its length equals `minutes` |
| `EventLoop.MenuEventsLastTheirMinutes` | cmd/daylight/main.go:116-118 | each of the offered 30, 60 and 90 minutes gives an event of exactly that length |
| `EventLoop.LoadedLoopNeverLosesData` | cmd/daylight/main.go:71-99 | once data is cached, any sequence of events runs without faulting and the cache stays full |
| `EventLoop.RegistryOnlyGrows` | cmd/daylight/main.go:84-99 | the loop never empties the registry: after a run it has one more entry per new-event request, the old entries come first, and no file was deleted |
| `EventLoop.FailedStartupThenTickPanics` | cmd/daylight/main.go:81-90 | if the first fetch fails, the state is the initial one and the first tick faults |
| `EventLoop.Run` | cmd/daylight/main.go:84-99 | serving events in order never shrinks the registry or deletes a file; with nothing cached, a first tick ends the run in a fault |
| `EventLoop.CreateCalendarEvent` | cmd/daylight/main.go:152-178 | the registry, file system and opened file are those `CreatedEvent` gives: when the temp file cannot be created, nothing is written or opened |
| `EventLoop.Coordinator.constructor` | cmd/daylight/main.go:33-82 | sets up the loading title, an empty registry named `daylight.*.ics`, and the first fetch-and-render |
| `EventLoop.Coordinator.Render` | cmd/daylight/main.go:48-69 | the `render` closure sets the titles as `Rendered` does from the cached data and changes nothing else |
| `EventLoop.Coordinator.FetchAndRender` | cmd/daylight/main.go:71-79 | the state afterwards is `AfterFetch` of the state before |
| `EventLoop.Coordinator.Handle` | cmd/daylight/main.go:84-99 | serving an event takes the state to the one `Step` gives and opens the file `Step` names; the registry's name format stays the same |

## Left out

- The HTTP request and JSON decoding in `GetCurrentData` (data.go:29-38) are network I/O. The decoded reply, or its absence, is a parameter.
- `time.LoadLocation` (data.go:56-59) and time zones are left out. All times are in one fixed zone, and the error path of loading the zone is not modelled. The code takes the date from the local zone but builds the times in Los Angeles time; the model assumes the two zones are the same.
- `time.Now()` is a parameter. The model uses one reading per event, where the code reads the clock separately in `convert`, `render` and `NeedsRefresh`.
- `Duration.String`, used only for the time to sunrise, is Go library code. It is the parameter `formatDuration`.
- Data.ParseClock: rejects a trailing fractional-second part such as `07:04:45.5`. Go's `time.Parse` accepts it and keeps it in the time it returns; `convert` then drops it by building the time with zero nanoseconds (data.go:68). The service does not send one.
- Go's `Time.Add` is done on unbounded instants. `Time.Sub` saturation is modelled.
- `ioutil.TempFile` picks a random name in the temp directory and retries when the name exists. Here the outcome is the parameter `candidate`: no name when creation is refused, otherwise one picked name. There is no retry.
- All Cocoa UI construction is native UI: `InitUI`, `makeCalendarEventItem`, menus and menu items. Only the two titles are state. The offered lengths 30, 60 and 90 are kept as `MenuMinutes`.
- Concurrency is not modelled: the goroutine, channels, `select` timers, and the mutex in `TempFiles`. Events are handled one at a time. The fifteen-minute cleanup case is not an event: both timers are made anew on every iteration, so the one-minute timer always fires first.
- The deferred `CleanUp` in the launch callback is not modelled. It runs when the callback returns, on a registry that is then still empty.
- The rest of `createCalendarEvent` is left out: ICS serialisation, uuid generation, the summary and location text, writing and closing the file, and running `open` (with its error). The model records only the opened file and the event's start and end instants.
- `cmd/daylight/dev.go` (log-file setup and signal handling) is not part of this model.
