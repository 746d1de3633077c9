# Solar-eclipse phase detector

A Dafny model of the computational core of the solar-eclipse service in
`python-service/app.py`. For one observer location and calendar date the
service does three things. It builds a grid of 1440 instants. It asks the
ephemeris for the Sun–Moon angular separation seen from the observer at each
instant. Then `find_eclipse_phases` reduces that series to three events: the
maximum eclipse and the first and last contacts.

- The **grid** is `ts.utc(year, month, day, range(0, 24*60, 1))`. The
  comment above it asks for minute intervals, but the offsets land in the
  fourth positional argument of skyfield's `utc`, which is the hour. Instant
  i is therefore i hours after the date's midnight, and the 1440 instants
  span sixty days. The model builds this hourly grid as the code does and
  records the discrepancy under "## Findings".
- The **maximum eclipse** is the instant of smallest separation. Ties go to
  the earliest such instant, as `np.argmin` scans left to right.
- The **contact radius** is the sum of two constant angular radii,
  0.2666° for the Sun and 0.2666° for the Moon.
- **First and last contact** are the instants of the lowest and highest index
  whose separation is at most the contact radius. When no index qualifies,
  both are absent. That is the "no eclipse" outcome, and it is not an error.

Modules:

- `Wrappers`: `Option` and `Result`.
- `Sequences`: the `Ascending` ordering predicate.
- `TimeGrid`: `range(lo, hi)`, the offsets `range(0, 24*60, 1)`, the hourly
  grid the service builds and the per-minute grid of the requested day. An
  instant is an integer count of minutes since a fixed epoch, and `dayStart`
  is the instant of the date's midnight.
- `PhaseDetector`: `np.argmin`, `np.where(... <= r)[0]` and
  `find_eclipse_phases`. The detector is generic in the time type, because it
  only indexes into the time sequence.
- `EclipseService`: the route's computation from grid to response. The
  geometry step (skyfield's observation and `separation_from`) is a
  parameter `observe: int -> real`, which gives the separation in degrees at
  an instant. `Calculate` works over any grid, and its lemmas hold for every
  strictly increasing grid. `CalculateEclipse` applies it to the hourly grid,
  as the service does; `CalculateEclipseByMinute` applies it to the
  per-minute grid.

The detector has no precondition. An empty series is an error, because
`np.argmin` raises on an empty array. So is an index past the end of the time
sequence, because `times[...]` raises. Both are returned as `Failure` values.
For index-aligned, non-empty input the result is always `Success`.

Two facts about the code shape the model:

- The radii are fixed constants in `find_eclipse_phases`
  (python-service/app.py:67-68). They are not parameters.
- "first contact ≤ maximum ≤ last contact" holds for every separation series,
  whatever the shape of the separation curve. The first minimum is at most
  every separation, so when any index is within the contact radius, the
  minimum index is one of them. `PhaseDetector.ContactsBracketMaximum`
  proves this.

## Model

| member | source | states |
|---|---|---|
| TimeGrid.Range | python-service/app.py:35 | `range(lo, hi)` has `hi - lo` entries (none when `hi <= lo`), entry i is `lo + i`, it is strictly ascending, and it contains exactly the integers in [lo, hi) |
| TimeGrid.GridOffsets | python-service/app.py:35 | the offsets are exactly 0..1439 in order: 1440 entries, entry i is i |
| TimeGrid.HourlyGrid | python-service/app.py:34-35 | the service's grid has 1440 instants, and instant i is i hours (60·i minutes) after the date's midnight, because each offset is taken as the hour argument |
| TimeGrid.HourlyGridSpan | python-service/app.py:30-35 | the service's grid is strictly increasing, its 25th instant (index 24) is the next midnight, and it holds exactly the whole hours from the date's midnight up to 1440 hours later |
| TimeGrid.MinuteGrid | python-service/app.py:33-35 | the per-minute grid has 1440 instants, and instant i is i minutes after the date's midnight |
| TimeGrid.GridCoversDay | python-service/app.py:30-35 | the per-minute grid is strictly increasing (no duplicates) and holds exactly the minutes in [midnight, next midnight): no gaps and nothing past the day |
| PhaseDetector.FirstMinUnique | python-service/app.py:60 | a series has at most one first-minimum index, so "the argmin" is well defined |
| PhaseDetector.ArgMin | python-service/app.py:60 | the index returned holds a value no larger than any other, and every earlier index holds a strictly larger value (first-occurrence tie-breaking) |
| PhaseDetector.ContactIndices | python-service/app.py:71 | the result holds an index exactly when it is in range and its separation is at most the limit, and the indices are strictly ascending |
| PhaseDetector.FindEclipsePhases | python-service/app.py:58-83 | an empty series is the argmin error; aligned non-empty input always succeeds; first and last contact are both present or both absent; the reported maximum separation occurs in the series and is at most every entry |
| PhaseDetector.MaximumIsFirstMinimum | python-service/app.py:60-64 | the reported maximum is the time and separation at the lowest index achieving the series minimum |
| PhaseDetector.FirstContactIsEarliest | python-service/app.py:71-73 | first contact is the time at the smallest index whose separation is within the contact radius |
| PhaseDetector.LastContactIsLatest | python-service/app.py:71-74 | last contact is the time at the largest index whose separation is within the contact radius |
| PhaseDetector.NoContactIffAllOutside | python-service/app.py:71-77 | contacts are absent exactly when every separation exceeds the contact radius |
| PhaseDetector.ContactIffMinimumWithin | python-service/app.py:60-72 | contacts are present exactly when the maximum-eclipse separation is within the contact radius |
| PhaseDetector.ContactsBracketMaximum | python-service/app.py:60-74 | with ascending times, first contact ≤ maximum eclipse time ≤ last contact whenever contacts exist |
| PhaseDetector.ContactsBoundSeries | python-service/app.py:71-74 | with ascending times, every index timed before first contact or after last contact lies outside the contact radius |
| EclipseService.Calculate | python-service/app.py:37-49 | over any grid, only an empty grid fails; on success the response carries the separation observed at each grid instant, index-aligned, and the detector's phases for exactly that series and grid |
| EclipseService.MaximumIsEarliestClosestInstant | python-service/app.py:37-64 | over a strictly increasing grid, the maximum eclipse is a grid instant, its separation is the one observed there, no grid instant is closer, and every earlier grid instant is strictly farther |
| EclipseService.ContactsOrderedOnGrid | python-service/app.py:37-74 | over a strictly increasing grid with some instant within the contact radius, both contacts are grid instants within the radius, and first contact ≤ maximum ≤ last contact |
| EclipseService.ContactsBoundEclipseOnGrid | python-service/app.py:37-74 | over a strictly increasing grid with some instant within the contact radius, every grid instant before first contact or after last contact is outside the radius |
| EclipseService.NoEclipseIffAllInstantsOutside | python-service/app.py:37-77 | over any non-empty grid, no contact is reported exactly when the separation at every grid instant exceeds the contact radius |
| EclipseService.CalculateEclipse | python-service/app.py:34-49 | the service's calculation over its hourly grid never fails, and its series has one entry per grid instant (1440) |
| EclipseService.HourlySeriesAligned | python-service/app.py:34-49 | entry i of the service's series is the separation observed i hours after the date's midnight |
| EclipseService.NoEclipseIffAllHoursOutside | python-service/app.py:34-77 | the service reports no contact exactly when the separation at every one of the 1440 whole hours from the date's midnight exceeds the contact radius |
| EclipseService.HourlyGridMissesHalfHourContact | python-service/app.py:33-35 | when the disks touch only at 00:30 of the requested day, the service reports no contact, while the per-minute calculation reports first contact at 00:30 |
| EclipseService.HourlyGridReportsLaterDay | python-service/app.py:33-35 | when the disks touch only at 05:00 twenty days after the requested date, the service reports that instant, which is past the day, as first contact |
| EclipseService.CalculateEclipseByMinute | python-service/app.py:33-49 | the calculation over the per-minute grid never fails, and its series has one entry per minute of the day (1440) |
| EclipseService.MinuteSeriesAligned | python-service/app.py:33-49 | entry i of the per-minute series is the separation observed i minutes after the date's midnight |
| EclipseService.MinuteMaximumWithinDay | python-service/app.py:33-64 | over the per-minute grid, the maximum eclipse is a minute of the requested day, its separation is the one observed then, and no minute of the day is closer |
| EclipseService.MinuteContactsWithinDay | python-service/app.py:33-74 | over the per-minute grid, when some minute of the day is within the contact radius, midnight ≤ first contact ≤ maximum ≤ last contact < next midnight |
| EclipseService.NoEclipseIffAllMinutesOutside | python-service/app.py:33-77 | over the per-minute grid, no contact is reported exactly when the separation at every minute of the day exceeds the contact radius |

## Findings

| source | as written | input that shows it | evidently intended | confidence | as-written member | corrected member |
|---|---|---|---|---|---|---|
| python-service/app.py:33-35 | the offsets `range(0, 24*60, 1)` are the hour argument of `ts.utc(year, month, day, hour)`, so instant i is i hours after midnight and the grid spans sixty days | disks touching only at 00:30 of the date: no contact reported; disks touching only at 05:00 twenty days later: that instant reported as first contact | one instant per minute of the requested day, as the comment on line 33 says (for example `ts.utc(year, month, day, 0, range(0, 24*60, 1))`) | high; not executed | TimeGrid.HourlyGrid, EclipseService.HourlyGridMissesHalfHourContact, EclipseService.HourlyGridReportsLaterDay | TimeGrid.MinuteGrid, TimeGrid.GridCoversDay, EclipseService.CalculateEclipseByMinute, EclipseService.MinuteContactsWithinDay |

## Left out

- Ephemeris loading, the observer's topocentric position, the Sun and Moon observations, and `separation_from` (python-service/app.py:15-17, 27, 37-41). These are floating-point astronomy inside skyfield. They are replaced by the `observe` parameter, so nothing is claimed about the range (0..180°) of its values.
- EclipseService.CalculateEclipse: does not model the request failing when a grid instant lies outside the span the de421 ephemeris covers. skyfield raises there and the route answers 400; because `observe` is a total function, the model's calculation always succeeds instead.
- The Flask route, JSON request parsing, CORS, dotenv, the mapping of any exception to a 400 response, and `app.run` (python-service/app.py:1-12, 19-25, 46-56, 85-86). These are I/O plumbing.
- Date parsing with `strptime` and the `isoformat` rendering of instants (python-service/app.py:25, 62, 73-74). An instant is an integer minute count, and the date's midnight `dayStart` is an input. Malformed dates are therefore not modelled.
- The values `t0` and `t1` (python-service/app.py:30-31). They are computed but never used. They bound the requested day, which `TimeGrid.GridCoversDay` describes for the per-minute grid.
- Floating-point arithmetic. Separations and radii are exact reals, so the threshold is exactly 0.5332, and the NaN behaviour of `np.argmin` and `np.where` does not arise.
- The Angular visualizer component and the mongoose `Eclipse` schema. They are UI and persistence code with no logic of the detector's.
