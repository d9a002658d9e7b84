# saki-shukkin attendance engine in Dafny

A model of the attendance logic in saki-shukkin, a personal time-clock web app. Its
operations:

- A user records four kinds of punch: `shukkin` (clock-in), `taikin` (clock-out),
  `kyuukeikaishi` (break start) and `kyuukeishuuryou` (break end).
- `computeWorkSegments` turns the punch log into work intervals with the closed breaks cut
  out.
- `allocateSegmentToDays` splits each interval at local midnights, filed by date key.
- `computeCalendarData` sums every local date of a year and produces the heat-map cells:
  a date, rounded hours and a level from 0 to 4.
- The `App` component keeps the displayed status, guards the punch buttons and appends
  events to the store.
- The `ImageOverlay` component enables the clickable polygons and renders their `points`
  attribute.
- `timestampToDateString` and `timestampToTime` render local dates and times.

The model is split file by file:

| file | module | models |
|---|---|---|
| punches.dfy | `Punches` | punch kinds, events, intervals |
| sorting.dfy | `Sorting` | the stable `Array.prototype.sort` by a numeric key |
| segments.dfy | `Segments` | `computeWorkSegments` as a method with a `while` loop, against a specification function `WorkSegments` |
| segment_examples.dfy | `SegmentExamples` | worked logs and the dependence on input order |
| localtime.dfy | `LocalTime` | local days, midnights and clock fields at a fixed zone offset |
| calendar.dfy | `Calendar` | Gregorian dates and day numbers, the dates of one year, and the day the multi-argument `Date` constructor builds |
| decimal.dfy | `Decimal` | `toString`, `padStart`, `split(..)[0]`, `Number` on the strings involved |
| timefmt.dfy | `TimeFormat` | `timestampToDateString`, `timestampToTime`, the `YYYY-MM-DD` day key |
| allocation.dfy | `DayAllocation` | `allocateSegmentToDays` as a method with its `while` loop |
| calendardata.dfy | `CalendarData` | `computeCalendarData`: the per-day totals, the year filter and the walk from January 1 to December 31 |
| status.dfy | `Status` | the initial status, the status derived from the last event, the click handler's guards |
| app.dfy | `App` | a class holding the `status` and `events` states, the event store and the pending revert timers |
| overlay.dfy | `Overlay` | the `enabledButtons` table, click gating, `convertPointsToString` |

Local time is a fixed offset `zone`, in milliseconds ahead of UTC, passed to every
operation that reads a local date or clock field. `Date.now()` is the parameter `now` of
`HandleButtonClick`. Milliseconds are unbounded integers. The integral `Math.round` of
hours is `(ms + 1800000) / 3600000`.

Notes on the code, where it does something a reader might not expect or where its own
comments say otherwise:

- **Clock-out and break-start guards.** The handler accepts both from clocked in and
  also right after a break end (`Status.Accepts`). Its comment at src/App.jsx:65-66 allows
  the break start only after a clock-in. The overlay enables a clock-out after a break end
  but not a break start (`Overlay.GuardGap`).
- **Clock-in.** The handler accepts a clock-in from every status; the comment at
  src/App.jsx:64-67 names no guard for it. Only the overlay restricts it to clocked out.
- **Input order.** The pass sorts the log by timestamp first (src/components/WorkCalendar.jsx:27),
  so the order the events are given in does not matter when no two different events share a
  timestamp (`SegmentExamples.SegmentsIgnoreInputOrder`). With tied timestamps the stable
  sort keeps log order, and two orders of the same events give different segments
  (`SegmentExamples.TiedEventsFollowLogOrder`).
- **Level bands.** The comment at src/components/WorkCalendar.jsx:143 describes four levels
  (0 to 3). The code has five (0 to 4), and the model follows the code
  (`CalendarData.LevelBands`).
- **Initial status.** The comment at src/App.jsx:23 says the app starts clocked in. The code
  starts in `taikin`, and the model follows the code.
- **Two-digit years.** `new Date(y, m, d)` reads the years 0 to 99 as 1900 to 1999
  (`Calendar.CalendarYear`). The calendar of a year from 0 to 99 therefore walks the dates
  of 1900 + y, and its filter keeps none of them (src/components/WorkCalendar.jsx:135-136).
  The day boundary of the allocation loop (src/components/WorkCalendar.jsx:99-104) is built
  the same way: a piece that starts in a year from 0 to 99 is not cut at midnight, and up to
  January 1 of 1900 + y all of it is filed under the day it starts on
  (`DayAllocation.EarlyYearPiece`). The day-by-day results (`DayAllocation.AllocationOnDay`,
  `CalendarData.CalendarCell`) are stated for work clear of those years.

## Model

| member | source | states |
|---|---|---|
| Segments.ComputeWorkSegments | src/components/WorkCalendar.jsx:25-81 | The pass over the events returns `WorkSegments(events)`: the events sorted by timestamp, then run through the clock-in / break / clock-out state machine. The result's segments are non-empty, ascending and pairwise disjoint. |
| Segments.SplitShift | src/components/WorkCalendar.jsx:54-69 | The clock-out branch returns `CloseShift`. Its breaks are sorted by start. A break starting strictly between the open segment's start and the clock-out ends a segment there, and the next segment starts at the break's end. The remainder before the clock-out is the last segment when it is non-empty. |
| Segments.WorkSegmentsShape | src/components/WorkCalendar.jsx:27-80 | For every event log, in any order, every segment has `start < end`. Each segment starts at or after the end of every earlier one, across shifts too. |
| Segments.RunShape | src/components/WorkCalendar.jsx:32-79 | From a well-formed state over a sorted log no earlier than the last event seen, the segments are positive and ordered. None starts before the open clock-in, or before the last event seen when no shift is open. |
| Segments.StepWellFormed | src/components/WorkCalendar.jsx:33-78 | One event in time order keeps the pass state well formed: the open clock-in and break start lie in the past, and every closed break is a forward span. |
| Segments.CloseShiftShape | src/components/WorkCalendar.jsx:55-69 | The segments of one shift are positive, ordered and lie within `[clockIn, clockOut]`, whatever order the breaks were recorded in. |
| Segments.CutBreaksShape | src/components/WorkCalendar.jsx:59-69 | Cutting breaks from a segment start yields positive, ordered segments between that start and the clock-out. |
| Segments.ShiftWorkBound | src/components/WorkCalendar.jsx:55-69 | The work time of a shift is non-negative and never exceeds the shift's length. |
| Segments.OrphanBreakIgnored | src/components/WorkCalendar.jsx:39-52 | A break start or break end while no shift is open changes nothing in the output. |
| Segments.ClockInResetsShift | src/components/WorkCalendar.jsx:34-38 | A clock-in discards any earlier partial shift and its breaks. What follows does not depend on the state before it. |
| Segments.NoClockOutNoSegments | src/components/WorkCalendar.jsx:53-80 | A run of events without a clock-out emits nothing, so a shift still open at the end of the log counts nothing. |
| Segments.OpenBreakNotExcised | src/components/WorkCalendar.jsx:44-69 | Only closed breaks are cut out: an open break start does not change what the clock-out emits. |
| Segments.ClockOutResetsShift | src/components/WorkCalendar.jsx:53-74 | The clock-out of an open shift emits that shift's segments and leaves the pass idle. |
| SegmentExamples.OneBreak | src/components/WorkCalendar.jsx:25-81 | A shift `[a, d)` with one closed break `[b, c)` inside it gives exactly the two segments around the break. |
| SegmentExamples.UnclosedBreakCountsAsWork | src/components/WorkCalendar.jsx:39-69 | A break start with no break end before the clock-out leaves the whole shift as one segment. |
| SegmentExamples.BreakAtClockInNotExcised | src/components/WorkCalendar.jsx:62 | A break starting exactly at the clock-in is skipped, not cut out: the whole shift counts. |
| SegmentExamples.CloseShiftNoBreaks | src/components/WorkCalendar.jsx:67-69 | A shift with no closed break is one segment, or none when it is empty. |
| SegmentExamples.SortedLogRunsAsIs | src/components/WorkCalendar.jsx:27 | A log whose timestamps never decrease is run in the order given. |
| SegmentExamples.SegmentsIgnoreInputOrder | src/components/WorkCalendar.jsx:27 | Two logs holding the same events, no two different events sharing a timestamp, give the same segments. |
| SegmentExamples.TiedEventsFollowLogOrder | src/components/WorkCalendar.jsx:27 | Two orders of the same four events with a tied timestamp give different segments: two segments in one order, none in the other. |
| Sorting.SortBy | src/components/WorkCalendar.jsx:27 | The sort returns a permutation of its input, in ascending key order. |
| Sorting.Insert | src/components/WorkCalendar.jsx:27 | One insertion step keeps the order and adds exactly the inserted element. |
| Sorting.SortSortedIsIdentity | src/components/WorkCalendar.jsx:27 | Sorting an already sorted sequence leaves it unchanged, ties included. |
| Sorting.SortedUnique | src/components/WorkCalendar.jsx:27 | Two sorted sequences with the same elements and distinct keys are equal. |
| Sorting.SortIgnoresInputOrder | src/components/WorkCalendar.jsx:27 | Permuting a sequence with distinct keys does not change the sort's result. |
| Sorting.SortKeepsMembers | src/components/WorkCalendar.jsx:27 | An element is in the sorted sequence exactly when it is in the input. |
| DayAllocation.AllocateSegmentToDays | src/components/WorkCalendar.jsx:88-111 | The loop returns `Allocation(segment)`: the segment cut at each boundary `new Date(y, m, d + 1)` gives, each piece's length added under the key of the local date it starts on. |
| DayAllocation.KeyOfLocalDate | src/components/WorkCalendar.jsx:93-97 | The key the loop builds for an instant is the label of its local day. |
| DayAllocation.SlicesWithinDays | src/components/WorkCalendar.jsx:92-108 | For a segment clear of the local years 0 to 99, every piece is non-empty and never crosses a local midnight. The `i`-th piece lies on the `i`-th local day from the segment's start. |
| DayAllocation.SlicesCover | src/components/WorkCalendar.jsx:92-108 | The pieces follow one another without gap or overlap from start to end. Their lengths sum to `end - start`, or to 0 for an empty segment. |
| DayAllocation.SliceCount | src/components/WorkCalendar.jsx:92-108 | For a non-empty segment clear of the local years 0 to 99, the loop runs once per local day the segment touches. |
| DayAllocation.AllocationOnDay | src/components/WorkCalendar.jsx:88-111 | For a segment clear of the local years 0 to 99, the amount under the key of local day `n` is exactly the part of the segment that falls on day `n`. A day the segment does not touch gets 0. |
| DayAllocation.NightShiftSplits | src/components/WorkCalendar.jsx:98-107 | A shift clear of the local years 0 to 99 that crosses one midnight is split at that midnight into its two parts. No other day gets anything. |
| DayAllocation.TallyAt | src/components/WorkCalendar.jsx:107 | Adding the pieces one by one leaves, under each key, the old amount plus the pieces filed under that key. |
| DayAllocation.EarlyYearPiece | src/components/WorkCalendar.jsx:92-108 | A piece starting in a local year `y` from 0 to 99 that ends by January 1 of `1900 + y` is not cut at midnight: the allocation is that one key, the start's day, holding the whole length. |
| DayAllocation.EarlyYearTwoDays | src/components/WorkCalendar.jsx:88-111 | Two days from local midnight of a date in the years 0 to 99 are filed under that date alone, where later years file one day under each date. |
| CalendarData.ComputeCalendarData | src/components/WorkCalendar.jsx:118-157 | The method returns `CalendarData(year, events)`: one cell per date of the calendar year, each built from the work filed under that date's key. |
| CalendarData.DailyDurations | src/components/WorkCalendar.jsx:120-132 | The per-key total after all segments is `DailyMs`: the sum over segments of the allocation under that key, when the year read back from the key is the selected one. |
| CalendarData.RoundHours | src/components/WorkCalendar.jsx:142 | `Math.round` of the hours: the nearest whole hour, within half an hour either way, a half hour rounding up. |
| CalendarData.LevelOf | src/components/WorkCalendar.jsx:144-154 | The level chain gives 0 to 4, and 0 exactly when both the rounded hours and the milliseconds are 0. |
| CalendarData.Entry | src/components/WorkCalendar.jsx:141-154 | The cell for a date carries that date and the rounded hours. Its level lies in 0 to 4 and is 0 exactly when nothing was worked. |
| CalendarData.AddYearShare | src/components/WorkCalendar.jsx:124-131 | Iterating over an allocation's keys adds each amount whose key reads back to the selected year. Every other key is unchanged. |
| CalendarData.WalkYear | src/components/WorkCalendar.jsx:134-156 | The date walk from January 1 to December 31 by `setDate(getDate() + 1)` pushes one cell per date, in order. Each cell holds the daily total under that date's key, or 0. |
| CalendarData.CalendarCell | src/components/WorkCalendar.jsx:118-157 | There are `DaysInYear` cells. Cell `i` holds the `i`-th date of the calendar year. From year 100 on, for work clear of the local years 0 to 99, its count and level come from the milliseconds worked on that local day across all segments. For earlier years every cell is empty, whatever the work. |
| CalendarData.CalendarSpan | src/components/WorkCalendar.jsx:135-137 | There are 365 or 366 cells, the first dated January 1 and the last December 31 of the calendar year. |
| CalendarData.CalendarDatesDistinct | src/components/WorkCalendar.jsx:137-140 | No date appears twice. |
| CalendarData.EmptyLogCalendar | src/components/WorkCalendar.jsx:118-157 | With no events every cell has count 0 and level 0. |
| CalendarData.DailyMsOnDay | src/components/WorkCalendar.jsx:122-132 | For segments clear of the local years 0 to 99, the total under the key of local day `n` is the time worked on day `n`, or 0 when the key's year is not the selected one. |
| CalendarData.CellMs | src/components/WorkCalendar.jsx:127-141 | The total read for a date of the calendar year is the time worked on that local day from year 100 on (for segments clear of the local years 0 to 99), and 0 before. For years 0 to 99 `new Date(year, 0, 1)` lies in 1900 to 1999 while the filter keeps keys of the year itself. For a negative year the key's first field is empty and reads as 0. |
| CalendarData.DailyMsOffYear | src/components/WorkCalendar.jsx:127-130 | A key whose year, as read back from the key, is not the selected one gets nothing, from any segments. |
| CalendarData.WalkLabel | src/components/WorkCalendar.jsx:137-140 | The label built on a local midnight is the key of that day's date. |
| CalendarData.WalkNext | src/components/WorkCalendar.jsx:137 | Stepping the date gives the next date of the year and the next day number. |
| CalendarData.LevelBands | src/components/WorkCalendar.jsx:141-154 | Level 0 exactly when nothing was worked. Level 1 for work under 2.5 hours, even when it rounds to 0 hours. Level 2 below 5.5 hours, level 3 below 8.5 hours, level 4 from 8.5 hours on. |
| CalendarData.CountRounds | src/components/WorkCalendar.jsx:142 | The count is the nearest number of hours, a half hour rounding up. It is non-negative for non-negative work. |
| CalendarData.CellExamples | src/components/WorkCalendar.jsx:141-154 | 8.5 hours shows 9 hours at level 4, 8 hours shows 8 at level 3, 29 minutes shows 0 hours at level 1, and nothing shows 0 at level 0. |
| Calendar.CivilFromDays | src/components/WorkCalendar.jsx:93-97 | The local date of a day number is a valid date whose day number is that number. |
| Calendar.CalendarYear | src/components/WorkCalendar.jsx:135-136 | The year the multi-argument `Date` constructor builds in keeps the last two digits of the year given and is never a year from 0 to 99; it is the year given exactly when that is not from 0 to 99. |
| Calendar.ConstructedNextDay | src/components/WorkCalendar.jsx:99-103 | The day the constructor builds from a date with its day plus one is the next day outside the years 0 to 99. In those years it lies after January 1 of `1900 + y`. It is always later than the date. |
| Calendar.CivilRoundTrip | src/components/WorkCalendar.jsx:93-97 | Dates and day numbers are in one-to-one correspondence. |
| Calendar.DaysFromCivilInjective | src/components/WorkCalendar.jsx:137-140 | Distinct valid dates have distinct day numbers. |
| Calendar.NextDateIsNextDay | src/components/WorkCalendar.jsx:137 | `setDate(getDate() + 1)` advances the day number by one, across month and year ends. |
| Calendar.YearDatesSpan | src/components/WorkCalendar.jsx:135-137 | The dates of a year run from January 1 to December 31, each the day after the one before. |
| Calendar.YearDatesExact | src/components/WorkCalendar.jsx:135-137 | A valid date is among the dates of year `y` exactly when it lies in `y`, at the position of its day of the year. |
| LocalTime.NextMidnight | src/components/WorkCalendar.jsx:99-104 | The boundary is strictly after `t`, so the loop advances. |
| LocalTime.NextMidnightIsConstructed | src/components/WorkCalendar.jsx:99-104 | For every instant the boundary is local midnight of `new Date(y, m, d + 1)` built from its local date. |
| LocalTime.NextMidnightRegular | src/components/WorkCalendar.jsx:99-105 | Outside the local years 0 to 99 the boundary is the next local midnight, at most one day later. It starts the next local day, and every instant before it from `t` on lies on `t`'s day. |
| LocalTime.NextMidnightEarly | src/components/WorkCalendar.jsx:99-105 | In a local year `y` from 0 to 99 the boundary lies after local midnight of January 1 of `1900 + y`. |
| LocalTime.DayBounds | src/components/WorkCalendar.jsx:93-104 | An instant lies between the midnight starting its local day and the next one. |
| LocalTime.LocalDateSeparates | src/components/WorkCalendar.jsx:93-97 | Two instants have the same local date exactly when they lie on the same local day. |
| LocalTime.DayStartDate | src/components/WorkCalendar.jsx:99-104 | Local midnight of a day falls on that day and carries its date. |
| LocalTime.ClockFieldsExact | src/utils/time.js:7-9 | Hours, minutes, seconds and the sub-second rest rebuild the time of day. |
| LocalTime.Hours | src/utils/time.js:7 | `getHours()` lies in 0 to 23; `Minutes` and `Seconds` in 0 to 59. |
| TimeFormat.TimestampToDateString | src/utils/time.js:2-22 | `timestampToDateString`: the key of the local date, followed, when the time is asked for, by a space and the clock string. Its form and read-back are stated by `DateOnlyForm`, `WithTimeExtendsDateOnly` and `TimeForm`. |
| TimeFormat.TimestampToTime | src/utils/time.js:25-34 | `timestampToTime`: the local hours, minutes and seconds, each padded to two digits and joined by `:`. Its form and read-back are stated by `TimeForm`. |
| TimeFormat.DateOnlyForm | src/utils/time.js:11-14 | The date-only string reads back to the local date, with `-` before the two-digit month and day. |
| TimeFormat.WithTimeExtendsDateOnly | src/utils/time.js:17-21 | The string with time is the date-only string, one space, then the clock string. |
| TimeFormat.TimeForm | src/utils/time.js:25-34 | `timestampToTime` is exactly eight characters `hh:mm:ss` that read back to the local clock fields. It is the suffix after the space of the string with time. |
| TimeFormat.ClockRoundTrip | src/utils/time.js:31-33 | Two-digit clock fields render as `hh:mm:ss` and read back to themselves. |
| TimeFormat.DateKeyRoundTrip | src/utils/time.js:12-14 | The `year-MM-DD` key of a valid date reads back to that date. |
| TimeFormat.DateKeyInjective | src/components/WorkCalendar.jsx:95-97 | Two valid dates have the same key exactly when they are equal. |
| TimeFormat.DayLabelInjective | src/components/WorkCalendar.jsx:95-97 | Two local days share a label exactly when they are the same day. |
| TimeFormat.DateOnlyIsDayLabel | src/utils/time.js:12-14 | The date-only string of an instant is the calendar's key for its local day, so the timeline and the calendar agree on day labels. |
| TimeFormat.KeyYearOf | src/components/WorkCalendar.jsx:127 | `Number(key.split("-")[0])` is the year of a key for years from 0 on. For a negative year it is 0. |
| TimeFormat.KeyYear | src/components/WorkCalendar.jsx:127 | `Number(key.split("-")[0])` is never negative, and an empty first field reads as 0. |
| Decimal.Pad2Digits | src/utils/time.js:12-14 | `padStart(2, "0")` of 0 to 99 is two digits that read back to the number. |
| Decimal.PadStart | src/utils/time.js:12-14 | `padStart` keeps a long string. It fills a short one with the pad character up to the width, ending in the original. |
| Decimal.IntToStringRoundTrip | src/utils/time.js:12 | The decimal form of any integer reads back to it. |
| Decimal.NatToString | src/utils/time.js:12 | The decimal form of a natural number is all digits, with no leading zero unless it is 0. |
| Decimal.FirstField | src/components/WorkCalendar.jsx:127 | Element 0 of `split(sep)` is the prefix before the first separator, or the whole string when it has none. |
| Status.DeriveStatus | src/App.jsx:50-60 | The effect on `events`: an empty list leaves the status as it was, and a non-empty one never shows a break end. |
| Status.Accepts | src/App.jsx:68-82 | The handler's guard. From clocked out it lets only a clock-in through. |
| Status.DerivedStatusShape | src/App.jsx:50-60 | The status derived from a non-empty list is never a break end. It equals the last event's kind exactly when that kind is not a break end. |
| Status.DeriveStatusStable | src/App.jsx:50-60 | Deriving from the same non-empty list gives the same status whatever the status was before. |
| Status.DerivedFromLatest | src/App.jsx:50-60 | From the store read back in timestamp order, the status is that of an event with the latest timestamp, a break end shown as clocked in. |
| Status.AcceptedFrom | src/App.jsx:68-82 | A clock-in is accepted from every status. A break end is accepted only during a break, and a clock-out or break start only outside one. Clocked out accepts only a clock-in; on a break only a clock-in or a break end. |
| App.App.constructor | src/App.jsx:24-26 | The component mounts clocked out, over the store earlier sessions left, with no events read yet and no timers. Over an empty store the status agrees with the store. |
| App.App.HandleButtonClick | src/App.jsx:63-96 | A punch is accepted exactly when the handler's guard lets it through. An ignored punch changes nothing. An accepted one appends one event of its kind at `now` and shows its kind. A break end also schedules one revert. Agreement between status and store is kept. |
| App.App.Refresh | src/App.jsx:84-87 | Reading the store back sets `events` to the store in timestamp order. The status is then derived from its last event. |
| App.App.FireRevertAsWritten | src/App.jsx:91-95 | The timer as written shows clocked in, whatever the status is by then. |
| App.App.FireRevert | src/App.jsx:91-95 | The corrected timer turns a break end still on screen into clocked in and leaves any later status alone. It keeps status and store in agreement. |
| App.RefreshKeepsSync | src/App.jsx:50-60 | While punches arrive in time order, reading the store back returns it unchanged. The derived status then still agrees with the last punch. |
| App.RefreshShowsLast | src/App.jsx:50-60 | Reading back a non-empty store kept in time order shows its last punch, a break end as clocked in, whatever the status was before. |
| App.Mount | src/App.jsx:45-60 | At mount the persisted store is read back in timestamp order and the status is derived from it. For a store kept in time order the status then agrees with its last punch. |
| App.PunchKeepsOrder | src/App.jsx:83-84 | A punch no earlier than the last keeps the store in time order. |
| App.PunchThrough | src/App.jsx:63-96 | Four punches (clock in, break, back, clock out) are all accepted and stored in order. One revert stays pending. |
| App.RevertRaceAsWritten | src/App.jsx:84-95 | The as-written timer firing after a quick clock-out shows clocked in although the last event is a clock-out. |
| App.RevertRaceCorrected | src/App.jsx:91-95 | With the corrected timer the clock-out stays on screen. |
| Overlay.Enabled | src/components/ImageOverlay.jsx:55-60 | The `enabledButtons` table. Every button it enables passes the handler's guard. |
| Overlay.Click | src/components/ImageOverlay.jsx:93-97 | A click hands the handler nothing or the polygon's own key. |
| Overlay.EnabledPerStatus | src/components/ImageOverlay.jsx:55-60 | Each status enables exactly the buttons of the `enabledButtons` table, and every status enables at least one. |
| Overlay.ClickReachesHandler | src/components/ImageOverlay.jsx:93-97 | A click calls the handler exactly when the polygon is enabled, and with that polygon's key. The handler's guard then accepts it. |
| Overlay.GuardGap | src/components/ImageOverlay.jsx:55-60 | Every enabled button passes the handler's guard (src/App.jsx:68-82). The handler accepts more in exactly two cases: a clock-in from any status but clocked out, and a break start right after a break end. |
| Overlay.ConvertPointsToString | src/components/ImageOverlay.jsx:43-45 | `convertPointsToString`: the empty string exactly for no points. Its form and read-back are stated by `PointsStringForm`. |
| Overlay.PointStrings | src/components/ImageOverlay.jsx:44 | There is one `x,y` item per point, in input order. |
| Overlay.PointsStringForm | src/components/ImageOverlay.jsx:43-45 | For `n >= 1` points the string splits at spaces into the `n` items in order. It holds `n - 1` spaces and reads back to the points. |
| Overlay.PointRoundTrip | src/components/ImageOverlay.jsx:44 | An `x,y` item holds no space and reads back to its point. |
| Overlay.SplitJoin | src/components/ImageOverlay.jsx:44 | Splitting a join of separator-free items gives the items back. |
| Overlay.JoinSeparators | src/components/ImageOverlay.jsx:44 | A join of `n` separator-free items holds `n - 1` separators. |

## Left out

- Time zones: local time is a fixed offset. Daylight-saving changes, where a local day is 23 or 25 hours long, are not modelled, because the host's zone rules are not part of the program.
- Date range: JavaScript `Date` covers about ±273,790 years around 1970, and outside that it is invalid. The model's dates and timestamps are unbounded.
- Date comparison: the walk compares local midnights (`Midnight`) where the source compares `Date` objects by their time values.
- Floating point: `Math.round(ms / 1000 / 60 / 60)` is modelled in integers. For integral milliseconds this is the same round-half-up.
- The event store (src/store/db.jsx) is a sequence field of `App.App`. Its asynchronous IndexedDB access, the `id` keys and deletion are not part of this model. `Refresh` sorts the store, because `getAllEvents` returns events in timestamp order.
- Promise sequencing: `addEvent(..).then(getAllEvents).then(setEvents)` is the separate step `Refresh`. Interleavings of several pending refreshes are not modelled.
- `setTimeout`: the revert timer is a counter of pending reverts and a step that fires one. The 500 ms delay itself is not modelled.
- Event kinds: an event type outside the four kinds (the `default` branch of the switch) cannot be represented, because `Kind` has exactly four values.
- `Number(s)`: modelled only on the strings a key's first field can be (empty, or digits). Signs, white space and fractions never reach it.
- Polygon data: the fixed polygon coordinates of the overlay, the hover state and all rendering (JSX, the icons, `ActivityCalendar`, the timeline, the confirmation modal, the year select, image preloading, the `loading` flag) are UI and not modelled.
- src/test/generate2024.js, src/components/Footer.jsx and src/components/time/CurrentTime.jsx are not part of this model: they are a random test-data generator, a static footer and a ticking clock.
- DayAllocation.AllocationOnDay: stated only for segments clear of the local years 0 to 99, and so are `SlicesWithinDays`, `SliceCount`, `NightShiftSplits` and `CalendarData.DailyMsOnDay`. For a piece starting in those years, `EarlyYearPiece` describes the result up to January 1 of 1900 + y. A segment running on past that boundary is not characterised.
- CalendarData.CalendarCell: for a year from 100 on, stated only when every work segment is clear of the local years 0 to 99 (`SegmentsClear`). A segment starting in those years files the rest of its length under its first day, and the cell lemma does not cover it.
- App.App.Refresh: the contract states the new `events` and `status` but not that status and store stay in agreement. That holds only while punches arrive in time order, and `App.RefreshKeepsSync` states it under that condition.
- Sorting: the model sorts by insertion, which is stable like `Array.prototype.sort`. Stability is shown by `SortSortedIsIdentity` and by the tied-timestamp examples, not as a general lemma.

## Findings

| source | as written | input that shows it | evidently intended | confidence | as-written member | corrected member |
|---|---|---|---|---|---|---|
| src/App.jsx:91-95 | After a break end a timer sets the status to clocked in 500 ms later, unconditionally. It is never cancelled. | Break end, then a clock-out within 500 ms whose refresh resolves before the timer fires: the timer then shows clocked in, although the last event is a clock-out. The overlay then offers clock-out and break start instead of clock-in, until the next punch changes `events` again. | The timer turns the break end into clocked in only while the break end is still the status on screen. | not executed | App.App.FireRevertAsWritten, App.RevertRaceAsWritten | App.App.FireRevert, App.RevertRaceCorrected |
