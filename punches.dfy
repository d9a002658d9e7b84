/** The values shared by every part of the attendance engine: punch kinds, punch events
    and work intervals. Timestamps are integer milliseconds since the epoch. */
module Punches {

  /** The four punch types, named by the type tags the event log stores:
      `shukkin` (clock-in), `taikin` (clock-out), `kyuukeikaishi` (break start)
      and `kyuukeishuuryou` (break end). */
  datatype Kind = Shukkin | Taikin | KyuukeiKaishi | KyuukeiShuuryou

  datatype Event = Event(kind: Kind, timestamp: int)

  /** A half-open span `[start, end)` of milliseconds. */
  datatype Interval = Interval(start: int, end: int)

  function EventTime(e: Event): int { e.timestamp }

  function IntervalStart(i: Interval): int { i.start }

  function Length(i: Interval): int { i.end - i.start }

  function TotalLength(s: seq<Interval>): int
  {
    if s == [] then 0 else Length(s[0]) + TotalLength(s[1..])
  }

  function Min(a: int, b: int): int { if a <= b then a else b }

  function Max(a: int, b: int): int { if a <= b then b else a }
}
