/** The timestamp formatting helpers (`timestampToDateString`, `timestampToTime`) and the
    `YYYY-MM-DD` day key that the calendar builds with the same template. */
module TimeFormat {
  import opened Options
  import opened Decimal
  import opened Calendar
  import opened LocalTime

  /** `${year}-${month padded}-${day padded}`: the date-only string and the calendar key. */
  function DateKey(d: Date): string {
    IntToString(d.year) + "-" + Pad2(d.month) + "-" + Pad2(d.day)
  }

  /** `${hour padded}:${minute padded}:${second padded}`. */
  function ClockString(h: int, m: int, s: int): string {
    Pad2(h) + ":" + Pad2(m) + ":" + Pad2(s)
  }

  /** `timestampToDateString(timestamp, withTime)` in a zone at offset `zone`. */
  function TimestampToDateString(t: int, withTime: bool, zone: int): string {
    var date := DateKey(LocalDate(t, zone));
    if !withTime then date
    else date + " " + ClockString(Hours(t, zone), Minutes(t, zone), Seconds(t, zone))
  }

  /** `timestampToTime(timestamp)` in a zone at offset `zone`. */
  function TimestampToTime(t: int, zone: int): string {
    ClockString(Hours(t, zone), Minutes(t, zone), Seconds(t, zone))
  }

  /** Reads a day key back: the year is everything before the final `-MM-DD`. */
  function ParseDateKey(s: string): Option<Date> {
    if |s| < 7 || s[|s| - 6] != '-' || s[|s| - 3] != '-' then None
    else
      var mm, dd := s[|s| - 5..|s| - 3], s[|s| - 2..];
      if !IsDigits(mm) || !IsDigits(dd) then None
      else match ParseInt(s[..|s| - 6])
        case None => None
        case Some(y) => Some(Date(y, DigitsValue(mm), DigitsValue(dd)))
  }

  /** Reads a clock string `hh:mm:ss` back. */
  function ParseClock(s: string): Option<(int, int, int)> {
    if |s| != 8 || s[2] != ':' || s[5] != ':' then None
    else
      var hh, mm, ss := s[..2], s[3..5], s[6..];
      if IsDigits(hh) && IsDigits(mm) && IsDigits(ss) then
        Some((DigitsValue(hh), DigitsValue(mm), DigitsValue(ss)))
      else None
  }

  /** Where the fields of a key sit, whatever the fields are. */
  lemma KeyLayout(y: string, mm: string, dd: string)
    requires |mm| == 2 && |dd| == 2
    ensures var s := y + "-" + mm + "-" + dd;
            |s| == |y| + 6 && s[|s| - 6] == '-' && s[|s| - 3] == '-'
            && s[..|s| - 6] == y && s[|s| - 5..|s| - 3] == mm && s[|s| - 2..] == dd
  {
    var s := y + "-" + mm + "-" + dd;
    assert s == y + (['-'] + mm + ['-'] + dd);
  }

  lemma ParseKeyFields(y: string, mm: string, dd: string, d: Date)
    requires |mm| == 2 && |dd| == 2 && IsDigits(mm) && IsDigits(dd)
    requires ParseInt(y) == Some(d.year) && DigitsValue(mm) == d.month && DigitsValue(dd) == d.day
    ensures ParseDateKey(y + "-" + mm + "-" + dd) == Some(d)
  {
    KeyLayout(y, mm, dd);
  }

  lemma DateKeyRoundTrip(d: Date)
    requires ValidDate(d)
    ensures ParseDateKey(DateKey(d)) == Some(d)
  {
    assert 1 <= d.month <= 12 && 1 <= d.day <= 31;
    Pad2Digits(d.month);
    Pad2Digits(d.day);
    IntToStringRoundTrip(d.year);
    ParseKeyFields(IntToString(d.year), Pad2(d.month), Pad2(d.day), d);
  }

  /** Distinct valid dates have distinct keys. */
  lemma DateKeyInjective(a: Date, b: Date)
    requires ValidDate(a) && ValidDate(b)
    ensures DateKey(a) == DateKey(b) <==> a == b
  {
    if DateKey(a) == DateKey(b) {
      DateKeyRoundTrip(a);
      DateKeyRoundTrip(b);
    }
  }

  lemma ClockLayout(hh: string, mm: string, ss: string)
    requires |hh| == 2 && |mm| == 2 && |ss| == 2
    ensures var c := hh + ":" + mm + ":" + ss;
            |c| == 8 && c[2] == ':' && c[5] == ':' && c[..2] == hh && c[3..5] == mm && c[6..] == ss
  {
  }

  lemma ClockRoundTrip(h: int, m: int, s: int)
    requires 0 <= h < 100 && 0 <= m < 100 && 0 <= s < 100
    ensures |ClockString(h, m, s)| == 8
    ensures ParseClock(ClockString(h, m, s)) == Some((h, m, s))
  {
    Pad2Digits(h);
    Pad2Digits(m);
    Pad2Digits(s);
    ClockLayout(Pad2(h), Pad2(m), Pad2(s));
  }

  /** Without the time part the string is the key of the local date, and reads back to it;
      the month and the day take exactly two digits each. */
  lemma DateOnlyForm(t: int, zone: int)
    ensures ParseDateKey(TimestampToDateString(t, false, zone)) == Some(LocalDate(t, zone))
    ensures var s := TimestampToDateString(t, false, zone);
            |s| >= 7 && s[|s| - 6] == '-' && s[|s| - 3] == '-'
  {
    var d := LocalDate(t, zone);
    DateKeyRoundTrip(d);
  }

  /** With the time part the string is the date-only string, one space, then the clock
      string `timestampToTime` gives for the same instant. */
  lemma WithTimeExtendsDateOnly(t: int, zone: int)
    ensures TimestampToDateString(t, true, zone)
         == TimestampToDateString(t, false, zone) + " " + TimestampToTime(t, zone)
  {
  }

  /** `timestampToTime` gives exactly `hh:mm:ss`, reading back to the local clock fields. */
  lemma TimeForm(t: int, zone: int)
    ensures |TimestampToTime(t, zone)| == 8
    ensures ParseClock(TimestampToTime(t, zone)) == Some((Hours(t, zone), Minutes(t, zone), Seconds(t, zone)))
    ensures var s := TimestampToDateString(t, true, zone);
            |s| >= 9 && s[|s| - 9] == ' ' && s[|s| - 8..] == TimestampToTime(t, zone)
  {
    ClockRoundTrip(Hours(t, zone), Minutes(t, zone), Seconds(t, zone));
    var date := TimestampToDateString(t, false, zone);
    DateOnlyForm(t, zone);
    var s := TimestampToDateString(t, true, zone);
    assert s == date + " " + TimestampToTime(t, zone);
  }

  /** The key of local day number `n`. */
  function DayLabel(n: int): string {
    DateKey(CivilFromDays(n))
  }

  lemma DayLabelInjective(i: int, j: int)
    ensures DayLabel(i) == DayLabel(j) <==> i == j
  {
    DateKeyInjective(CivilFromDays(i), CivilFromDays(j));
  }

  /** The key the calendar files an instant under is the timeline's date-only label. */
  lemma DateOnlyIsDayLabel(t: int, zone: int)
    ensures TimestampToDateString(t, false, zone) == DayLabel(DayIndex(t, zone))
  {
  }

  /** `Number(key.split("-")[0])`: the year the calendar reads back from a key. */
  function KeyYear(key: string): (r: Option<int>)
    ensures r.Some? ==> r.value >= 0
    ensures FirstField(key, '-') == [] ==> r == Some(0)
  {
    JsNumber(FirstField(key, '-'))
  }

  /** A non-negative year reads back as itself; a negative year's key starts with `-`, so
      the first field is empty and reads as 0. */
  lemma KeyYearOf(d: Date)
    ensures KeyYear(DateKey(d)) == Some(if d.year >= 0 then d.year else 0)
  {
    var y, rest := IntToString(d.year), Pad2(d.month) + "-" + Pad2(d.day);
    assert DateKey(d) == y + ['-'] + rest;
    if d.year >= 0 {
      NoDash(y);
      FirstFieldOf(y, '-', rest);
      NatToStringRoundTrip(d.year);
    } else {
      assert (y + ['-'] + rest)[0] == '-';
    }
  }

  lemma NoDash(s: string)
    requires IsDigits(s)
    ensures '-' !in s
  {
    forall i | 0 <= i < |s| ensures s[i] != '-' {
      assert IsDigit(s[i]);
    }
  }
}
