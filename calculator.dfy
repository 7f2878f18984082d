/**
 * The overtime calculator: each raw attendance entry `date` plus
 * `start~end` becomes an attendance record whose overtime is the time
 * since the effective start less the lunch break, the working time and the
 * rest time, rounded to hundredths of an hour and clamped to the daily
 * maximum. Entries that do not parse are skipped; the report lists the
 * records newest date first.
 */
module Calculator {
  import opened Wrappers
  import opened Text
  import opened Seqs
  import opened Settings
  import opened Attendance
  import opened Report

  /** One input entry; a missing key is `None`. */
  datatype RawRecord = RawRecord(date: Option<string>, timeRange: Option<string>)

  datatype Date = Date(year: nat, month: nat, day: nat)

  // ---------------------------------------------------------------- clock and date

  function TwoDigitsAt(s: string, i: nat): (r: Option<nat>)
    requires i + 2 <= |s|
    ensures r.Some? ==> r.value < 100
  {
    if IsDigit(s[i]) && IsDigit(s[i + 1]) then Some(10 * DigitValue(s[i]) + DigitValue(s[i + 1])) else None
  }

  /** `%H:%M:%S` with two digits per field, as seconds since midnight. */
  function ParseClock(t: string): (r: Option<nat>)
    ensures r.Some? ==> r.value < 24 * 3600
  {
    if |t| != 8 || t[2] != ':' || t[5] != ':' then None
    else
      var h := TwoDigitsAt(t, 0);
      var m := TwoDigitsAt(t, 3);
      var s := TwoDigitsAt(t, 6);
      if h.None? || m.None? || s.None? then None
      else if h.value < 24 && m.value < 60 && s.value < 60 then Some(3600 * h.value + 60 * m.value + s.value)
      else None
  }

  function TwoDigits(n: nat): (r: string)
    requires n < 100
    ensures |r| == 2 && AllDigits(r)
  {
    [DigitChar(n / 10), DigitChar(n % 10)]
  }

  /** `f"{h:02d}:{m:02d}:{s:02d}"` */
  function ClockText(h: nat, m: nat, s: nat): (t: string)
    requires h < 24 && m < 60 && s < 60
    ensures |t| == 8 && t[2] == ':' && t[5] == ':'
  {
    TwoDigits(h) + ":" + TwoDigits(m) + ":" + TwoDigits(s)
  }

  /** A well-formed clock text reads back as its seconds since midnight. */
  lemma ParseClockText(h: nat, m: nat, s: nat)
    requires h < 24 && m < 60 && s < 60
    ensures ParseClock(ClockText(h, m, s)) == Some(3600 * h + 60 * m + s)
  {
    var t := ClockText(h, m, s);
    assert t[0] == DigitChar(h / 10) && t[1] == DigitChar(h % 10);
    assert t[3] == DigitChar(m / 10) && t[4] == DigitChar(m % 10);
    assert t[6] == DigitChar(s / 10) && t[7] == DigitChar(s % 10);
  }

  /** Two digits read back are the two characters read. */
  lemma TwoDigitsOfValue(s: string, i: nat)
    requires i + 2 <= |s| && TwoDigitsAt(s, i).Some?
    ensures TwoDigits(TwoDigitsAt(s, i).value) == s[i..i + 2]
  {
    var n := TwoDigitsAt(s, i).value;
    assert n / 10 == DigitValue(s[i]) && n % 10 == DigitValue(s[i + 1]);
  }

  lemma ClockFields(h: nat, m: nat, s: nat)
    requires h < 24 && m < 60 && s < 60
    ensures var v := 3600 * h + 60 * m + s;
            v / 3600 == h && v / 60 % 60 == m && v % 60 == s
  {
    var v := 3600 * h + 60 * m + s;
    assert v == 3600 * h + (60 * m + s) && 60 * m + s < 3600;
    assert v == 60 * (60 * h + m) + s;
    assert v / 60 == 60 * h + m;
  }

  /** Conversely, a text that parses is the clock text of its value. */
  lemma ClockTextOfParse(t: string)
    requires ParseClock(t).Some?
    ensures var v := ParseClock(t).value;
            t == ClockText(v / 3600, v / 60 % 60, v % 60)
  {
    var h := TwoDigitsAt(t, 0).value;
    var m := TwoDigitsAt(t, 3).value;
    var s := TwoDigitsAt(t, 6).value;
    ClockFields(h, m, s);
    TwoDigitsOfValue(t, 0);
    TwoDigitsOfValue(t, 3);
    TwoDigitsOfValue(t, 6);
    assert t == t[0..2] + ":" + t[3..5] + ":" + t[6..8];
  }

  predicate IsLeapYear(y: nat)
  {
    y % 4 == 0 && (y % 100 != 0 || y % 400 == 0)
  }

  function DaysInMonth(y: nat, m: nat): (n: nat)
    requires 1 <= m <= 12
    ensures 28 <= n <= 31
  {
    if m == 2 then (if IsLeapYear(y) then 29 else 28)
    else if m == 4 || m == 6 || m == 9 || m == 11 then 30
    else 31
  }

  /** `%Y/%m/%d` with four, two and two digits, a real calendar day from year 1 on. */
  function ParseDate(s: string): (r: Option<Date>)
    ensures r.Some? ==> r.value.year >= 1 && 1 <= r.value.month <= 12 && 1 <= r.value.day <= 31
  {
    if |s| != 10 || s[4] != '/' || s[7] != '/' || !AllDigits(s[..4]) then None
    else
      var y := DigitsValue(s[..4]);
      var m := TwoDigitsAt(s, 5);
      var d := TwoDigitsAt(s, 8);
      if m.None? || d.None? || y < 1 || m.value < 1 || m.value > 12 then None
      else if 1 <= d.value <= DaysInMonth(y, m.value) then Some(Date(y, m.value, d.value))
      else None
  }

  /** The order of `date_obj`: a date as the number yyyymmdd. */
  function DateKey(s: string): int
  {
    match ParseDate(s)
    case None => 0
    case Some(d) => 10000 * d.year + 100 * d.month + d.day
  }

  /** `sort(key=date_obj, reverse=True)`: `a` may precede `b` when its date is not older. */
  predicate NewerOrSame(a: AttendanceRecord, b: AttendanceRecord)
  {
    DateKey(b.date) <= DateKey(a.date)
  }

  lemma NewerOrSameIsPreorder()
    ensures TotalPreorder(NewerOrSame)
  {
  }

  // ---------------------------------------------------------------- arithmetic

  /** `round(x, 2)`, rounding half up on exact values. */
  function Round2(x: real): (r: real)
    ensures x - 0.005 < r <= x + 0.005
  {
    (x * 100.0 + 0.5).Floor as real / 100.0
  }

  /** `int(x)` of a whole number of seconds over 60: truncation toward zero. */
  function TruncMinutes(seconds: int): (m: int)
    ensures seconds >= 0 ==> 0 <= 60 * m <= seconds < 60 * m + 60
    ensures seconds < 0 ==> 60 * m - 60 < seconds <= 60 * m <= 0
  {
    if seconds >= 0 then seconds / 60 else -((-seconds) / 60)
  }

  /** The clock-in time counted: a start after the standard hour counts from the standard hour. */
  function EffectiveStart(start: nat): (s: nat)
    ensures s <= start && s <= 3600 * STANDARD_START_HOUR
    ensures s == start || s == 3600 * STANDARD_START_HOUR
  {
    if start > 3600 * STANDARD_START_HOUR then 3600 * STANDARD_START_HOUR else start
  }

  /** The daily overtime in hours from the seconds since the effective start. */
  function OvertimeHoursOf(elapsed: int): (h: real)
    ensures 0.0 <= h <= MAX_OVERTIME_HOURS as real
  {
    var overtimeMinutes := elapsed as real / 60.0 - LUNCH_BREAK as real - WORK_HOURS as real - REST_TIME as real;
    var hours := Round2(overtimeMinutes / 60.0);
    if hours < 0.0 then 0.0
    else if hours > MAX_OVERTIME_HOURS as real then MAX_OVERTIME_HOURS as real
    else hours
  }

  /** Between the clamps the hours are the rounded overtime, within half a hundredth. */
  lemma OvertimeHoursRounded(elapsed: int)
    ensures var exact := (elapsed as real / 60.0 - 580.0) / 60.0;
            0.0 <= exact - 0.005 && exact + 0.005 <= MAX_OVERTIME_HOURS as real ==>
              exact - 0.005 < OvertimeHoursOf(elapsed) <= exact + 0.005
    ensures (elapsed as real / 60.0 - 580.0) / 60.0 <= -0.005 ==> OvertimeHoursOf(elapsed) == 0.0
    ensures (elapsed as real / 60.0 - 580.0) / 60.0 > MAX_OVERTIME_HOURS as real + 0.005 ==>
              OvertimeHoursOf(elapsed) == MAX_OVERTIME_HOURS as real
  {
  }

  // ---------------------------------------------------------------- one entry

  /** The record of one entry, or `None` when it is skipped. */
  function CalculateRecord(raw: RawRecord): (r: Option<AttendanceRecord>)
    ensures r.Some? ==> raw.date.Some? && raw.timeRange.Some? && r.value.date == raw.date.value
    ensures r.Some? ==> 0.0 <= r.value.overtimeHours <= MAX_OVERTIME_HOURS as real
    ensures r.Some? ==> |Split(raw.timeRange.value, '~')| == 2
    ensures r.Some? ==> ParseDate(r.value.date).Some?
    ensures r.Some? ==> ParseClock(r.value.startTime).Some? && ParseClock(r.value.endTime).Some?
  {
    if raw.date.None? || raw.timeRange.None? then None
    else
      var times := Split(raw.timeRange.value, '~');
      if |times| != 2 then None
      else
        var startText := Strip(times[0]);
        var endText := Strip(times[1]);
        var start := ParseClock(startText);
        var end := ParseClock(endText);
        if ParseDate(raw.date.value).None? || start.None? || end.None? then None
        else
          var elapsed := end.value - EffectiveStart(start.value);
          Some(AttendanceRecord(raw.date.value, startText, endText, OvertimeHoursOf(elapsed), TruncMinutes(elapsed)))
  }

  /** The split of a range with exactly one `~` and the parse of its two stripped sides. */
  lemma CalculateRecordParts(date: string, a: string, b: string, start: nat, end: nat)
    requires '~' !in a && '~' !in b
    requires ParseDate(date).Some? && ParseClock(Strip(a)) == Some(start) && ParseClock(Strip(b)) == Some(end)
    ensures CalculateRecord(RawRecord(Some(date), Some(a + "~" + b)))
              == Some(AttendanceRecord(date, Strip(a), Strip(b),
                                       OvertimeHoursOf(end - EffectiveStart(start)),
                                       TruncMinutes(end - EffectiveStart(start))))
  {
    RangeSplits(a, b);
  }

  lemma RangeSplits(a: string, b: string)
    requires '~' !in a && '~' !in b
    ensures Split(a + "~" + b, '~') == [a, b]
  {
    SplitConcat(a, '~', b);
    SplitNoSep(b, '~');
    assert a + "~" + b == a + ['~'] + b;
  }

  /** A range that does not split into exactly two parts is skipped. */
  lemma MalformedRangeSkipped(raw: RawRecord)
    requires raw.timeRange.Some? && |Split(raw.timeRange.value, '~')| != 2
    ensures CalculateRecord(raw) == None
  {
  }

  /** A range with no `~` at all, such as "invalid", is skipped. */
  lemma RangeWithoutTildeSkipped(date: string, range: string)
    requires '~' !in range
    ensures CalculateRecord(RawRecord(Some(date), Some(range))) == None
  {
    SplitNoSep(range, '~');
  }

  /** Missing keys and unparsable dates or times skip the entry. */
  lemma UnparsableSkipped(raw: RawRecord)
    requires raw.date.None? || raw.timeRange.None? || ParseDate(raw.date.value).None? ||
             (|Split(raw.timeRange.value, '~')| == 2 &&
              (ParseClock(Strip(Split(raw.timeRange.value, '~')[0])).None? ||
               ParseClock(Strip(Split(raw.timeRange.value, '~')[1])).None?))
    ensures CalculateRecord(raw) == None
  {
  }

  /** A late arrival is credited as if it were at the standard hour. */
  lemma LateStartCountsFromStandard(start: nat, end: nat)
    requires start >= 3600 * STANDARD_START_HOUR
    ensures OvertimeHoursOf(end - EffectiveStart(start)) == OvertimeHoursOf(end - 3600 * STANDARD_START_HOUR)
  {
  }

  /** 09:15 to 19:30: counted from 09:00, 50 minutes of overtime, 0.83 hours. */
  lemma LateStartExample()
    ensures OvertimeHoursOf(3600 * 19 + 60 * 30 - EffectiveStart(3600 * 9 + 60 * 15)) == 0.83
  {
    assert 3600 * 19 + 60 * 30 - EffectiveStart(3600 * 9 + 60 * 15) == 37800;
    assert (37800 as real / 60.0 - 580.0) / 60.0 * 100.0 + 0.5 == 250.0 / 3.0 + 0.5;
    FloorBetween(250.0 / 3.0 + 0.5, 83);
  }

  /** 08:00 to 22:00: 260 minutes of overtime, capped at 4 hours. */
  lemma CapExample()
    ensures OvertimeHoursOf(3600 * 22 - EffectiveStart(3600 * 8)) == 4.0
  {
    assert 3600 * 22 - EffectiveStart(3600 * 8) == 50400;
  }

  /** 08:30 to 18:00: 10 minutes short of overtime, so none. */
  lemma ShortDayExample()
    ensures OvertimeHoursOf(3600 * 18 - EffectiveStart(3600 * 8 + 60 * 30)) == 0.0
  {
    assert 3600 * 18 - EffectiveStart(3600 * 8 + 60 * 30) == 34200;
  }

  lemma ClockTextClean(h: nat, m: nat, s: nat)
    requires h < 24 && m < 60 && s < 60
    ensures '~' !in ClockText(h, m, s)
    ensures Strip(ClockText(h, m, s)) == ClockText(h, m, s)
  {
    var t := ClockText(h, m, s);
    assert forall k :: 0 <= k < |t| ==> t[k] == ':' || IsDigit(t[k]) by {
      assert t == TwoDigits(h) + ":" + TwoDigits(m) + ":" + TwoDigits(s);
    }
    assert '~' !in t by {
      forall k | 0 <= k < |t| ensures t[k] != '~' {
        assert t[k] == ':' || IsDigit(t[k]);
      }
    }
    StripUnchanged(t);
  }

  /**
   * A late-start entry of any day, such as "09:15:00~19:30:00": 0.83 hours
   * of overtime and 630 minutes counted from 09:00.
   */
  lemma LateStartRecord(date: string, a: string, b: string)
    requires ParseDate(date).Some? && '~' !in a && '~' !in b
    requires ParseClock(Strip(a)) == Some(3600 * 9 + 60 * 15) && ParseClock(Strip(b)) == Some(3600 * 19 + 60 * 30)
    ensures CalculateRecord(RawRecord(Some(date), Some(a + "~" + b)))
              == Some(AttendanceRecord(date, Strip(a), Strip(b), 0.83, 630))
  {
    var start := 3600 * 9 + 60 * 15;
    var end := 3600 * 19 + 60 * 30;
    assert OvertimeHoursOf(end - EffectiveStart(start)) == 0.83 by {
      LateStartExample();
    }
    assert TruncMinutes(end - EffectiveStart(start)) == 630 by {
      assert end - EffectiveStart(start) == 37800;
    }
    CalculateRecordParts(date, a, b, start, end);
  }

  lemma FloorBetween(x: real, n: int)
    requires n as real <= x < n as real + 1.0
    ensures x.Floor == n
  {
  }

  // ---------------------------------------------------------------- the batch

  /** The entry at position `idx` of the loop; the position is only used in log messages. */
  function CalculateAt(raw: RawRecord, idx: nat): Option<AttendanceRecord>
  {
    CalculateRecord(raw)
  }

  /** The records of the entries that parse, in input order. */
  function Calculated(raws: seq<RawRecord>): seq<AttendanceRecord>
  {
    FilterMapIndexed(raws, CalculateAt)
  }

  /** A record is in the batch exactly when some entry calculates to it; never more records than entries. */
  lemma CalculatedMembership(raws: seq<RawRecord>)
    ensures forall r :: r in Calculated(raws) <==> exists k :: 0 <= k < |raws| && CalculateRecord(raws[k]) == Some(r)
    ensures |Calculated(raws)| <= |raws|
  {
    FilterMapIndexedMembership(raws, CalculateAt);
    FilterMapIndexedLength(raws, CalculateAt);
  }

  /** `calculate_overtime` */
  method CalculateOvertime(raws: seq<RawRecord>, now: real) returns (report: OvertimeReport)
    ensures report.records == Sort(Calculated(raws), NewerOrSame)
    ensures report.generatedAt == now
  {
    var records := [];
    var idx := 0;
    while idx < |raws|
      invariant 0 <= idx <= |raws|
      invariant records == Calculated(raws[..idx])
    {
      FilterMapIndexedSnoc(raws, idx, CalculateAt);
      var r := CalculateRecord(raws[idx]);
      if r.Some? {
        records := records + [r.value];
      }
      idx := idx + 1;
    }
    assert raws[..|raws|] == raws;
    report := OvertimeReport(Sort(records, NewerOrSame), now);
  }

  /**
   * The report holds exactly the calculated records, newest date first,
   * each with overtime between 0 and the daily maximum.
   */
  lemma {:induction false} ReportIsSortedPermutation(raws: seq<RawRecord>)
    ensures multiset(Sort(Calculated(raws), NewerOrSame)) == multiset(Calculated(raws))
    ensures SortedBy(Sort(Calculated(raws), NewerOrSame), NewerOrSame)
    ensures forall k :: 0 <= k < |Sort(Calculated(raws), NewerOrSame)| ==>
              0.0 <= Sort(Calculated(raws), NewerOrSame)[k].overtimeHours <= MAX_OVERTIME_HOURS as real
  {
    var c := Calculated(raws);
    var s := Sort(c, NewerOrSame);
    SortPermutation(c, NewerOrSame);
    NewerOrSameIsPreorder();
    SortSorted(c, NewerOrSame);
    CalculatedMembership(raws);
    forall k | 0 <= k < |s| ensures 0.0 <= s[k].overtimeHours <= MAX_OVERTIME_HOURS as real {
      assert s[k] in multiset(s);
      assert s[k] in c;
    }
  }

  function SameDay(key: int): AttendanceRecord -> bool
  {
    (r: AttendanceRecord) => DateKey(r.date) == key
  }

  /**
   * The sort is stable: the records of one calendar day keep the order in
   * which the loop calculated them.
   */
  lemma ReportSameDayInOrder(raws: seq<RawRecord>, key: int)
    ensures Filter(Sort(Calculated(raws), NewerOrSame), SameDay(key)) == Filter(Calculated(raws), SameDay(key))
  {
    SortKeepsTies(Calculated(raws), NewerOrSame, SameDay(key));
  }
}
