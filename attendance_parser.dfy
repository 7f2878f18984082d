/**
 * Parsers for the four tables of the attendance pages: punch times, leave
 * totals, the remaining-quota detail view and attendance anomalies. Every
 * parser is fail-safe: a missing table yields an empty result.
 */
module AttendanceParser {
  import opened Wrappers
  import opened Text
  import opened Seqs
  import opened Markup
  import Punch
  import Leave
  import Quota

  const PUNCH_TABLE := "ContentPlaceHolder1_gvNotes005"
  const LEAVE_TABLE := "ContentPlaceHolder1_gvNotes011"
  const QUOTA_TABLE := "ContentPlaceHolder1_dvNotes019"
  const ANOMALY_TABLE := "ContentPlaceHolder1_gvWeb012"
  const PAGER_CLASS := "PagerStyle"

  const ANNUAL_PHRASE := "目前特休剩餘"
  const COMPENSATORY_PHRASE := "目前調休剩餘"
  const THRESHOLD_PHRASE := "未達加班換休最低申請時限"
  const THRESHOLD_SHORT_PHRASE := "最低申請時限"
  const HOUR_MARKER := "小時"
  const MINUTE_MARKER := "分鐘"

  // ---------------------------------------------------------------- helpers

  /** `_is_pager_row` */
  predicate IsPagerRow(row: Row)
  {
    PAGER_CLASS in row.classes
  }

  /** `_extract_number`: the value of the first run of digits, 0 when there is none. */
  function ExtractNumber(text: string): (n: nat)
    ensures (forall i :: 0 <= i < |text| ==> !IsDigit(text[i])) ==> n == 0
  {
    var run := FirstDigitRun(text);
    if run.Some? then DigitsValue(run.value) else 0
  }

  /**
   * The number is read at the first digit of the text, and the run read
   * there is maximal: it ends at the end of the text or before a non-digit.
   */
  lemma {:induction false} ExtractNumberAt(text: string, p: nat)
    requires p < |text| && IsDigit(text[p])
    requires forall i :: 0 <= i < p ==> !IsDigit(text[i])
    ensures ExtractNumber(text) == DigitsValue(DigitPrefix(text[p..]))
    ensures DigitPrefix(text[p..]) != []
  {
    if p == 0 {
      assert text[0..] == text;
    } else {
      assert text[1..][p - 1..] == text[p..];
      assert forall i :: 0 <= i < p - 1 ==> text[1..][i] == text[i + 1];
      ExtractNumberAt(text[1..], p - 1);
    }
  }

  /** `_extract_time_to_minutes`: hours before "小時" and minutes before "分鐘". */
  function ExtractTimeToMinutes(text: string): (m: nat)
    ensures NumberBefore(text, HOUR_MARKER).None? && NumberBefore(text, MINUTE_MARKER).None? ==> m == 0
  {
    var hours := NumberBefore(text, HOUR_MARKER).GetOr(0);
    var minutes := NumberBefore(text, MINUTE_MARKER).GetOr(0);
    hours * 60 + minutes
  }

  /** The text " X <hm> Y <mm>" for two markers that start differently and carry no digits. */
  function DurationText(h: string, hm: string, m: string, mm: string): string
  {
    " " + h + " " + hm + " " + m + " " + mm
  }

  lemma FirstNumberRead(h: string, hm: string, m: string, mm: string)
    requires h != [] && AllDigits(h) && IsMarker(hm)
    ensures NumberBefore(DurationText(h, hm, m, mm), hm) == Some(DigitsValue(h))
  {
    var post := " " + m + " " + mm;
    assert DurationText(h, hm, m, mm) == " " + (h + " " + hm + post);
    assert NoDigits(" ") && AllSpaces(" ");
    NumberBeforeSkipsText(" ", h + " " + hm + post, hm);
    NumberBeforeReads(h, " ", hm, post);
  }

  lemma FirstRunSkipped(h: string, hm: string, m: string, mm: string)
    requires h != [] && AllDigits(h) && IsMarker(hm) && IsMarker(mm) && hm[0] != mm[0]
    ensures NumberBefore(DurationText(h, hm, m, mm), mm) == NumberBefore(" " + hm + " " + m + " " + mm, mm)
  {
    var x := hm + " " + m + " " + mm;
    assert DurationText(h, hm, m, mm) == " " + (h + (" " + x));
    assert " " + hm + " " + m + " " + mm == " " + x;
    assert NoDigits(" ") && AllSpaces(" ");
    NumberBeforeSkipsText(" ", h + (" " + x), mm);
    assert x[0] == hm[0];
    NumberBeforeSkipsRunBefore(h, " ", x, mm);
  }

  lemma SecondNumberRead(hm: string, m: string, mm: string)
    requires m != [] && AllDigits(m) && IsMarker(mm) && NoDigits(hm)
    ensures NumberBefore(" " + hm + " " + m + " " + mm, mm) == Some(DigitsValue(m))
  {
    var pre := " " + hm + " ";
    assert NoDigits(pre);
    assert AllSpaces(" ");
    assert " " + hm + " " + m + " " + mm == pre + (m + " " + mm + "");
    NumberBeforeSkipsText(pre, m + " " + mm + "", mm);
    NumberBeforeReads(m, " ", mm, "");
  }

  /** The text " Y <mm>" read for the marker hm that it lacks. */
  lemma AbsentMarker(m: string, hm: string, mm: string)
    requires m != [] && AllDigits(m) && IsMarker(hm) && IsMarker(mm) && hm[0] != mm[0] && NoDigits(mm)
    ensures NumberBefore(" " + m + " " + mm, hm).None?
  {
    var rest := " " + mm;
    assert NoDigits(" ") && AllSpaces(" ") && NoDigits(rest);
    assert " " + m + " " + mm == " " + (m + rest);
    NumberBeforeSkipsText(" ", m + rest, hm);
    TrimStartOfGap(" ", mm);
    NumberBeforeSkipsRun(m, rest, hm);
    NumberBeforeNoDigits(rest, hm);
  }

  lemma OnlyNumberRead(m: string, mm: string)
    requires m != [] && AllDigits(m) && IsMarker(mm)
    ensures NumberBefore(" " + m + " " + mm, mm) == Some(DigitsValue(m))
  {
    assert NoDigits(" ") && AllSpaces(" ");
    assert " " + m + " " + mm == " " + (m + " " + mm + "");
    NumberBeforeSkipsText(" ", m + " " + mm + "", mm);
    NumberBeforeReads(m, " ", mm, "");
  }

  lemma MarkersWellFormed()
    ensures IsMarker(HOUR_MARKER) && IsMarker(MINUTE_MARKER) && HOUR_MARKER[0] != MINUTE_MARKER[0]
    ensures NoDigits(HOUR_MARKER) && NoDigits(MINUTE_MARKER)
  {
  }

  /** The portal's "X 小時 Y 分鐘" duration is read as 60·X + Y minutes. */
  lemma ReadsHoursAndMinutes(h: string, m: string)
    requires h != [] && AllDigits(h) && m != [] && AllDigits(m)
    ensures ExtractTimeToMinutes(DurationText(h, HOUR_MARKER, m, MINUTE_MARKER)) == 60 * DigitsValue(h) + DigitsValue(m)
  {
    MarkersWellFormed();
    FirstNumberRead(h, HOUR_MARKER, m, MINUTE_MARKER);
    FirstRunSkipped(h, HOUR_MARKER, m, MINUTE_MARKER);
    SecondNumberRead(HOUR_MARKER, m, MINUTE_MARKER);
  }

  /** A duration given in minutes only ("Y 分鐘") is read as Y. */
  lemma ReadsMinutesOnly(m: string)
    requires m != [] && AllDigits(m)
    ensures ExtractTimeToMinutes(" " + m + " " + MINUTE_MARKER) == DigitsValue(m)
  {
    MarkersWellFormed();
    AbsentMarker(m, HOUR_MARKER, MINUTE_MARKER);
    OnlyNumberRead(m, MINUTE_MARKER);
  }

  /** "1 小時 33 分鐘" is 93 minutes. */
  lemma HoursAndMinutesExample(t: string)
    requires t == DurationText("1", HOUR_MARKER, "33", MINUTE_MARKER)
    ensures ExtractTimeToMinutes(t) == 93
  {
    ReadsHoursAndMinutes("1", "33");
    assert DigitsValue("33") == 33;
  }

  /** "45 分鐘" is 45 minutes. */
  lemma MinutesOnlyExample(t: string)
    requires t == " 45 " + MINUTE_MARKER
    ensures ExtractTimeToMinutes(t) == 45
  {
    ReadsMinutesOnly("45");
    assert " " + "45" + " " == " 45 ";
    assert DigitsValue("45") == 45;
  }

  // ---------------------------------------------------------------- punch records

  datatype PunchEntry = PunchEntry(date: string, time: string)

  /** The (date, time) a punch-table row contributes, if it is an accepted data row. */
  function PunchEntryOf(row: Row): (e: Option<PunchEntry>)
    ensures e.Some? ==> !row.hasHeaderCell && !IsPagerRow(row) && |row.cells| >= 2 &&
                        e.value.date == row.cells[0].text && e.value.time == row.cells[1].text &&
                        e.value.date != "" && e.value.time != ""
    ensures e.None? ==> row.hasHeaderCell || IsPagerRow(row) || |row.cells| < 2 ||
                        row.cells[0].text == "" || row.cells[1].text == ""
  {
    if row.hasHeaderCell || IsPagerRow(row) then None
    else if |row.cells| < 2 then None
    else
      var date := row.cells[0].text;
      var time := row.cells[1].text;
      if date != "" && time != "" then Some(PunchEntry(date, time)) else None
  }

  /** The accepted entries of the rows, in row order. */
  function PunchEntries(rows: seq<Row>): seq<PunchEntry>
  {
    if rows == [] then []
    else
      var e := PunchEntryOf(rows[|rows| - 1]);
      PunchEntries(rows[..|rows| - 1]) + (if e.Some? then [e.value] else [])
  }

  /** The dates of the entries, each once, in order of first appearance (the dict's key order). */
  function DistinctDates(es: seq<PunchEntry>): seq<string>
  {
    if es == [] then []
    else
      var ds := DistinctDates(es[..|es| - 1]);
      var d := es[|es| - 1].date;
      if d in ds then ds else ds + [d]
  }

  /** The times recorded for `date`, in entry order (the dict's list for that key). */
  function TimesOn(es: seq<PunchEntry>, date: string): seq<string>
  {
    if es == [] then []
    else
      var e := es[|es| - 1];
      TimesOn(es[..|es| - 1], date) + (if e.date == date then [e.time] else [])
  }

  /** One record per distinct date with its times sorted ascending. */
  function GroupPunches(es: seq<PunchEntry>): (rs: seq<Punch.PunchRecord>)
    ensures |rs| == |DistinctDates(es)|
  {
    var ds := DistinctDates(es);
    seq(|ds|, j requires 0 <= j < |ds| => Punch.PunchRecord(ds[j], Sort(TimesOn(es, ds[j]), LexLe)))
  }

  function PunchRecordsOf(doc: Document): seq<Punch.PunchRecord>
  {
    var table := FindTable(doc, PUNCH_TABLE);
    if table.None? then [] else GroupPunches(PunchEntries(table.value))
  }

  lemma PunchEntriesSnoc(rows: seq<Row>, i: nat)
    requires i < |rows|
    ensures PunchEntries(rows[..i + 1]) ==
              PunchEntries(rows[..i]) + (if PunchEntryOf(rows[i]).Some? then [PunchEntryOf(rows[i]).value] else [])
  {
    var p := rows[..i + 1];
    assert p[..|p| - 1] == rows[..i];
    assert p[|p| - 1] == rows[i];
  }

  /** Appending an entry adds its date if new and its time to that date only. */
  lemma GroupSnoc(es: seq<PunchEntry>, e: PunchEntry)
    ensures DistinctDates(es + [e]) ==
              if e.date in DistinctDates(es) then DistinctDates(es) else DistinctDates(es) + [e.date]
    ensures forall d :: TimesOn(es + [e], d) == TimesOn(es, d) + (if e.date == d then [e.time] else [])
  {
    var p := es + [e];
    assert p[..|p| - 1] == es;
    assert p[|p| - 1] == e;
  }

  /** The loop state of the punch parser: first-seen dates and each date's times so far. */
  ghost predicate Grouped(dates: seq<string>, data: map<string, seq<string>>, es: seq<PunchEntry>)
  {
    && dates == DistinctDates(es)
    && (forall d :: d in data <==> d in dates)
    && (forall d :: d in data ==> data[d] == TimesOn(es, d))
  }

  lemma GroupedStep(dates: seq<string>, data: map<string, seq<string>>, es: seq<PunchEntry>, e: PunchEntry)
    requires Grouped(dates, data, es)
    ensures Grouped(if e.date in data then dates else dates + [e.date],
                    data[e.date := (if e.date in data then data[e.date] else []) + [e.time]],
                    es + [e])
  {
    GroupSnoc(es, e);
    if e.date !in data {
      TimesOnEmptyForNewDate(es, e.date, dates);
    }
  }

  lemma TimesOnEmptyForNewDate(es: seq<PunchEntry>, date: string, dates: seq<string>)
    requires dates == DistinctDates(es) && date !in dates
    ensures TimesOn(es, date) == []
  {
    DistinctDatesSpec(es);
    TimesOnEmpty(es, date);
  }

  lemma GroupedRecords(dates: seq<string>, data: map<string, seq<string>>, es: seq<PunchEntry>)
    requires Grouped(dates, data, es)
    ensures seq(|dates|, j requires 0 <= j < |dates| && dates[j] in data => Punch.PunchRecord(dates[j], Sort(data[dates[j]], LexLe)))
            == GroupPunches(es)
  {
  }

  /** `parse_punch_records` */
  method ParsePunchRecords(doc: Document) returns (records: seq<Punch.PunchRecord>)
    ensures records == PunchRecordsOf(doc)
  {
    var table := FindTable(doc, PUNCH_TABLE);
    if table.None? {
      return [];
    }
    var rows := table.value;
    var dates: seq<string> := [];
    var punchData: map<string, seq<string>> := map[];
    var i := 0;
    while i < |rows|
      invariant 0 <= i <= |rows|
      invariant Grouped(dates, punchData, PunchEntries(rows[..i]))
    {
      PunchEntriesSnoc(rows, i);
      var entry := PunchEntryOf(rows[i]);
      if entry.Some? {
        var date := entry.value.date;
        GroupedStep(dates, punchData, PunchEntries(rows[..i]), entry.value);
        var times := if date in punchData then punchData[date] else [];
        dates := if date in punchData then dates else dates + [date];
        punchData := punchData[date := times + [entry.value.time]];
      } else {
        assert PunchEntries(rows[..i]) + [] == PunchEntries(rows[..i]);
      }
      i := i + 1;
    }
    assert rows[..|rows|] == rows;
    GroupedRecords(dates, punchData, PunchEntries(rows));
    records := seq(|dates|, j requires 0 <= j < |dates| && dates[j] in punchData =>
                 Punch.PunchRecord(dates[j], Sort(punchData[dates[j]], LexLe)));
  }

  /** `LexLe` is a total order, so sorting by it is well defined. */
  lemma LexLeTotalPreorder()
    ensures TotalPreorder(LexLe)
  {
    forall a, b ensures LexLe(a, b) || LexLe(b, a) {
      LexLeTotal(a, b);
    }
    forall a, b, c | LexLe(a, b) && LexLe(b, c) ensures LexLe(a, c) {
      LexLeTransitive(a, b, c);
    }
  }

  /** The grouped dates are distinct and are exactly the dates of the accepted entries. */
  lemma {:induction false} DistinctDatesSpec(es: seq<PunchEntry>)
    ensures forall i, j :: 0 <= i < j < |DistinctDates(es)| ==> DistinctDates(es)[i] != DistinctDates(es)[j]
    ensures forall d :: d in DistinctDates(es) <==> exists k :: 0 <= k < |es| && es[k].date == d
  {
    if es != [] {
      var init := es[..|es| - 1];
      DistinctDatesSpec(init);
      forall d ensures d in DistinctDates(es) <==> exists k :: 0 <= k < |es| && es[k].date == d {
        if exists k :: 0 <= k < |init| && init[k].date == d {
          var k :| 0 <= k < |init| && init[k].date == d;
          assert es[k].date == d;
        }
        if exists k :: 0 <= k < |es| && es[k].date == d {
          var k :| 0 <= k < |es| && es[k].date == d;
          if k < |init| {
            assert init[k].date == d;
          }
        }
      }
    }
  }

  /** A date without entries has no times; times exist exactly for the dates that occur. */
  lemma {:induction false} TimesOnEmpty(es: seq<PunchEntry>, date: string)
    requires forall k :: 0 <= k < |es| ==> es[k].date != date
    ensures TimesOn(es, date) == []
  {
    if es != [] {
      TimesOnEmpty(es[..|es| - 1], date);
    }
  }

  /** `sum(len(times))` over the distinct dates `ds`. */
  function CountTimes(es: seq<PunchEntry>, ds: seq<string>): nat
  {
    if ds == [] then 0 else CountTimes(es, ds[..|ds| - 1]) + |TimesOn(es, ds[|ds| - 1])|
  }

  lemma {:induction false} CountTimesStep(es: seq<PunchEntry>, e: PunchEntry, ds: seq<string>)
    requires forall i, j :: 0 <= i < j < |ds| ==> ds[i] != ds[j]
    ensures CountTimes(es + [e], ds) == CountTimes(es, ds) + (if e.date in ds then 1 else 0)
  {
    var es' := es + [e];
    assert es'[..|es'| - 1] == es;
    if ds != [] {
      var init := ds[..|ds| - 1];
      CountTimesStep(es, e, init);
      var last := ds[|ds| - 1];
      assert forall i :: 0 <= i < |init| ==> init[i] != last by {
        forall i | 0 <= i < |init| ensures init[i] != last {
          assert init[i] == ds[i];
        }
      }
      assert e.date in ds <==> e.date in init || e.date == last;
    }
  }

  /** Grouping keeps every punch: the grouped time lists hold as many times as there were accepted entries. */
  lemma {:induction false} GroupingKeepsEveryPunch(es: seq<PunchEntry>)
    ensures CountTimes(es, DistinctDates(es)) == |es|
  {
    if es != [] {
      var init := es[..|es| - 1];
      var e := es[|es| - 1];
      assert es == init + [e];
      GroupingKeepsEveryPunch(init);
      DistinctDatesSpec(init);
      var ds := DistinctDates(init);
      CountTimesStep(init, e, ds);
      if e.date !in ds {
        var ds' := ds + [e.date];
        assert ds'[..|ds'| - 1] == ds;
        TimesOnEmpty(init, e.date);
        assert TimesOn(es, e.date) == [e.time];
      }
    }
  }

  /** The position of the first entry on `date` (|es| when there is none). */
  function FirstPosition(es: seq<PunchEntry>, date: string): (p: nat)
    ensures p <= |es|
    ensures p < |es| ==> es[p].date == date
    ensures forall k :: 0 <= k < p ==> es[k].date != date
  {
    if es == [] then 0
    else if es[0].date == date then 0
    else 1 + FirstPosition(es[1..], date)
  }

  lemma FirstPositionUnique(es: seq<PunchEntry>, date: string, p: nat)
    requires p < |es| && es[p].date == date
    requires forall k :: 0 <= k < p ==> es[k].date != date
    ensures FirstPosition(es, date) == p
  {
  }

  /** The grouped dates come in order of their first accepted entry. */
  lemma {:induction false} DatesInFirstAppearanceOrder(es: seq<PunchEntry>)
    ensures forall i, j :: 0 <= i < j < |DistinctDates(es)| ==>
              FirstPosition(es, DistinctDates(es)[i]) < FirstPosition(es, DistinctDates(es)[j])
  {
    if es != [] {
      var init := es[..|es| - 1];
      var e := es[|es| - 1];
      DatesInFirstAppearanceOrder(init);
      DistinctDatesSpec(init);
      var ds := DistinctDates(init);
      forall d | d in ds ensures FirstPosition(es, d) == FirstPosition(init, d) {
        var k :| 0 <= k < |init| && init[k].date == d;
        var p := FirstPosition(init, d);
        assert p <= k;
        FirstPositionUnique(es, d, p);
      }
      if e.date !in ds {
        assert forall k :: 0 <= k < |init| ==> es[k].date == init[k].date;
        FirstPositionUnique(es, e.date, |init|);
        forall d | d in ds ensures FirstPosition(init, d) < |init| {
          var k :| 0 <= k < |init| && init[k].date == d;
        }
      }
    }
  }

  /** Every punch record lists exactly its date's times (as a multiset), sorted ascending. */
  lemma PunchRecordTimes(es: seq<PunchEntry>, j: nat)
    requires j < |GroupPunches(es)|
    ensures multiset(GroupPunches(es)[j].punchTimes) == multiset(TimesOn(es, DistinctDates(es)[j]))
    ensures SortedBy(GroupPunches(es)[j].punchTimes, LexLe)
  {
    var times := TimesOn(es, DistinctDates(es)[j]);
    SortPermutation(times, LexLe);
    LexLeTotalPreorder();
    SortSorted(times, LexLe);
  }

  // ---------------------------------------------------------------- leave records

  /** The record a leave-table row yields, if any. */
  function LeaveOf(row: Row): (r: Option<Leave.LeaveRecord>)
    ensures r.Some? ==> r.value.leaveType != "" && (r.value.days > 0 || r.value.hours > 0)
  {
    if row.hasHeaderCell || |row.cells| < 2 then None
    else
      var leaveType := row.cells[0].text;
      var daySpan := FindSpanContaining(row.cells[1].spans, "lblAbsenceDay");
      var hourSpan := FindSpanContaining(row.cells[1].spans, "lblAbsenceHour");
      var days := ExtractNumber(if daySpan.Some? then daySpan.value.text else "0 天");
      var hours := ExtractNumber(if hourSpan.Some? then hourSpan.value.text else "0 小時");
      if leaveType != "" && (days > 0 || hours > 0) then Some(Leave.LeaveRecord(leaveType, days, hours))
      else None
  }

  /** A missing day or hour span counts as zero. */
  lemma MissingSpanIsZero()
    ensures ExtractNumber("0 天") == 0 && ExtractNumber("0 小時") == 0
  {
  }

  function LeavesOf(rows: seq<Row>): seq<Leave.LeaveRecord>
  {
    if rows == [] then []
    else
      var r := LeaveOf(rows[|rows| - 1]);
      LeavesOf(rows[..|rows| - 1]) + (if r.Some? then [r.value] else [])
  }

  function LeaveRecordsOf(doc: Document): seq<Leave.LeaveRecord>
  {
    var table := FindTable(doc, LEAVE_TABLE);
    if table.None? then [] else LeavesOf(table.value)
  }

  /** `parse_leave_records` */
  method ParseLeaveRecords(doc: Document) returns (records: seq<Leave.LeaveRecord>)
    ensures records == LeaveRecordsOf(doc)
    ensures forall k :: 0 <= k < |records| ==>
              records[k].leaveType != "" && (records[k].days > 0 || records[k].hours > 0)
  {
    var table := FindTable(doc, LEAVE_TABLE);
    if table.None? {
      return [];
    }
    var rows := table.value;
    records := [];
    var i := 0;
    while i < |rows|
      invariant 0 <= i <= |rows|
      invariant records == LeavesOf(rows[..i])
      invariant forall k :: 0 <= k < |records| ==>
                  records[k].leaveType != "" && (records[k].days > 0 || records[k].hours > 0)
    {
      assert rows[..i + 1][..i] == rows[..i];
      var r := LeaveOf(rows[i]);
      if r.Some? {
        records := records + [r.value];
      }
      i := i + 1;
    }
    assert rows[..|rows|] == rows;
  }

  // ---------------------------------------------------------------- quota

  datatype QuotaField = Annual | Compensatory | Threshold

  /** Which counter a quota row sets, tested in the source's order. */
  function QuotaRowKind(row: Row): Option<QuotaField>
  {
    if row.hasHeaderCell || row.cells == [] then None
    else
      var text := row.cells[0].text;
      if Contains(text, ANNUAL_PHRASE) then Some(Annual)
      else if Contains(text, COMPENSATORY_PHRASE) then Some(Compensatory)
      else if Contains(text, THRESHOLD_PHRASE) || Contains(text, THRESHOLD_SHORT_PHRASE) then Some(Threshold)
      else None
  }

  /** The value a row carries for a counter: a day count, or a duration in minutes for the threshold. */
  function QuotaRowValue(row: Row, f: QuotaField): int
    requires row.cells != []
  {
    if f == Threshold then ExtractTimeToMinutes(row.cells[0].text) else ExtractNumber(row.cells[0].text)
  }

  function Field(q: Quota.AttendanceQuota, f: QuotaField): int
  {
    match f
    case Annual => q.annualLeave
    case Compensatory => q.compensatoryLeave
    case Threshold => q.overtimeThresholdMinutes
  }

  function ApplyQuotaRow(q: Quota.AttendanceQuota, row: Row): Quota.AttendanceQuota
  {
    match QuotaRowKind(row)
    case None => q
    case Some(Annual) => q.(annualLeave := QuotaRowValue(row, Annual))
    case Some(Compensatory) => q.(compensatoryLeave := QuotaRowValue(row, Compensatory))
    case Some(Threshold) => q.(overtimeThresholdMinutes := QuotaRowValue(row, Threshold))
  }

  function QuotaOfRows(rows: seq<Row>): Quota.AttendanceQuota
  {
    if rows == [] then Quota.DefaultQuota()
    else ApplyQuotaRow(QuotaOfRows(rows[..|rows| - 1]), rows[|rows| - 1])
  }

  function QuotaOf(doc: Document): Option<Quota.AttendanceQuota>
  {
    var table := FindTable(doc, QUOTA_TABLE);
    if table.None? then None else Some(QuotaOfRows(table.value))
  }

  /** `parse_quota` */
  method ParseQuota(doc: Document) returns (quota: Option<Quota.AttendanceQuota>)
    ensures quota == QuotaOf(doc)
  {
    var table := FindTable(doc, QUOTA_TABLE);
    if table.None? {
      return None;
    }
    var rows := table.value;
    var annualLeave := 0;
    var compensatoryLeave := 0;
    var overtimeThresholdMinutes := 0;
    var i := 0;
    while i < |rows|
      invariant 0 <= i <= |rows|
      invariant Quota.AttendanceQuota(annualLeave, compensatoryLeave, overtimeThresholdMinutes) == QuotaOfRows(rows[..i])
    {
      assert rows[..i + 1][..i] == rows[..i];
      var row := rows[i];
      if !row.hasHeaderCell && row.cells != [] {
        var text := row.cells[0].text;
        if Contains(text, ANNUAL_PHRASE) {
          annualLeave := ExtractNumber(text);
        } else if Contains(text, COMPENSATORY_PHRASE) {
          compensatoryLeave := ExtractNumber(text);
        } else if Contains(text, THRESHOLD_PHRASE) || Contains(text, THRESHOLD_SHORT_PHRASE) {
          overtimeThresholdMinutes := ExtractTimeToMinutes(text);
        }
      }
      i := i + 1;
    }
    assert rows[..|rows|] == rows;
    quota := Some(Quota.AttendanceQuota(annualLeave, compensatoryLeave, overtimeThresholdMinutes));
  }

  /** A counter no row sets keeps its default of 0. */
  lemma {:induction false} QuotaDefaultsToZero(rows: seq<Row>, f: QuotaField)
    requires forall k :: 0 <= k < |rows| ==> QuotaRowKind(rows[k]) != Some(f)
    ensures Field(QuotaOfRows(rows), f) == 0
  {
    if rows != [] {
      QuotaDefaultsToZero(rows[..|rows| - 1], f);
    }
  }

  /** The last row that sets a counter decides its value. */
  lemma {:induction false} QuotaLastRowWins(rows: seq<Row>, k: nat, f: QuotaField)
    requires k < |rows| && QuotaRowKind(rows[k]) == Some(f)
    requires forall j :: k < j < |rows| ==> QuotaRowKind(rows[j]) != Some(f)
    ensures rows[k].cells != [] && Field(QuotaOfRows(rows), f) == QuotaRowValue(rows[k], f)
  {
    if k < |rows| - 1 {
      var init := rows[..|rows| - 1];
      assert init[k] == rows[k];
      QuotaLastRowWins(init, k, f);
    }
  }

  // ---------------------------------------------------------------- anomalies

  /**
   * An anomaly entry. The parser never sets `overtimeHours`; it exists
   * because the merge step reads it with a default.
   */
  datatype AnomalyRecord = AnomalyRecord(date: string, punchRange: string, description: string, overtimeHours: Option<real>)

  function SpanTextOr(span: Option<Span>, default: string): string
  {
    if span.Some? then SpanText(span.value) else default
  }

  function AnomalyOf(row: Row): (r: Option<AnomalyRecord>)
    ensures r.Some? ==> r.value.date != "" && r.value.description != "" && r.value.overtimeHours.None?
  {
    if row.hasHeaderCell || IsPagerRow(row) || |row.cells| < 3 then None
    else
      var date := SpanTextOr(FindSpanContaining(row.cells[0].spans, "lblWork_Date"), "");
      var punchRange := SpanTextOr(FindSpanContaining(row.cells[0].spans, "lblCard_Time"), "");
      var description := row.cells[2].text;
      if date != "" && description != "" then Some(AnomalyRecord(date, punchRange, description, None))
      else None
  }

  function AnomaliesOf(rows: seq<Row>): seq<AnomalyRecord>
  {
    if rows == [] then []
    else
      var r := AnomalyOf(rows[|rows| - 1]);
      AnomaliesOf(rows[..|rows| - 1]) + (if r.Some? then [r.value] else [])
  }

  function AnomalyRecordsOf(doc: Document): seq<AnomalyRecord>
  {
    var table := FindTable(doc, ANOMALY_TABLE);
    if table.None? then [] else AnomaliesOf(table.value)
  }

  lemma AnomaliesSnoc(rows: seq<Row>, i: nat)
    requires i < |rows|
    ensures AnomaliesOf(rows[..i + 1]) ==
              AnomaliesOf(rows[..i]) + (if AnomalyOf(rows[i]).Some? then [AnomalyOf(rows[i]).value] else [])
  {
    var p := rows[..i + 1];
    assert p[..|p| - 1] == rows[..i];
    assert p[|p| - 1] == rows[i];
  }

  /** Every anomaly kept has a date and a description and no hours. */
  lemma {:induction false} AnomaliesWellFormed(rows: seq<Row>)
    ensures forall k :: 0 <= k < |AnomaliesOf(rows)| ==>
              AnomaliesOf(rows)[k].date != "" && AnomaliesOf(rows)[k].description != "" &&
              AnomaliesOf(rows)[k].overtimeHours.None?
  {
    if rows != [] {
      var init := rows[..|rows| - 1];
      AnomaliesWellFormed(init);
      var prev := AnomaliesOf(init);
      var r := AnomalyOf(rows[|rows| - 1]);
      var all := AnomaliesOf(rows);
      assert all == prev + (if r.Some? then [r.value] else []);
      forall k | 0 <= k < |all|
        ensures all[k].date != "" && all[k].description != "" && all[k].overtimeHours.None?
      {
        if k < |prev| {
          assert all[k] == prev[k];
        } else {
          assert all[k] == r.value;
        }
      }
    }
  }

  /** `parse_anomaly_records` */
  method ParseAnomalyRecords(doc: Document) returns (records: seq<AnomalyRecord>)
    ensures records == AnomalyRecordsOf(doc)
    ensures forall k :: 0 <= k < |records| ==>
              records[k].date != "" && records[k].description != "" && records[k].overtimeHours.None?
  {
    var table := FindTable(doc, ANOMALY_TABLE);
    if table.None? {
      return [];
    }
    var rows := table.value;
    records := [];
    var i := 0;
    while i < |rows|
      invariant 0 <= i <= |rows|
      invariant records == AnomaliesOf(rows[..i])
    {
      AnomaliesSnoc(rows, i);
      var r := AnomalyOf(rows[i]);
      if r.Some? {
        records := records + [r.value];
      }
      i := i + 1;
    }
    assert rows[..|rows|] == rows;
    AnomaliesWellFormed(rows);
  }

  /** Each anomaly row is skipped exactly when it is a header or pager row, too short, or lacks a date or description. */
  lemma AnomalyRowFilter(row: Row)
    ensures AnomalyOf(row).Some? <==>
              !row.hasHeaderCell && !IsPagerRow(row) && |row.cells| >= 3 &&
              SpanTextOr(FindSpanContaining(row.cells[0].spans, "lblWork_Date"), "") != "" &&
              row.cells[2].text != ""
  {
  }

  /** Without their tables the parsers return nothing. */
  lemma MissingTablesGiveNothing(doc: Document)
    ensures FindTable(doc, PUNCH_TABLE).None? ==> PunchRecordsOf(doc) == []
    ensures FindTable(doc, LEAVE_TABLE).None? ==> LeaveRecordsOf(doc) == []
    ensures FindTable(doc, QUOTA_TABLE).None? ==> QuotaOf(doc).None?
    ensures FindTable(doc, ANOMALY_TABLE).None? ==> AnomalyRecordsOf(doc) == []
  {
  }
}
