/**
 * The older personal-record reader: the same `gvFlow211` table read with
 * fixed report types, and the summary computed over its records.
 */
module PersonalRecordService {
  import opened Wrappers
  import opened Seqs
  import opened Markup
  import opened PersonalRecords
  import opened PersonalRecordParser

  /** The report type and hours without the status-text fallback. */
  function LegacyDecision(overtimeHours: real, changeHours: real): (d: Decision)
    ensures d.hours >= 0.0
    ensures d.hours > 0.0 <==> overtimeHours > 0.0 || changeHours > 0.0
    ensures d.reportType == "" <==> d.hours == 0.0
  {
    if overtimeHours > 0.0 then Decision(OVERTIME_TYPE, overtimeHours)
    else if changeHours > 0.0 then Decision(CHANGE_TYPE, changeHours)
    else Decision("", 0.0)
  }

  /** Without status texts the parser's decision is the legacy one. */
  lemma DecisionsAgreeWithoutStatus(overtimeHours: real, changeHours: real)
    ensures ReportDecision(overtimeHours, "", changeHours, "") == LegacyDecision(overtimeHours, changeHours)
  {
  }

  /** The legacy record of the data row at position `index`. */
  function LegacyRecordOf(row: Row, index: nat): (r: Option<PersonalRecord>)
    ensures r.None? <==> FieldSpan(row, "lblOT_Date", index).None?
  {
    var dateSpan := FieldSpan(row, "lblOT_Date", index);
    if dateSpan.None? then None
    else
      var overtimeHours := ParseHours(FieldText(row, "lblOT_Minute", index, "0"));
      var changeHours := ParseHours(FieldText(row, "lblChange_Minute", index, "0"));
      var decision := LegacyDecision(overtimeHours, changeHours);
      Some(PersonalRecord(
        SpanText(dateSpan.value),
        ContentOf(FieldSpan(row, "lblOT_Describe", index)),
        StatusOf(row, index),
        decision.reportType,
        decision.hours,
        ParseHours(FieldText(row, "lblOT_Manhour", index, "0")),
        ParseHours(FieldText(row, "lblOT_Monhour", index, "0"))))
  }

  /** A missing minutes span reads "0" here and "" in the parser: both are no hours. */
  lemma MissingMinutesAgree(row: Row, field: string, index: nat)
    ensures ParseHours(FieldText(row, field, index, "0")) == ParseHours(FieldText(row, field, index, ""))
  {
    ZeroIsNoHours();
    ParseHoursBlank("");
  }

  /**
   * The legacy reader and the parser keep the same rows and agree on every
   * field but the report type; without status texts they agree on that too.
   */
  lemma LegacyAgreesWithParser(row: Row, index: nat)
    ensures LegacyRecordOf(row, index).Some? <==> RecordOf(row, index).Some?
    ensures LegacyRecordOf(row, index).Some? ==>
              var l := LegacyRecordOf(row, index).value;
              var p := RecordOf(row, index).value;
              l.date == p.date && l.content == p.content && l.status == p.status &&
              l.overtimeHours == p.overtimeHours &&
              l.monthlyTotal == p.monthlyTotal && l.quarterlyTotal == p.quarterlyTotal
    ensures FieldSpan(row, "Label9", index).None? && FieldSpan(row, "lblT_Change", index).None? ==>
              LegacyRecordOf(row, index) == RecordOf(row, index)
  {
    MissingMinutesAgree(row, "lblOT_Minute", index);
    MissingMinutesAgree(row, "lblChange_Minute", index);
  }

  function LegacyRecordsOf(rows: seq<Row>): seq<PersonalRecord>
  {
    FilterMapIndexed(rows, LegacyRecordOf)
  }

  function LegacyPersonalRecordsOf(doc: Document): seq<PersonalRecord>
  {
    var table := FindTable(doc, RECORD_TABLE);
    if table.None? then [] else LegacyRecordsOf(Filter(table.value, IsDataRow))
  }

  /** `_parse_personal_records_table` */
  method ParsePersonalRecordsTable(doc: Document) returns (records: seq<PersonalRecord>)
    ensures records == LegacyPersonalRecordsOf(doc)
  {
    var table := FindTable(doc, RECORD_TABLE);
    if table.None? {
      return [];
    }
    var rows := Filter(table.value, IsDataRow);
    records := [];
    var index := 0;
    while index < |rows|
      invariant 0 <= index <= |rows|
      invariant records == LegacyRecordsOf(rows[..index])
    {
      FilterMapIndexedSnoc(rows, index, LegacyRecordOf);
      var record := LegacyRecordOf(rows[index], index);
      if record.Some? {
        records := records + [record.value];
      }
      index := index + 1;
    }
    assert rows[..|rows|] == rows;
  }

  /** A record is kept exactly for the data rows with their date span. */
  lemma LegacyMembership(rows: seq<Row>)
    ensures forall r :: r in LegacyRecordsOf(rows) <==> exists k :: 0 <= k < |rows| && LegacyRecordOf(rows[k], k) == Some(r)
  {
    FilterMapIndexedMembership(rows, LegacyRecordOf);
  }

  // ---------------------------------------------------------------- summary

  /** `max(r.overtime_hours for r in records)` */
  function MaxHours(rs: seq<PersonalRecord>): (m: real)
    requires rs != []
    ensures forall k :: 0 <= k < |rs| ==> rs[k].overtimeHours <= m
    ensures exists k :: 0 <= k < |rs| && rs[k].overtimeHours == m
  {
    if |rs| == 1 then rs[0].overtimeHours
    else
      var m := MaxHours(rs[..|rs| - 1]);
      assert forall k :: 0 <= k < |rs| - 1 ==> rs[..|rs| - 1][k] == rs[k];
      if rs[|rs| - 1].overtimeHours > m then rs[|rs| - 1].overtimeHours else m
  }

  /** `_calculate_summary` */
  function CalculateSummary(records: seq<PersonalRecord>): (s: PersonalRecordSummary)
    ensures records == [] ==> s == EMPTY_SUMMARY
    ensures records != [] ==>
              s.totalRecords == |records| &&
              s.totalOvertimeHours == Sum(records, Hours) &&
              s.averageOvertimeHours * |records| as real == s.totalOvertimeHours &&
              (forall k :: 0 <= k < |records| ==> records[k].overtimeHours <= s.maxOvertimeHours) &&
              (exists k :: 0 <= k < |records| && records[k].overtimeHours == s.maxOvertimeHours) &&
              s.currentMonthTotal == records[|records| - 1].monthlyTotal &&
              s.currentQuarterTotal == records[|records| - 1].quarterlyTotal
  {
    if records == [] then EMPTY_SUMMARY
    else
      var total := Sum(records, Hours);
      var last := records[|records| - 1];
      PersonalRecordSummary(
        |records|, total, total / |records| as real, MaxHours(records),
        last.monthlyTotal, last.quarterlyTotal)
  }

  /** The total never exceeds the count times the largest hours. */
  lemma {:induction false} SumAtMostCountTimesMax(rs: seq<PersonalRecord>, m: real)
    requires forall k :: 0 <= k < |rs| ==> rs[k].overtimeHours <= m
    ensures Sum(rs, Hours) <= |rs| as real * m
  {
    if rs != [] {
      SumAtMostCountTimesMax(rs[1..], m);
      assert rs[0].overtimeHours <= m;
    }
  }

  /** The average lies under the maximum. */
  lemma AverageAtMostMax(records: seq<PersonalRecord>)
    requires records != []
    ensures CalculateSummary(records).averageOvertimeHours <= CalculateSummary(records).maxOvertimeHours
  {
    var s := CalculateSummary(records);
    TotalAtMostCountTimesMax(records);
    AverageBelow(s.averageOvertimeHours, s.maxOvertimeHours, |records| as real, s.totalOvertimeHours);
  }

  lemma TotalAtMostCountTimesMax(records: seq<PersonalRecord>)
    requires records != []
    ensures var s := CalculateSummary(records);
            s.totalOvertimeHours <= |records| as real * s.maxOvertimeHours
  {
    SumAtMostCountTimesMax(records, MaxHours(records));
  }

  lemma AverageBelow(a: real, m: real, n: real, t: real)
    requires n > 0.0 && a * n == t && t <= n * m
    ensures a <= m
  {
    assert (a - m) * n <= 0.0;
  }

  /** Records from the reader have no negative hours, so neither has the summary. */
  lemma {:induction false} SummaryOfReadRecords(rows: seq<Row>)
    ensures forall k :: 0 <= k < |LegacyRecordsOf(rows)| ==> LegacyRecordsOf(rows)[k].overtimeHours >= 0.0
    ensures CalculateSummary(LegacyRecordsOf(rows)).totalOvertimeHours >= 0.0
  {
    var rs := LegacyRecordsOf(rows);
    LegacyMembership(rows);
    forall k | 0 <= k < |rs| ensures rs[k].overtimeHours >= 0.0 {
      assert rs[k] in rs;
      var j :| 0 <= j < |rows| && LegacyRecordOf(rows[j], j) == Some(rs[k]);
    }
    SumNonNegative(rs, Hours);
  }
}
