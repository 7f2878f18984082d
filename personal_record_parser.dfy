/**
 * The personal-record table (`gvFlow211`): one filed overtime or
 * compensatory-leave request per data row, its fields found through spans
 * whose ids end in the row's position among the data rows.
 */
module PersonalRecordParser {
  import opened Wrappers
  import opened Text
  import opened Seqs
  import opened Markup
  import opened PersonalRecords

  const RECORD_TABLE := "ContentPlaceHolder1_gvFlow211"
  const SPAN_PREFIX := "ContentPlaceHolder1_gvFlow211_"
  const ROW_STYLE := "RowStyle"
  const ALTERNATING_ROW_STYLE := "AlternatingRowStyle_update"
  const OVERTIME_TYPE := "加班"
  const CHANGE_TYPE := "調休"

  // ---------------------------------------------------------------- hours

  /** `value == int(value)`: the value has no fractional part. */
  predicate IsIntegral(v: real)
  {
    v == v.Floor as real
  }

  /**
   * `_parse_hours`: commas are dropped and whitespace stripped; blank text is
   * 0; an integral value above 10 is a number of minutes; anything else that
   * parses is already hours; text that does not parse is 0.
   */
  function ParseHours(text: string): real
  {
    var t := Strip(Replace(text, ",", ""));
    if t == [] then 0.0
    else
      match ParseDecimal(t)
      case None => 0.0
      case Some(v) => if v > 10.0 && IsIntegral(v) then v / 60.0 else v
  }

  /** Whole numbers above 10 are minutes and become hours. */
  lemma ParseHoursMinutes(n: nat)
    requires n > 10
    ensures ParseHours(NatToString(n)) == n as real / 60.0
  {
    var s := NatToString(n);
    assert ',' !in s;
    ReplaceCharAbsent(s, ',', "");
    StripUnchanged(s);
    NatToStringDecimal(n);
    assert Strip(s) == s;
    assert IsIntegral(n as real);
  }

  /** Whole numbers up to 10 are already hours: the threshold is strict. */
  lemma ParseHoursSmallWhole(n: nat)
    requires n <= 10
    ensures ParseHours(NatToString(n)) == n as real
  {
    var s := NatToString(n);
    assert ',' !in s;
    ReplaceCharAbsent(s, ',', "");
    StripUnchanged(s);
    NatToStringDecimal(n);
  }

  /** A clean decimal string is read by the minutes rule alone. */
  lemma ParseHoursOfDecimal(s: string, v: real)
    requires s != [] && ',' !in s && Strip(s) == s && ParseDecimal(s) == Some(v)
    ensures ParseHours(s) == if v > 10.0 && IsIntegral(v) then v / 60.0 else v
  {
    ReplaceCharAbsent(s, ',', "");
  }

  /** A value with a fractional part is already hours, even above 10: "12.5" stays 12.5. */
  lemma ParseHoursKeepsFraction(s: string, v: real)
    requires s != [] && ',' !in s && Strip(s) == s && ParseDecimal(s) == Some(v) && !IsIntegral(v)
    ensures ParseHours(s) == v
  {
    ParseHoursOfDecimal(s, v);
  }

  /** Commas are ignored: "1,200" reads as 1200 minutes. */
  lemma ParseHoursIgnoresCommas(a: string, b: string)
    ensures ParseHours(a + "," + b) == ParseHours(a + b)
  {
    assert a + "," + b == a + [','] + b;
    ReplaceSkipsChar(a, b, ',');
  }

  /** Blank text, whatever whitespace it holds, is no hours. */
  lemma ParseHoursBlank(s: string)
    requires AllSpaces(s)
    ensures ParseHours(s) == 0.0
  {
    assert ',' !in s by {
      forall i | 0 <= i < |s| ensures s[i] != ',' {
        assert IsSpace(s[i]);
      }
    }
    ReplaceCharAbsent(s, ',', "");
    BlankTrims(s);
  }

  /**
   * The whole-number examples in the docstring of `_parse_hours`: "120" is
   * minutes and "5" is hours.
   */
  lemma ParseHoursExamples()
    ensures ParseHours(NatToString(120)) == 2.0
    ensures ParseHours(NatToString(5)) == 5.0
  {
    ParseHoursMinutes(120);
    ParseHoursSmallWhole(5);
  }

  /** The blank examples in the docstring of `_parse_hours`. */
  lemma ParseHoursBlankExamples()
    ensures ParseHours("") == 0.0
    ensures ParseHours("  ") == 0.0
  {
    ParseHoursBlank("");
    ParseHoursBlank("  ");
  }

  /** The minute values `test_parse_hours_minutes` checks. */
  lemma ParseHoursTestExamples()
    ensures ParseHours(NatToString(90)) == 1.5
    ensures ParseHours(NatToString(45)) == 0.75
  {
    ParseHoursMinutes(90);
    ParseHoursMinutes(45);
  }

  /** The texts of the whole numbers in the examples above. */
  lemma ExampleTexts()
    ensures NatToString(120) == "120" && NatToString(5) == "5"
    ensures NatToString(90) == "90" && NatToString(45) == "45"
  {
  }

  /** Text that is no number reads as no hours, as the caught `ValueError` does. */
  lemma NotANumber()
    ensures ParseHours("invalid") == 0.0
  {
    NotADecimal();
    NoCommas();
    StripUnchanged("invalid");
  }

  lemma NotADecimal()
    ensures ParseDecimal("invalid") == None
  {
    var s := "invalid";
    StripUnchanged(s);
    assert '.' !in s;
    SplitNoSep(s, '.');
    assert !IsDigit(s[0]);
  }

  lemma NoCommas()
    ensures Replace("invalid", ",", "") == "invalid"
  {
    ReplaceCharAbsent("invalid", ',', "");
  }

  // ---------------------------------------------------------------- rows

  /** `find_all("tr", class_=["RowStyle", "AlternatingRowStyle_update"])` */
  predicate IsDataRow(row: Row)
  {
    ROW_STYLE in row.classes || ALTERNATING_ROW_STYLE in row.classes
  }

  /** The id of a field's span in the data row at position `index`. */
  function SpanId(field: string, index: nat): string
  {
    SPAN_PREFIX + field + "_" + NatToString(index)
  }

  function FieldSpan(row: Row, field: string, index: nat): Option<Span>
  {
    FindSpanWithId(RowSpans(row.cells), SpanId(field, index))
  }

  /** The field's stripped text, or `default` when its span is missing. */
  function FieldText(row: Row, field: string, index: nat, default: string): string
  {
    var span := FieldSpan(row, field, index);
    if span.Some? then SpanText(span.value) else default
  }

  /** The description: a non-empty `title` first, then the span's text, else "". */
  function ContentOf(span: Option<Span>): string
  {
    if span.None? then ""
    else if span.value.title.Some? && span.value.title.value != "" then span.value.title.value
    else SpanText(span.value)
  }

  /** The approval status, with any literal "<br>" turned into a space. */
  function StatusOf(row: Row, index: nat): string
  {
    Replace(FieldText(row, "lblProcess_Flag_Text", index, ""), "<br>", " ")
  }

  /** Python's `a or b` on strings. */
  function OrElse(a: string, b: string): string
  {
    if a != "" then a else b
  }

  datatype Decision = Decision(reportType: string, hours: real)

  /**
   * The report type and hours of a row: overtime hours first, then change
   * (compensatory-leave) hours, and with neither the first status text given.
   */
  function ReportDecision(overtimeHours: real, overtimeStatus: string, changeHours: real, changeStatus: string): (d: Decision)
    ensures d.hours >= 0.0
    ensures d.hours > 0.0 <==> overtimeHours > 0.0 || changeHours > 0.0
    ensures d.hours > 0.0 ==> d.reportType != ""
    ensures d.hours == 0.0 || d.hours == overtimeHours || d.hours == changeHours
  {
    if overtimeHours > 0.0 then Decision(OrElse(overtimeStatus, OVERTIME_TYPE), overtimeHours)
    else if changeHours > 0.0 then Decision(OrElse(changeStatus, CHANGE_TYPE), changeHours)
    else Decision(OrElse(overtimeStatus, changeStatus), 0.0)
  }

  /** Overtime hours win over change hours; the status text names the type when given. */
  lemma ReportDecisionPrefersOvertime(overtimeHours: real, overtimeStatus: string, changeHours: real, changeStatus: string)
    ensures var d := ReportDecision(overtimeHours, overtimeStatus, changeHours, changeStatus);
            (overtimeHours > 0.0 ==>
               (d.hours == overtimeHours &&
                (d.reportType == overtimeStatus || (overtimeStatus == "" && d.reportType == OVERTIME_TYPE)))) &&
            (overtimeHours <= 0.0 && changeHours > 0.0 ==>
               (d.hours == changeHours &&
                (d.reportType == changeStatus || (changeStatus == "" && d.reportType == CHANGE_TYPE)))) &&
            (overtimeHours <= 0.0 && changeHours <= 0.0 ==>
               (d.reportType == "" <==> overtimeStatus == "" && changeStatus == ""))
  {
  }

  /** The record of the data row at position `index`; none without its date span. */
  function RecordOf(row: Row, index: nat): (r: Option<PersonalRecord>)
    ensures r.None? <==> FieldSpan(row, "lblOT_Date", index).None?
    ensures r.Some? ==> r.value.date == SpanText(FieldSpan(row, "lblOT_Date", index).value)
    ensures r.Some? ==> r.value.overtimeHours >= 0.0
    ensures r.Some? && r.value.overtimeHours > 0.0 ==> r.value.reportType != ""
  {
    var dateSpan := FieldSpan(row, "lblOT_Date", index);
    if dateSpan.None? then None
    else
      var overtimeStatus := FieldText(row, "Label9", index, "");
      var changeStatus := FieldText(row, "lblT_Change", index, "");
      var overtimeHours := ParseHours(FieldText(row, "lblOT_Minute", index, ""));
      var changeHours := ParseHours(FieldText(row, "lblChange_Minute", index, ""));
      var decision := ReportDecision(overtimeHours, overtimeStatus, changeHours, changeStatus);
      Some(PersonalRecord(
        SpanText(dateSpan.value),
        ContentOf(FieldSpan(row, "lblOT_Describe", index)),
        StatusOf(row, index),
        decision.reportType,
        decision.hours,
        ParseHours(FieldText(row, "lblOT_Manhour", index, "0")),
        ParseHours(FieldText(row, "lblOT_Monhour", index, "0"))))
  }

  /**
   * The description prefers a non-empty `title` over the span's text; the
   * status is the span's text with every "<br>" turned into a space, and is
   * that text unchanged when it holds no "<br>".
   */
  lemma RecordContentAndStatus(row: Row, index: nat)
    requires RecordOf(row, index).Some?
    ensures var r := RecordOf(row, index).value;
            var d := FieldSpan(row, "lblOT_Describe", index);
            (d.None? ==> r.content == "") &&
            (d.Some? && d.value.title.Some? && d.value.title.value != "" ==> r.content == d.value.title.value) &&
            (d.Some? && (d.value.title.None? || d.value.title.value == "") ==> r.content == SpanText(d.value))
    ensures var r := RecordOf(row, index).value;
            var st := FieldSpan(row, "lblProcess_Flag_Text", index);
            (st.None? ==> r.status == "") &&
            (st.Some? ==> r.status == Replace(SpanText(st.value), "<br>", " ")) &&
            (st.Some? && !Contains(SpanText(st.value), "<br>") ==> r.status == SpanText(st.value))
  {
  }

  /** Missing total spans read as "0", which is no hours; a missing status is "". */
  lemma MissingSpansAreZero(row: Row, index: nat)
    requires RecordOf(row, index).Some?
    ensures FieldSpan(row, "lblOT_Manhour", index).None? ==> RecordOf(row, index).value.monthlyTotal == 0.0
    ensures FieldSpan(row, "lblOT_Monhour", index).None? ==> RecordOf(row, index).value.quarterlyTotal == 0.0
    ensures FieldSpan(row, "lblProcess_Flag_Text", index).None? ==> RecordOf(row, index).value.status == ""
  {
    ZeroIsNoHours();
  }

  lemma ZeroIsNoHours()
    ensures ParseHours("0") == 0.0
  {
    ParseHoursSmallWhole(0);
    assert NatToString(0) == "0";
  }

  /** The records of the data rows, each row using its position as the span suffix. */
  function RecordsOf(rows: seq<Row>): seq<PersonalRecord>
  {
    FilterMapIndexed(rows, RecordOf)
  }

  function PersonalRecordsOf(doc: Document): seq<PersonalRecord>
  {
    var table := FindTable(doc, RECORD_TABLE);
    if table.None? then [] else RecordsOf(Filter(table.value, IsDataRow))
  }

  /** `parse_records` */
  method ParseRecords(doc: Document) returns (records: seq<PersonalRecord>)
    ensures records == PersonalRecordsOf(doc)
  {
    var table := FindTable(doc, RECORD_TABLE);
    if table.None? {
      return [];
    }
    var rows := Filter(table.value, IsDataRow);
    records := [];
    var index := 0;
    while index < |rows|
      invariant 0 <= index <= |rows|
      invariant records == RecordsOf(rows[..index])
    {
      FilterMapIndexedSnoc(rows, index, RecordOf);
      var record := RecordOf(rows[index], index);
      if record.Some? {
        records := records + [record.value];
      }
      index := index + 1;
    }
    assert rows[..|rows|] == rows;
  }

  /**
   * A record is produced for exactly the data rows that have their date span,
   * each read with its own position; a skipped row still uses up its position.
   * There are never more records than data rows.
   */
  lemma RecordsMembership(rows: seq<Row>)
    ensures forall r :: r in RecordsOf(rows) <==> exists k :: 0 <= k < |rows| && RecordOf(rows[k], k) == Some(r)
    ensures |RecordsOf(rows)| <= |rows|
  {
    FilterMapIndexedMembership(rows, RecordOf);
    FilterMapIndexedLength(rows, RecordOf);
  }

  /** Without the table there are no records. */
  lemma MissingTableGivesNothing(doc: Document)
    requires FindTable(doc, RECORD_TABLE).None?
    ensures PersonalRecordsOf(doc) == []
  {
  }
}
