/**
 * The submitted-overtime status page: the same `gvFlow211` table read into
 * a map from date to what was filed, with minutes kept as the page shows
 * them. The first `<tr>` is the header and is skipped by position; the i-th
 * remaining row uses span suffix i.
 */
module OvertimeStatusService {
  import opened Wrappers
  import opened Text
  import opened Seqs
  import opened Markup
  import opened PersonalRecordParser

  const UNKNOWN_STATUS := "未知"

  /** What was filed for a date; the minute counts are raw, not converted to hours. */
  datatype SubmittedRecord = SubmittedRecord(date: string, status: string, overtimeMinutes: real, changeMinutes: real)

  /**
   * A minute count: a missing span or blank text is 0, otherwise the text
   * must read as a number; `None` is the failed `float()` that skips the row.
   */
  function MinutesOf(row: Row, field: string, index: nat): (r: Option<real>)
    ensures FieldText(row, field, index, "") == "" ==> r == Some(0.0)
    ensures FieldText(row, field, index, "") != "" ==> r == ParseDecimal(FieldText(row, field, index, ""))
  {
    var text := FieldText(row, field, index, "");
    if text == "" then Some(0.0) else ParseDecimal(text)
  }

  /** Minutes are read as written: "90" is 90 minutes here, not 1.5 hours. */
  lemma MinutesAreRaw(row: Row, field: string, index: nat, n: nat)
    requires FieldText(row, field, index, "") == NatToString(n)
    ensures MinutesOf(row, field, index) == Some(n as real)
  {
    NatToStringDecimal(n);
  }

  /** The record of the row at position `index` after the header, if the row is kept. */
  function StatusRecordOf(row: Row, index: nat): (r: Option<SubmittedRecord>)
    ensures r.Some? <==>
              FieldSpan(row, "lblOT_Date", index).Some? &&
              MinutesOf(row, "lblOT_Minute", index).Some? &&
              MinutesOf(row, "lblChange_Minute", index).Some?
    ensures r.Some? ==>
              r.value.date == SpanText(FieldSpan(row, "lblOT_Date", index).value) &&
              r.value.status == FieldText(row, "lblProcess_Flag_Text", index, UNKNOWN_STATUS) &&
              r.value.overtimeMinutes == MinutesOf(row, "lblOT_Minute", index).value &&
              r.value.changeMinutes == MinutesOf(row, "lblChange_Minute", index).value
  {
    var dateSpan := FieldSpan(row, "lblOT_Date", index);
    if dateSpan.None? then None
    else
      var status := FieldText(row, "lblProcess_Flag_Text", index, UNKNOWN_STATUS);
      var overtime := MinutesOf(row, "lblOT_Minute", index);
      var change := MinutesOf(row, "lblChange_Minute", index);
      if overtime.None? || change.None? then None
      else Some(SubmittedRecord(SpanText(dateSpan.value), status, overtime.value, change.value))
  }

  /** A row with its date span and no minute spans is kept with zero minutes. */
  lemma MissingMinutesAreZero(row: Row, index: nat)
    requires FieldSpan(row, "lblOT_Date", index).Some?
    requires FieldSpan(row, "lblOT_Minute", index).None? && FieldSpan(row, "lblChange_Minute", index).None?
    ensures StatusRecordOf(row, index).Some?
    ensures StatusRecordOf(row, index).value.overtimeMinutes == 0.0
    ensures StatusRecordOf(row, index).value.changeMinutes == 0.0
    ensures FieldSpan(row, "lblProcess_Flag_Text", index).None? ==> StatusRecordOf(row, index).value.status == UNKNOWN_STATUS
  {
  }

  /** `rows[1:]`: every `<tr>` but the first, whatever the first one is. */
  function AfterHeader(rows: seq<Row>): (r: seq<Row>)
    ensures |rows| >= 1 ==> |r| == |rows| - 1 && forall k :: 0 <= k < |r| ==> r[k] == rows[k + 1]
    ensures |rows| == 0 ==> r == []
  {
    if rows == [] then [] else rows[1..]
  }

  /** `records[date] = record` for each record in turn: the dictionary after the loop. */
  function MapOf(es: seq<SubmittedRecord>): map<string, SubmittedRecord>
  {
    if es == [] then map[]
    else MapOf(es[..|es| - 1])[es[|es| - 1].date := es[|es| - 1]]
  }

  lemma MapOfSnoc(es: seq<SubmittedRecord>, e: SubmittedRecord)
    ensures MapOf(es + [e]) == MapOf(es)[e.date := e]
  {
    assert (es + [e])[..|es|] == es;
  }

  /** The keys are exactly the dates of the records. */
  lemma {:induction false} MapOfKeys(es: seq<SubmittedRecord>)
    ensures forall d :: d in MapOf(es) <==> exists k :: 0 <= k < |es| && es[k].date == d
  {
    if es != [] {
      var init := es[..|es| - 1];
      MapOfKeys(init);
      assert forall k :: 0 <= k < |init| ==> init[k] == es[k];
    }
  }

  /**
   * Each date maps to the last record with that date: the value is a record
   * of the list, has that date, and no later record has it.
   */
  lemma {:induction false} MapOfLastWins(es: seq<SubmittedRecord>)
    ensures forall d :: d in MapOf(es) ==>
              MapOf(es)[d].date == d &&
              exists k :: 0 <= k < |es| && es[k] == MapOf(es)[d] &&
                          forall j :: k < j < |es| ==> es[j].date != d
  {
    if es != [] {
      var init := es[..|es| - 1];
      var last := es[|es| - 1];
      MapOfLastWins(init);
      forall d | d in MapOf(es)
        ensures MapOf(es)[d].date == d &&
                exists k :: 0 <= k < |es| && es[k] == MapOf(es)[d] &&
                            forall j :: k < j < |es| ==> es[j].date != d
      {
        if d == last.date {
          assert es[|es| - 1] == MapOf(es)[d];
        } else {
          assert d in MapOf(init);
          var k :| 0 <= k < |init| && init[k] == MapOf(init)[d] &&
                   forall j :: k < j < |init| ==> init[j].date != d;
          assert es[k] == MapOf(es)[d];
          assert forall j :: k < j < |es| ==> es[j].date != d;
        }
      }
    }
  }

  /** The records of the rows after the header, in row order. */
  function StatusEntries(rows: seq<Row>): seq<SubmittedRecord>
  {
    FilterMapIndexed(rows, StatusRecordOf)
  }

  function StatusRecordsOf(doc: Document): map<string, SubmittedRecord>
  {
    var table := FindTable(doc, RECORD_TABLE);
    if table.None? then map[] else MapOf(StatusEntries(AfterHeader(table.value)))
  }

  lemma EntriesSnoc(rows: seq<Row>, i: nat)
    requires i < |rows|
    ensures StatusRecordOf(rows[i], i).None? ==> StatusEntries(rows[..i + 1]) == StatusEntries(rows[..i])
    ensures StatusRecordOf(rows[i], i).Some? ==>
              StatusEntries(rows[..i + 1]) == StatusEntries(rows[..i]) + [StatusRecordOf(rows[i], i).value]
  {
    FilterMapIndexedSnoc(rows, i, StatusRecordOf);
  }

  /** `_parse_status_table` */
  method ParseStatusTable(doc: Document) returns (records: map<string, SubmittedRecord>)
    ensures records == StatusRecordsOf(doc)
  {
    records := map[];
    var table := FindTable(doc, RECORD_TABLE);
    if table.None? {
      return;
    }
    var rows := AfterHeader(table.value);
    var i := 0;
    while i < |rows|
      invariant 0 <= i <= |rows|
      invariant records == MapOf(StatusEntries(rows[..i]))
    {
      var record := StatusRecordOf(rows[i], i);
      EntriesSnoc(rows, i);
      if record.Some? {
        MapOfSnoc(StatusEntries(rows[..i]), record.value);
        records := records[record.value.date := record.value];
      }
      i := i + 1;
    }
    assert rows[..|rows|] == rows;
  }

  /** The keys of the dictionary built from any row reader's records. */
  lemma {:induction false} ReaderKeys(rows: seq<Row>, f: (Row, nat) -> Option<SubmittedRecord>)
    ensures forall d :: d in MapOf(FilterMapIndexed(rows, f)) <==>
              exists k :: 0 <= k < |rows| && f(rows[k], k).Some? && f(rows[k], k).value.date == d
  {
    var es := FilterMapIndexed(rows, f);
    MapOfKeys(es);
    FilterMapIndexedMembership(rows, f);
    forall d ensures d in MapOf(es) <==> exists k :: 0 <= k < |rows| && f(rows[k], k).Some? && f(rows[k], k).value.date == d
    {
      if d in MapOf(es) {
        var k :| 0 <= k < |es| && es[k].date == d;
        assert es[k] in es;
      }
      if exists k :: 0 <= k < |rows| && f(rows[k], k).Some? && f(rows[k], k).value.date == d {
        var k :| 0 <= k < |rows| && f(rows[k], k).Some? && f(rows[k], k).value.date == d;
        assert f(rows[k], k).value in es;
      }
    }
  }

  /** The values of that dictionary: each is some row's record, under its own date. */
  lemma {:induction false} ReaderValues(rows: seq<Row>, f: (Row, nat) -> Option<SubmittedRecord>)
    ensures forall d :: d in MapOf(FilterMapIndexed(rows, f)) ==>
              MapOf(FilterMapIndexed(rows, f))[d].date == d &&
              exists k :: 0 <= k < |rows| && f(rows[k], k) == Some(MapOf(FilterMapIndexed(rows, f))[d])
  {
    var es := FilterMapIndexed(rows, f);
    MapOfLastWins(es);
    FilterMapIndexedMembership(rows, f);
    forall d | d in MapOf(es)
      ensures exists k :: 0 <= k < |rows| && f(rows[k], k) == Some(MapOf(es)[d])
    {
      var j :| 0 <= j < |es| && es[j] == MapOf(es)[d] && forall i :: j < i < |es| ==> es[i].date != d;
      assert es[j] in es;
    }
  }

  /**
   * The later row overwrites the earlier: a kept row whose date no later kept
   * row repeats is the value under that date.
   */
  lemma {:induction false} ReaderLastWins(rows: seq<Row>, f: (Row, nat) -> Option<SubmittedRecord>, k: nat)
    requires k < |rows| && f(rows[k], k).Some?
    requires forall j :: k < j < |rows| ==> f(rows[j], j).None? || f(rows[j], j).value.date != f(rows[k], k).value.date
    ensures f(rows[k], k).value.date in MapOf(FilterMapIndexed(rows, f))
    ensures MapOf(FilterMapIndexed(rows, f))[f(rows[k], k).value.date] == f(rows[k], k).value
  {
    var init := rows[..|rows| - 1];
    var e := f(rows[|rows| - 1], |rows| - 1);
    var es := FilterMapIndexed(init, f);
    if e.Some? {
      MapOfSnoc(es, e.value);
    } else {
      assert FilterMapIndexed(rows, f) == es + [];
      assert es + [] == es;
    }
    if k < |rows| - 1 {
      assert init[k] == rows[k];
      forall j | k < j < |init| ensures f(init[j], j).None? || f(init[j], j).value.date != f(init[k], k).value.date {
        assert init[j] == rows[j];
      }
      ReaderLastWins(init, f, k);
    }
  }

  /**
   * A date is a key exactly when some row after the header is kept with that
   * date; its value is a kept row's record with that date (the last one, by
   * MapOfLastWins).
   */
  lemma StatusRecordsKeys(rows: seq<Row>)
    ensures forall d :: d in MapOf(StatusEntries(rows)) <==>
              exists k :: 0 <= k < |rows| && StatusRecordOf(rows[k], k).Some? && StatusRecordOf(rows[k], k).value.date == d
    ensures forall d :: d in MapOf(StatusEntries(rows)) ==>
              MapOf(StatusEntries(rows))[d].date == d &&
              exists k :: 0 <= k < |rows| && StatusRecordOf(rows[k], k) == Some(MapOf(StatusEntries(rows))[d])
  {
    ReaderKeys(rows, StatusRecordOf);
    ReaderValues(rows, StatusRecordOf);
  }

  /** For duplicate dates the later row wins. */
  lemma StatusLastRowWins(rows: seq<Row>, k: nat)
    requires k < |rows| && StatusRecordOf(rows[k], k).Some?
    requires forall j :: k < j < |rows| ==>
               StatusRecordOf(rows[j], j).None? || StatusRecordOf(rows[j], j).value.date != StatusRecordOf(rows[k], k).value.date
    ensures var r := StatusRecordOf(rows[k], k).value;
            r.date in MapOf(StatusEntries(rows)) && MapOf(StatusEntries(rows))[r.date] == r
  {
    ReaderLastWins(rows, StatusRecordOf, k);
  }

  /** Without the table the result is empty. */
  lemma MissingTableGivesNothing(doc: Document)
    requires FindTable(doc, RECORD_TABLE).None?
    ensures StatusRecordsOf(doc) == map[]
  {
  }

  /** The outcome of the page request: the parsed page, or any exception. */
  datatype StatusFetch = Fetched(doc: Document) | Failed

  /** `fetch_submitted_records`: a failed request gives an empty map. */
  function FetchSubmittedRecords(outcome: StatusFetch): (r: map<string, SubmittedRecord>)
    ensures outcome.Failed? ==> r == map[]
    ensures outcome.Fetched? && FindTable(outcome.doc, RECORD_TABLE).None? ==> r == map[]
    ensures outcome.Fetched? ==> r == StatusRecordsOf(outcome.doc)
    ensures forall d :: d in r ==> r[d].date == d
  {
    if outcome.Failed? then map[]
    else
      var table := FindTable(outcome.doc, RECORD_TABLE);
      if table.None? then map[]
      else
        StatusRecordsKeys(AfterHeader(table.value));
        StatusRecordsOf(outcome.doc)
  }
}
