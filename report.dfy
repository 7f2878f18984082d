/** Aggregates over the calculated attendance records of one report. */
module Report {
  import opened Seqs
  import opened Attendance

  datatype OvertimeReport = OvertimeReport(records: seq<AttendanceRecord>, generatedAt: real)

  /** A row of the overtime make-up form, prefilled from one report record. */
  datatype OvertimeSubmissionRecord = OvertimeSubmissionRecord(
    date: string,
    description: string,
    overtimeHours: real,
    isOvertime: bool,
    isSelected: bool)

  predicate HasOvertime(r: AttendanceRecord)
  {
    r.overtimeHours > 0.0
  }

  function Hours(r: AttendanceRecord): real
  {
    r.overtimeHours
  }

  function TotalDays(rep: OvertimeReport): (n: nat)
    ensures n == |rep.records|
  {
    |rep.records|
  }

  function OvertimeDays(rep: OvertimeReport): (n: nat)
    ensures n <= TotalDays(rep)
    ensures n == 0 <==> forall i :: 0 <= i < |rep.records| ==> rep.records[i].overtimeHours <= 0.0
  {
    var kept := Filter(rep.records, HasOvertime);
    assert kept == [] <==> forall i :: 0 <= i < |rep.records| ==> !HasOvertime(rep.records[i]) by {
      if kept != [] {
        assert kept[0] in rep.records;
      }
    }
    |kept|
  }

  function TotalOvertimeHours(rep: OvertimeReport): real
  {
    Sum(rep.records, Hours)
  }

  /** With no negative hours the total is non-negative and at least the hours of every single record. */
  lemma TotalOvertimeHoursBounds(rep: OvertimeReport)
    requires forall i :: 0 <= i < |rep.records| ==> rep.records[i].overtimeHours >= 0.0
    ensures TotalOvertimeHours(rep) >= 0.0
    ensures forall i :: 0 <= i < |rep.records| ==> rep.records[i].overtimeHours <= TotalOvertimeHours(rep)
  {
    TotalAtLeastEach(rep.records);
  }

  lemma {:induction false} TotalAtLeastEach(rs: seq<AttendanceRecord>)
    requires forall i :: 0 <= i < |rs| ==> rs[i].overtimeHours >= 0.0
    ensures Sum(rs, Hours) >= 0.0
    ensures forall i :: 0 <= i < |rs| ==> rs[i].overtimeHours <= Sum(rs, Hours)
  {
    if rs != [] {
      TotalAtLeastEach(rs[1..]);
      forall i | 0 < i < |rs| ensures rs[i].overtimeHours <= Sum(rs, Hours) {
        assert rs[i] == rs[1..][i - 1];
      }
    }
  }

  function AverageOvertimeHours(rep: OvertimeReport): (avg: real)
    ensures rep.records == [] ==> avg == 0.0
    ensures rep.records != [] ==> avg * TotalDays(rep) as real == TotalOvertimeHours(rep)
  {
    if rep.records == [] then 0.0 else TotalOvertimeHours(rep) / TotalDays(rep) as real
  }

  /**
   * The index `max` keeps after scanning `rs[..k]`: it moves only to a
   * strictly greater value, so it is the first index of the maximum.
   */
  function ArgMax(rs: seq<AttendanceRecord>, k: nat): (m: nat)
    requires 1 <= k <= |rs|
    ensures m < k
    ensures forall j :: 0 <= j < k ==> rs[j].overtimeHours <= rs[m].overtimeHours
    ensures forall j :: 0 <= j < m ==> rs[j].overtimeHours < rs[m].overtimeHours
  {
    if k == 1 then 0
    else
      var m := ArgMax(rs, k - 1);
      if rs[k - 1].overtimeHours > rs[m].overtimeHours then k - 1 else m
  }

  function MaxOvertimeHours(rep: OvertimeReport): (h: real)
    ensures rep.records == [] ==> h == 0.0
    ensures rep.records != [] ==> exists i :: 0 <= i < |rep.records| && h == rep.records[i].overtimeHours
    ensures forall i :: 0 <= i < |rep.records| ==> rep.records[i].overtimeHours <= h
  {
    if rep.records == [] then 0.0 else rep.records[ArgMax(rep.records, |rep.records|)].overtimeHours
  }

  /** `max_overtime_date`: the date of the first record with the largest hours, "" when empty. */
  function MaxOvertimeDate(rep: OvertimeReport): (d: string)
    ensures rep.records == [] ==> d == ""
    ensures rep.records != [] ==>
              exists i :: 0 <= i < |rep.records| && d == rep.records[i].date &&
                rep.records[i].overtimeHours == MaxOvertimeHours(rep) &&
                forall j :: 0 <= j < i ==> rep.records[j].overtimeHours < MaxOvertimeHours(rep)
  {
    if rep.records == [] then "" else rep.records[ArgMax(rep.records, |rep.records|)].date
  }

  function AsSubmission(r: AttendanceRecord): OvertimeSubmissionRecord
  {
    OvertimeSubmissionRecord(r.date, "", r.overtimeHours, true, true)
  }

  /** `to_submission_records`: one prefilled, selected form row per record with positive hours, in order. */
  function ToSubmissionRecords(rep: OvertimeReport): (out: seq<OvertimeSubmissionRecord>)
    ensures |out| == OvertimeDays(rep)
    ensures forall i :: 0 <= i < |out| ==>
              out[i].date == Filter(rep.records, HasOvertime)[i].date &&
              out[i].overtimeHours == Filter(rep.records, HasOvertime)[i].overtimeHours &&
              out[i].overtimeHours > 0.0 &&
              out[i].description == "" && out[i].isOvertime && out[i].isSelected
  {
    var kept := Filter(rep.records, HasOvertime);
    seq(|kept|, i requires 0 <= i < |kept| => AsSubmission(kept[i]))
  }
}
