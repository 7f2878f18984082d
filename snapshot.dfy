/**
 * The cached snapshot of everything one synchronisation fetched, and the
 * statistics computed over its unified records.
 */
module Snapshot {
  import opened Wrappers
  import opened Seqs
  import opened Attendance
  import Punch
  import Leave
  import Quota

  datatype OvertimeStatistics = OvertimeStatistics(
    startDate: string,
    endDate: string,
    totalOvertimeHours: real,
    submittedOvertimeHours: real,
    pendingOvertimeHours: real,
    totalDays: int,
    workdaysWithOvertime: int,
    pendingSubmissionDays: int,
    anomalyDays: int,
    incompletePunchDays: int,
    discrepancyCount: int)

  /** Statistics with every counter at its default of zero. */
  function EmptyStatistics(startDate: string, endDate: string): (s: OvertimeStatistics)
    ensures s.startDate == startDate && s.endDate == endDate
    ensures s.totalOvertimeHours == 0.0 && s.submittedOvertimeHours == 0.0 && s.pendingOvertimeHours == 0.0
    ensures s.totalDays == 0 && s.workdaysWithOvertime == 0 && s.pendingSubmissionDays == 0
    ensures s.anomalyDays == 0 && s.incompletePunchDays == 0 && s.discrepancyCount == 0
  {
    OvertimeStatistics(startDate, endDate, 0.0, 0.0, 0.0, 0, 0, 0, 0, 0, 0)
  }

  /** `average_overtime_per_day`: total hours per workday with overtime, 0 without such days. */
  function AverageOvertimePerDay(s: OvertimeStatistics): (avg: real)
    ensures s.workdaysWithOvertime == 0 ==> avg == 0.0
    ensures s.workdaysWithOvertime != 0 ==> avg * s.workdaysWithOvertime as real == s.totalOvertimeHours
  {
    if s.workdaysWithOvertime == 0 then 0.0
    else s.totalOvertimeHours / s.workdaysWithOvertime as real
  }

  /** `submission_rate`: submitted over total hours, 1 when there is no overtime at all. */
  function SubmissionRate(s: OvertimeStatistics): (rate: real)
    ensures s.totalOvertimeHours == 0.0 ==> rate == 1.0
    ensures s.totalOvertimeHours != 0.0 ==> rate * s.totalOvertimeHours == s.submittedOvertimeHours
  {
    if s.totalOvertimeHours == 0.0 then 1.0
    else s.submittedOvertimeHours / s.totalOvertimeHours
  }

  predicate HasPendingWork(s: OvertimeStatistics)
  {
    s.pendingSubmissionDays > 0 || s.anomalyDays > 0
  }

  /** Rates over consistent statistics stay within [0, 1]. */
  lemma SubmissionRateBounded(s: OvertimeStatistics)
    requires 0.0 <= s.submittedOvertimeHours <= s.totalOvertimeHours
    ensures 0.0 <= SubmissionRate(s) <= 1.0
  {
    if s.totalOvertimeHours != 0.0 {
      var rate := SubmissionRate(s);
      assert rate * s.totalOvertimeHours == s.submittedOvertimeHours;
    }
  }

  datatype AttendanceSnapshot = AttendanceSnapshot(
    startDate: string,
    endDate: string,
    fetchedAt: real,
    punchRecords: seq<Punch.PunchRecord>,
    leaveRecords: seq<Leave.LeaveRecord>,
    quota: Option<Quota.AttendanceQuota>,
    unifiedRecords: seq<UnifiedOvertimeRecord>,
    statistics: Option<OvertimeStatistics>)

  /** `is_fresh`: fetched less than `maxAgeSeconds` before `now` (seconds). */
  predicate IsFresh(s: AttendanceSnapshot, now: real, maxAgeSeconds: real)
  {
    now - s.fetchedAt < maxAgeSeconds
  }

  /** A snapshot stays fresh for at most `maxAgeSeconds`, and is fresh at the moment it was fetched when that age is positive. */
  lemma FreshnessWindow(s: AttendanceSnapshot, now: real, later: real, maxAgeSeconds: real)
    requires now <= later
    ensures IsFresh(s, later, maxAgeSeconds) ==> IsFresh(s, now, maxAgeSeconds)
    ensures maxAgeSeconds > 0.0 ==> IsFresh(s, s.fetchedAt, maxAgeSeconds)
    ensures later >= s.fetchedAt + maxAgeSeconds ==> !IsFresh(s, later, maxAgeSeconds)
  {
  }

  function RecordCount(s: AttendanceSnapshot): (n: nat)
    ensures n == |s.unifiedRecords|
  {
    |s.unifiedRecords|
  }

  predicate HasData(s: AttendanceSnapshot)
  {
    |s.unifiedRecords| > 0
  }

  lemma HasDataIffCount(s: AttendanceSnapshot)
    ensures HasData(s) <==> RecordCount(s) > 0
    ensures HasData(s) <==> s.unifiedRecords != []
  {
  }

  /** The position of the first record with that date. */
  function FirstIndexOfDate(records: seq<UnifiedOvertimeRecord>, date: string): (k: Option<nat>)
    ensures k.None? <==> forall i :: 0 <= i < |records| ==> records[i].date != date
    ensures k.Some? ==> k.value < |records| && records[k.value].date == date &&
                        forall j :: 0 <= j < k.value ==> records[j].date != date
  {
    if records == [] then None
    else if records[0].date == date then Some(0)
    else
      var k := FirstIndexOfDate(records[1..], date);
      if k.None? then None else Some(k.value + 1)
  }

  /** `get_record_by_date`: the first record with that date, or None. */
  function RecordByDate(records: seq<UnifiedOvertimeRecord>, date: string): (r: Option<UnifiedOvertimeRecord>)
    ensures r.None? <==> forall i :: 0 <= i < |records| ==> records[i].date != date
    ensures r.Some? ==> exists i :: 0 <= i < |records| && records[i] == r.value && r.value.date == date &&
                                    forall j :: 0 <= j < i ==> records[j].date != date
  {
    var k := FirstIndexOfDate(records, date);
    if k.None? then None else Some(records[k.value])
  }

  function GetRecordByDate(s: AttendanceSnapshot, date: string): Option<UnifiedOvertimeRecord>
  {
    RecordByDate(s.unifiedRecords, date)
  }

  function GetPendingRecords(s: AttendanceSnapshot): seq<UnifiedOvertimeRecord>
  {
    Filter(s.unifiedRecords, NeedsSubmission)
  }

  function GetAnomalyRecords(s: AttendanceSnapshot): seq<UnifiedOvertimeRecord>
  {
    Filter(s.unifiedRecords, IsAnomaly)
  }

  function GetSubmittedRecords(s: AttendanceSnapshot): seq<UnifiedOvertimeRecord>
  {
    Filter(s.unifiedRecords, IsSubmitted)
  }

  /**
   * The three filters keep exactly the records with their property, and
   * keep them in order: the filter of a concatenation is the concatenation
   * of the filters.
   */
  lemma FiltersSelect(s: AttendanceSnapshot, a: seq<UnifiedOvertimeRecord>, b: seq<UnifiedOvertimeRecord>)
    requires s.unifiedRecords == a + b
    ensures forall x :: x in GetPendingRecords(s) <==> x in s.unifiedRecords && NeedsSubmission(x)
    ensures forall x :: x in GetAnomalyRecords(s) <==> x in s.unifiedRecords && x.hasAnomaly
    ensures forall x :: x in GetSubmittedRecords(s) <==> x in s.unifiedRecords && x.submitted
    ensures GetPendingRecords(s) == Filter(a, NeedsSubmission) + Filter(b, NeedsSubmission)
    ensures GetAnomalyRecords(s) == Filter(a, IsAnomaly) + Filter(b, IsAnomaly)
    ensures GetSubmittedRecords(s) == Filter(a, IsSubmitted) + Filter(b, IsSubmitted)
  {
    FilterAppend(a, b, NeedsSubmission);
    FilterAppend(a, b, IsAnomaly);
    FilterAppend(a, b, IsSubmitted);
  }

  /** Every pending record is an anomaly record that is not submitted. */
  lemma PendingWithinAnomalies(s: AttendanceSnapshot)
    ensures |GetPendingRecords(s)| <= |GetAnomalyRecords(s)|
    ensures forall x :: x in GetPendingRecords(s) ==> x in GetAnomalyRecords(s) && x !in GetSubmittedRecords(s)
  {
    FilterFilter(s.unifiedRecords, IsAnomaly, HasCalculatedOvertimeUnsubmitted, NeedsSubmission);
  }

  predicate HasCalculatedOvertimeUnsubmitted(r: UnifiedOvertimeRecord)
  {
    !r.submitted && r.calculatedOvertimeHours > 0.0
  }
}
