/**
 * Attendance records produced by the overtime calculator and the unified
 * per-date record that the reconciliation engine builds from anomaly and
 * personal-record data.
 */
module Attendance {
  import opened Wrappers
  import Text

  const PENDING_STATUS := "簽核中"
  const APPROVED_STATUS := "完成"
  const NO_PUNCH := "無打卡記錄"
  const DISCREPANCY_THRESHOLD := 0.1

  datatype AttendanceRecord = AttendanceRecord(
    date: string,
    startTime: string,
    endTime: string,
    overtimeHours: real,
    totalMinutes: int)

  /** The string whose hash is the record's hash: date, start and end joined by "_". */
  function HashKey(r: AttendanceRecord): string
  {
    Text.Join([r.date, r.startTime, r.endTime], "_")
  }

  /**
   * Records that agree on date, start and end share a hash key; for dates
   * and times without "_" (such as YYYY/MM/DD and HH:MM:SS) the key also
   * determines those three fields.
   */
  lemma HashKeyIdentity(a: AttendanceRecord, b: AttendanceRecord)
    requires '_' !in a.date && '_' !in a.startTime && '_' !in a.endTime
    requires '_' !in b.date && '_' !in b.startTime && '_' !in b.endTime
    ensures HashKey(a) == HashKey(b) <==>
            (a.date == b.date && a.startTime == b.startTime && a.endTime == b.endTime)
  {
    var pa := [a.date, a.startTime, a.endTime];
    var pb := [b.date, b.startTime, b.endTime];
    Text.SplitJoin(pa, '_');
    Text.SplitJoin(pb, '_');
    if HashKey(a) == HashKey(b) {
      assert pa == Text.Split(HashKey(a), '_') == pb;
      assert pa[0] == pb[0] && pa[1] == pb[1] && pa[2] == pb[2];
    }
  }

  datatype UnifiedOvertimeRecord = UnifiedOvertimeRecord(
    date: string,
    punchStart: Option<string>,
    punchEnd: Option<string>,
    calculatedOvertimeHours: real,
    hasAnomaly: bool,
    anomalyDescription: Option<string>,
    submitted: bool,
    submissionContent: Option<string>,
    submissionStatus: Option<string>,
    submissionType: Option<string>,
    reportedOvertimeHours: Option<real>,
    monthlyTotal: Option<real>,
    quarterlyTotal: Option<real>)

  /** An anomaly day with computed overtime that has not been reported yet. */
  predicate NeedsSubmission(r: UnifiedOvertimeRecord)
  {
    r.hasAnomaly && !r.submitted && r.calculatedOvertimeHours > 0.0
  }

  predicate IsPendingApproval(r: UnifiedOvertimeRecord)
  {
    r.submitted && r.submissionStatus == Some(PENDING_STATUS)
  }

  predicate IsApproved(r: UnifiedOvertimeRecord)
  {
    r.submitted && r.submissionStatus == Some(APPROVED_STATUS)
  }

  function Abs(x: real): real
  {
    if x < 0.0 then -x else x
  }

  /** Reported hours that are present and non-zero (Python truthiness of the optional float). */
  predicate HasReportedHours(r: UnifiedOvertimeRecord)
  {
    r.reportedOvertimeHours.Some? && r.reportedOvertimeHours.value != 0.0
  }

  /** Calculated and reported hours differ by more than 0.1 on a submitted record. */
  predicate HasDiscrepancy(r: UnifiedOvertimeRecord)
  {
    if !r.submitted || !HasReportedHours(r) then false
    else Abs(r.calculatedOvertimeHours - r.reportedOvertimeHours.value) > DISCREPANCY_THRESHOLD
  }

  predicate IsSubmitted(r: UnifiedOvertimeRecord)
  {
    r.submitted
  }

  predicate IsNotSubmitted(r: UnifiedOvertimeRecord)
  {
    !r.submitted
  }

  predicate IsAnomaly(r: UnifiedOvertimeRecord)
  {
    r.hasAnomaly
  }

  predicate HasCalculatedOvertime(r: UnifiedOvertimeRecord)
  {
    r.calculatedOvertimeHours > 0.0
  }

  /** A record that still needs submitting is neither pending approval nor approved. */
  lemma NeedsSubmissionExcludesApproval(r: UnifiedOvertimeRecord)
    ensures NeedsSubmission(r) ==> !IsPendingApproval(r) && !IsApproved(r)
    ensures !(IsPendingApproval(r) && IsApproved(r))
  {
  }

  /** When is a discrepancy reported: exactly the submitted records with non-zero reported hours off by more than 0.1. */
  lemma DiscrepancyIff(r: UnifiedOvertimeRecord)
    ensures HasDiscrepancy(r) <==>
            r.submitted && r.reportedOvertimeHours.Some? && r.reportedOvertimeHours.value != 0.0 &&
            (r.calculatedOvertimeHours - r.reportedOvertimeHours.value > 0.1 ||
             r.reportedOvertimeHours.value - r.calculatedOvertimeHours > 0.1)
  {
  }

  /** A present, non-empty string (Python truthiness of an optional string). */
  predicate NonEmpty(s: Option<string>)
  {
    s.Some? && s.value != ""
  }

  /** `time_range`: "start~end" when both punches are present and non-empty. */
  function TimeRange(r: UnifiedOvertimeRecord): (s: string)
    ensures !(NonEmpty(r.punchStart) && NonEmpty(r.punchEnd)) ==> s == NO_PUNCH
  {
    if NonEmpty(r.punchStart) && NonEmpty(r.punchEnd)
    then r.punchStart.value + "~" + r.punchEnd.value
    else NO_PUNCH
  }

  /** Splitting a time range on "~" gives back the two punches. */
  lemma TimeRangeSplits(r: UnifiedOvertimeRecord)
    requires NonEmpty(r.punchStart) && NonEmpty(r.punchEnd)
    requires '~' !in r.punchStart.value && '~' !in r.punchEnd.value
    ensures Text.Split(TimeRange(r), '~') == [r.punchStart.value, r.punchEnd.value]
  {
    var parts := [r.punchStart.value, r.punchEnd.value];
    Text.SplitJoin(parts, '~');
    assert Text.Join(parts, "~") == TimeRange(r);
  }
}
