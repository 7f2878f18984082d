/** Remaining annual and compensatory leave and the overtime threshold. */
module Quota {

  datatype AttendanceQuota = AttendanceQuota(annualLeave: int, compensatoryLeave: int, overtimeThresholdMinutes: int)

  /** The dataclass defaults. */
  function DefaultQuota(): (q: AttendanceQuota)
    ensures q.annualLeave == 0 && q.compensatoryLeave == 0 && q.overtimeThresholdMinutes == 0
  {
    AttendanceQuota(0, 0, 0)
  }

  /** `overtime_threshold_hours` */
  function OvertimeThresholdHours(q: AttendanceQuota): (h: real)
    ensures h * 60.0 == q.overtimeThresholdMinutes as real
  {
    q.overtimeThresholdMinutes as real / 60.0
  }

  predicate HasAnnualLeave(q: AttendanceQuota)
  {
    q.annualLeave > 0
  }

  predicate HasCompensatoryLeave(q: AttendanceQuota)
  {
    q.compensatoryLeave > 0
  }

  /** The default quota has neither kind of leave left and a zero threshold. */
  lemma DefaultQuotaEmpty()
    ensures !HasAnnualLeave(DefaultQuota()) && !HasCompensatoryLeave(DefaultQuota())
    ensures OvertimeThresholdHours(DefaultQuota()) == 0.0
  {
  }
}
