/** A filed overtime request as listed on the personal-record page, and its summary. */
module PersonalRecords {
  /**
   * One filed request. `reportType` is the overtime/compensatory-leave kind;
   * hours are in hours, the totals are the running month and quarter sums.
   */
  datatype PersonalRecord = PersonalRecord(
    date: string,
    content: string,
    status: string,
    reportType: string,
    overtimeHours: real,
    monthlyTotal: real,
    quarterlyTotal: real)

  datatype PersonalRecordSummary = PersonalRecordSummary(
    totalRecords: nat,
    totalOvertimeHours: real,
    averageOvertimeHours: real,
    maxOvertimeHours: real,
    currentMonthTotal: real,
    currentQuarterTotal: real)

  /** `PersonalRecordSummary()`: every field at its default of zero. */
  const EMPTY_SUMMARY := PersonalRecordSummary(0, 0.0, 0.0, 0.0, 0.0, 0.0)

  function Hours(r: PersonalRecord): real
  {
    r.overtimeHours
  }
}
