/** The system settings the core reads: the portal addresses and the fixed policy values. */
module Settings {
  import opened Wrappers

  const SSP_BASE_URL := "https://ssp.teco.com.tw"
  /** The attendance page: punch log, anomaly list and leave statistics. */
  const ATTENDANCE_URL := "/FW99001Z.aspx"
  const OVERTIME_REPORT_URL := "/FW21001Z.aspx?Kind=B"
  /** The personal-record page. */
  const OVERTIME_STATUS_URL := "/FW21003Z.aspx"

  /**
   * Attribute lookup on the settings object for the address attributes:
   * the value of a declared one, `None` (Python's `AttributeError`) for
   * any other name.
   */
  function UrlAttribute(name: string): (v: Option<string>)
    ensures v.Some? <==> name in {"SSP_BASE_URL", "ATTENDANCE_URL", "OVERTIME_REPORT_URL", "OVERTIME_STATUS_URL"}
  {
    if name == "SSP_BASE_URL" then Some(SSP_BASE_URL)
    else if name == "ATTENDANCE_URL" then Some(ATTENDANCE_URL)
    else if name == "OVERTIME_REPORT_URL" then Some(OVERTIME_REPORT_URL)
    else if name == "OVERTIME_STATUS_URL" then Some(OVERTIME_STATUS_URL)
    else None
  }

  /** Lunch break deducted from every working day, in minutes. */
  const LUNCH_BREAK := 70
  /** The regular working time of a day, in minutes. */
  const WORK_HOURS := 480
  /** Rest time deducted before overtime starts, in minutes. */
  const REST_TIME := 30
  /** The largest overtime credited for one day, in hours. */
  const MAX_OVERTIME_HOURS := 4
  /** The hour from which a late arrival is counted. */
  const STANDARD_START_HOUR := 9
}
