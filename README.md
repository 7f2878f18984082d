# Overtime assistant: the reconciliation pipeline in Dafny

This project models the core of a desktop assistant. The assistant reads an
employee's attendance pages from the company self-service portal. It works
out how much overtime each day carries and matches those days against the
overtime requests already filed. It also checks whether a newer release of
itself exists.

The model covers:

- **Page parsers.** Table rows have already been pulled out of the portal
  pages (module `Markup`). They become punch, leave, quota and
  attendance-anomaly records (`AttendanceParser`). They also become filed
  personal records (`PersonalRecordParser`, plus the older readers in
  `PersonalRecordService` and `OvertimeStatusService`). This includes the
  number readers for "1 小時 33 分鐘"-style durations and for
  minutes-or-hours cells.
- **The overtime calculator** (`Calculator`). Each entry is a date plus a
  `start~end` clock range. Its overtime is the time since the effective
  start, less the lunch break (70 min), the working time (480 min) and the
  rest time (30 min). That value is rounded to hundredths of an hour and
  clamped to [0, 4]. A start after 09:00 counts from 09:00.
- **The reconciliation service** (`DataSync`).
  - Anomaly records and personal records are merged into one unified record
    per date, newest first.
  - Statistics are computed over the merged records, along with their date
    range.
  - The `DataSyncService` class keeps a snapshot cache. It serves the cache
    while it is fresh and fetches again when a refresh is forced. It falls
    back to a stale cache when a request fails. An incremental refresh
    updates only the submission fields of the cached records.
- **The record types and their derived properties.** These are the unified
  record predicates, snapshot filters and ratios, report aggregates, and the
  leave, quota and punch helpers (`Attendance`, `Snapshot`, `Report`,
  `Leave`, `Quota`, `Punch`, `PersonalRecords`).
- **Versions and the update check** (`Versions`, `UpdateService`). This is
  semantic-version parsing and ordering, the choice of download asset, the
  age limit of the update cache, and the outcome of a release query.

**Parameters and representations**

- The network, the clock and the thread pool become explicit parameters:
  the outcome of each page request, `now` in seconds and `today` as text.
- Dates are opaque strings ordered lexicographically (`Text.LexLe`), as the
  source orders them. The calculator is the exception: it orders by the
  parsed calendar date.
- Hours are `real` values, and integers are unbounded.

**Inconsistencies in the source, kept as the code has them**

- The personal-record data class declares its type field as `申報`. Every
  reader and writer of it uses `report_type`, so the model calls the field
  `reportType`.
- The application settings declare no `CACHE_DURATION_SECONDS`. The sync
  cache therefore uses the `getattr` default of 300 seconds.
- The update check serves a valid cache before any request, although one
  test expects two queries.
- `is_approved` compares the status with "完成". The portal's statuses read
  "簽核完成", so parsed records are never approved; the model keeps that.
- `parse_anomaly_records` never sets `overtime_hours`. Merged records
  therefore always have 0 calculated hours (proved as
  `DataSync.ParsedPagesHaveNoCalculatedHours`).
- `sync_overtime_status` does not recompute the statistics, so they go
  stale.
- The personal-record URL attribute in the sync service is a defect. It is
  described under "Findings"; the service model uses the corrected fetch.

## Model

| member | source | states |
|---|---|---|
| Attendance.HashKeyIdentity | src/models/attendance.py:33-35 | two attendance records hash alike exactly when their date, start time and end time agree (for fields free of the separator) |
| Attendance.NeedsSubmissionExcludesApproval | src/models/attendance.py:76-93 | a record that still needs filing is neither pending approval nor approved, and no record is both pending and approved |
| Attendance.DiscrepancyIff | src/models/attendance.py:95-100 | a discrepancy holds exactly for a submitted record with non-zero reported hours whose calculated hours differ from them by more than 0.1 in either direction |
| Attendance.TimeRange | src/models/attendance.py:102-107 | without both punch times the range text is "無打卡記錄" |
| Attendance.TimeRangeSplits | src/models/attendance.py:102-107 | with both punch times, splitting the range text on '~' gives back exactly the start and the end |
| Punch.HasPunchIffCount | src/models/punch.py:22-30 | a punch record has a punch exactly when its punch count is positive |
| Punch.Describe | src/models/punch.py:18-20 | the text is the date and ": ", followed by the times joined with ", ", or by "無打卡記錄" when there are none |
| Leave.TotalHours | src/models/leave.py:23-26 | the total is eight hours per day plus the hours, and is at least each part when both are non-negative |
| Leave.LeaveKinds | src/models/leave.py:28-41 | annual, sick and personal leave hold exactly when "特休", "病假" or "事假" occurs somewhere in the leave type |
| Leave.Describe | src/models/leave.py:18-21 | the text starts with the days part, and carries " N 小時" after it exactly when the hours are positive |
| Quota.DefaultQuota | src/models/quota.py:6-16 | the default quota has all three fields 0 |
| Quota.OvertimeThresholdHours | src/models/quota.py:26-28 | the threshold in hours times 60 is the threshold in minutes |
| Quota.DefaultQuotaEmpty | src/models/quota.py:6-39 | the default quota has no annual or compensatory leave and a zero threshold |
| Snapshot.EmptyStatistics | src/models/snapshot.py:13-39 | empty statistics keep the date range and have every count and total 0 |
| Snapshot.AverageOvertimePerDay | src/models/snapshot.py:41-46 | the average is 0 with no overtime days, else it times the day count is the total |
| Snapshot.SubmissionRate | src/models/snapshot.py:48-53 | the rate is 1 with no overtime, else it times the total is the submitted hours |
| Snapshot.SubmissionRateBounded | src/models/snapshot.py:48-53 | while submitted hours lie between 0 and the total, the rate lies in [0, 1] |
| Snapshot.FreshnessWindow | src/models/snapshot.py:99-102 | freshness is lost for good once lost, a snapshot is fresh when just fetched, and is stale from fetch time plus the maximum age on (strict) |
| Snapshot.HasDataIffCount | src/models/snapshot.py:104-112 | a snapshot has data exactly when its record count is positive, that is when it holds a record |
| Snapshot.FirstIndexOfDate | src/models/snapshot.py:114-126 | the index found is the first record with that date, and none is found exactly when no record has it |
| Snapshot.RecordByDate | src/models/snapshot.py:114-126 | the record returned is the first one with that date, and none is returned exactly when no record has it |
| Snapshot.FiltersSelect | src/models/snapshot.py:128-138 | the pending, anomaly and submitted lists hold exactly the records that need filing, have an anomaly, or are submitted, keeping the records' order |
| Snapshot.PendingWithinAnomalies | src/models/snapshot.py:128-138 | every pending record is an anomaly record and not a submitted one, so there are no more pending than anomaly records |
| Report.OvertimeDays | src/models/report.py:17-25 | the overtime days never exceed the total days, and are zero exactly when no record has positive hours |
| Report.TotalOvertimeHoursBounds | src/models/report.py:27-30 | with no negative hours the total is non-negative and at least the hours of every record |
| Report.TotalAtLeastEach | src/models/report.py:27-30 | the same bound for any list of records, by induction |
| Report.AverageOvertimeHours | src/models/report.py:32-37 | the average is 0 for an empty report, else it times the number of days is the total |
| Report.ArgMax | src/models/report.py:39-52 | the position found has the largest hours in the prefix, and every earlier record has strictly fewer |
| Report.MaxOvertimeHours | src/models/report.py:39-44 | the maximum is 0 for an empty report, else it is some record's hours and no record exceeds it |
| Report.MaxOvertimeDate | src/models/report.py:46-52 | the date is "" for an empty report, else the date of the first record reaching the maximum |
| Report.ToSubmissionRecords | src/models/report.py:65-87 | the submissions number the overtime days and keep the date and hours of the records with positive hours, in order, with an empty description and both flags set |
| Calculator.ParseClock | src/core/calculator.py:44-47 | a parsed `HH:MM:SS` time is a second of the day, below 24·3600 |
| Calculator.ParseClockText | src/core/calculator.py:44-47 | a well-formed clock text parses to 3600·h + 60·m + s |
| Calculator.ClockTextOfParse | src/core/calculator.py:44-47 | a text that parses is the clock text of its value, so the parse is one-to-one |
| Calculator.DaysInMonth | src/core/calculator.py:44-47 | every month has between 28 and 31 days |
| Calculator.ParseDate | src/core/calculator.py:44-47 | a parsed `%Y/%m/%d` date has a year from 1, a month in 1..12 and a day in 1..31 |
| Calculator.NewerOrSameIsPreorder | src/core/calculator.py:96 | the newest-first date order is total and transitive, so sorting by it is well defined |
| Calculator.Round2 | src/core/calculator.py:68 | rounding to two decimals moves the value by at most half a hundredth |
| Calculator.TruncMinutes | src/core/calculator.py:62-81 | the whole minutes truncate toward zero, for negative elapsed times too |
| Calculator.EffectiveStart | src/core/calculator.py:50-59 | the counted start is the clock-in time or 09:00, whichever is earlier |
| Calculator.OvertimeHoursOf | src/core/calculator.py:62-74 | the daily overtime always lies in [0, 4] |
| Calculator.OvertimeHoursRounded | src/core/calculator.py:62-74 | between the clamps the hours are within half a hundredth of (minutes − 580)/60; far below they are 0, far above they are 4 |
| Calculator.CalculateRecord | src/core/calculator.py:31-84 | a record is made only from an entry with a date and a range that splits in two, whose date and both times parse; its date is the entry's and its hours lie in [0, 4] |
| Calculator.CalculateRecordParts | src/core/calculator.py:35-84 | for `a~b` with a valid date and times, the record keeps the date and the stripped times, and takes its hours and whole minutes from the end less the effective start |
| Calculator.MalformedRangeSkipped | src/core/calculator.py:35-38 | a range that does not split into exactly two parts is skipped |
| Calculator.RangeWithoutTildeSkipped | src/core/calculator.py:35-38 | a range without '~' is skipped |
| Calculator.UnparsableSkipped | src/core/calculator.py:31-93 | a missing key, an unparsable date or an unparsable time skips the entry without stopping the batch |
| Calculator.LateStartCountsFromStandard | src/core/calculator.py:50-59 | any clock-in at or after 09:00 gives the same overtime as clocking in at 09:00 |
| Calculator.LateStartExample | src/core/calculator.py:50-68 | 09:15~19:30 gives 0.83 hours |
| Calculator.CapExample | src/core/calculator.py:71-74 | 08:00~22:00 is capped at exactly 4 hours |
| Calculator.ShortDayExample | src/core/calculator.py:71-72 | 08:30~18:00 falls short of the allowances and gives 0 hours |
| Calculator.LateStartRecord | src/core/calculator.py:35-84 | the full record of 09:15~19:30 has 0.83 hours and 630 whole minutes |
| Calculator.CalculatedMembership | src/core/calculator.py:29-93 | the batch holds exactly the records some entry calculates to, never more than the entries |
| Calculator.CalculateOvertime | src/core/calculator.py:17-98 | the report holds the calculated records sorted newest date first, stamped with the given time |
| Calculator.ReportIsSortedPermutation | src/core/calculator.py:84-98 | the report is a permutation of the calculated records, sorted newest first, each with hours in [0, 4] |
| Calculator.ReportSameDayInOrder | src/core/calculator.py:96 | the sort is stable: the records of one calendar day keep the order in which they were calculated |
| Versions.FromString | src/core/version.py:21-46 | a parsed version came from text that, once stripped of whitespace and leading 'v's, has exactly three '.'-separated parts |
| Versions.ToString | src/core/version.py:48-50 | the version text is non-empty and starts with neither whitespace nor 'v' |
| Versions.RoundTrip | src/core/version.py:21-50 | parsing the text of a version gives back that version |
| Versions.PrefixIgnored | src/core/version.py:36 | leading whitespace and any number of leading 'v's are ignored |
| Versions.NoDotsRejected | src/core/version.py:39-41 | text without a '.' after cleaning is rejected |
| Versions.WrongPartCountRejected | src/core/version.py:39-41 | text with other than three parts is rejected |
| Versions.Trichotomy | src/core/version.py:59-79 | exactly one of less, equal and greater holds for any two versions |
| Versions.LessTransitive | src/core/version.py:59-61 | the version order is transitive |
| Versions.OrderRelations | src/core/version.py:59-73 | ≤ is not >, ≥ is not <, and > is < reversed |
| Versions.EqualsIff | src/core/version.py:75-79 | equality holds exactly against the same version, and never against a non-version |
| Versions.GetCurrentVersion | src/core/version.py:82-84 | the current version prints as the version constant |
| Versions.CurrentVersionParses | src/core/version.py:82-84 | the version constant parses to the current version |
| Versions.IsNewerVersionOf | src/core/version.py:87-104 | for version texts, "newer" is exactly the version order, and no version is newer than itself |
| Versions.IsNewerVersionAsymmetric | src/core/version.py:87-104 | of two texts at most one is newer than the other, and none is newer than itself |
| Versions.IsNewerVersionRejectsUnparsable | src/core/version.py:98-104 | if either text fails to parse, nothing is newer |
| UpdateService.FirstExe | src/services/update_service.py:147-153 | the index found is the first asset whose lower-cased name ends in ".exe", and none is found exactly when no asset has such a name |
| UpdateService.WindowsExeUrlChoice | src/services/update_service.py:137-156 | the download URL is the first .exe asset's URL (or ""), else the release page, else the project's releases page |
| UpdateService.FirstExeIsFirst | src/services/update_service.py:147-153 | an .exe asset with no earlier one is the asset chosen |
| UpdateService.CacheWindow | src/services/update_service.py:178-195 | with a readable timestamp the update cache is valid exactly while younger than its duration (strictly) |
| UpdateService.MissingTimestampIsStale | src/services/update_service.py:178-195 | a missing, empty or unreadable timestamp makes the cache invalid |
| UpdateService.CacheServedFirst | src/services/update_service.py:69-73 | a valid cache is returned unchanged, whatever the server would have answered |
| UpdateService.FailuresGiveNothing | src/services/update_service.py:83-135 | a 404, an error status, a failed request, a missing body or an empty tag gives no information |
| UpdateService.FreshInformation | src/services/update_service.py:87-112 | a successful query reports the tag without its 'v's as the latest version, the update flag as "the latest is newer than the running version", the chosen download URL and the query time |
| UpdateService.NewerTagHasUpdate | src/services/update_service.py:91-99 | a release tagged with a newer version reports an update |
| UpdateService.SameTagNoUpdate | src/services/update_service.py:91-99 | a release tagged with the running version reports no update |
| Settings.UrlAttribute | src/config/settings.py:11-14 | the settings have exactly four URL attributes |
| AttendanceParser.ExtractNumber | src/parsers/attendance_parser.py:324-333 | text without a digit reads as 0 |
| AttendanceParser.ExtractNumberAt | src/parsers/attendance_parser.py:324-333 | the number read is the value of the first run of digits |
| AttendanceParser.ExtractTimeToMinutes | src/parsers/attendance_parser.py:336-357 | text with neither marker reads as 0 minutes |
| AttendanceParser.ReadsHoursAndMinutes | src/parsers/attendance_parser.py:336-357 | "h 小時 m 分鐘" reads as 60·h + m minutes |
| AttendanceParser.ReadsMinutesOnly | src/parsers/attendance_parser.py:336-357 | "m 分鐘" reads as m minutes |
| AttendanceParser.HoursAndMinutesExample | src/parsers/attendance_parser.py:336-357 | "1 小時 33 分鐘" reads as 93 minutes |
| AttendanceParser.MinutesOnlyExample | src/parsers/attendance_parser.py:336-357 | "45 分鐘" reads as 45 minutes |
| AttendanceParser.PunchEntryOf | src/parsers/attendance_parser.py:71-86 | a punch is taken exactly from a non-header, non-pager row with at least two cells whose date and time texts are non-empty |
| AttendanceParser.GroupPunches | src/parsers/attendance_parser.py:80-92 | there is one punch record per distinct date |
| AttendanceParser.ParsePunchRecords | src/parsers/attendance_parser.py:37-95 | the loop over the rows gives the punches grouped by date |
| AttendanceParser.DistinctDatesSpec | src/parsers/attendance_parser.py:80-92 | the record dates are pairwise distinct and are exactly the dates of the accepted punches |
| AttendanceParser.GroupingKeepsEveryPunch | src/parsers/attendance_parser.py:80-92 | the records hold as many times in total as there were accepted punch rows |
| AttendanceParser.DatesInFirstAppearanceOrder | src/parsers/attendance_parser.py:80-92 | the records follow the order in which their dates first appear |
| AttendanceParser.PunchRecordTimes | src/parsers/attendance_parser.py:80-92 | each record's times are exactly that date's times, sorted ascending |
| AttendanceParser.LeaveOf | src/parsers/attendance_parser.py:147-158 | a leave record has a non-empty type and positive days or hours |
| AttendanceParser.MissingSpanIsZero | src/parsers/attendance_parser.py:147-156 | a missing day or hour span reads as 0 |
| AttendanceParser.ParseLeaveRecords | src/parsers/attendance_parser.py:98-161 | the loop gives the leave rows that pass the filter, each with a type and positive days or hours |
| AttendanceParser.ParseQuota | src/parsers/attendance_parser.py:164-240 | the loop gives the quota read from the rows, or none without the table |
| AttendanceParser.QuotaDefaultsToZero | src/parsers/attendance_parser.py:206-231 | a field no row sets is 0 |
| AttendanceParser.QuotaLastRowWins | src/parsers/attendance_parser.py:210-231 | a field takes the value of the last row that sets it |
| AttendanceParser.AnomalyOf | src/parsers/attendance_parser.py:286-310 | an anomaly record has a non-empty date and description, and no overtime hours |
| AttendanceParser.AnomaliesWellFormed | src/parsers/attendance_parser.py:286-310 | the same holds for every record read from a row list |
| AttendanceParser.ParseAnomalyRecords | src/parsers/attendance_parser.py:243-313 | the loop gives the anomaly rows that pass the filter, each well formed |
| AttendanceParser.AnomalyRowFilter | src/parsers/attendance_parser.py:288-305 | a row is kept exactly when it is neither a header nor a pager row, has at least three cells, a non-empty work date and a non-empty description |
| AttendanceParser.MissingTablesGiveNothing | src/parsers/attendance_parser.py:62-280 | without its table each list parser gives [] and the quota parser gives none |
| PersonalRecordParser.ParseHoursMinutes | src/parsers/personal_record_parser.py:240-254 | a whole number above 10 is minutes and becomes that number over 60 hours |
| PersonalRecordParser.ParseHoursSmallWhole | src/parsers/personal_record_parser.py:250-254 | a whole number up to 10 is hours already: the threshold is strict |
| PersonalRecordParser.ParseHoursOfDecimal | src/parsers/personal_record_parser.py:240-254 | a clean decimal text is its value in hours, except that a whole value above 10 is minutes and is divided by 60 |
| PersonalRecordParser.ParseHoursKeepsFraction | src/parsers/personal_record_parser.py:248-254 | a value with a fractional part stays as is, even above 10 |
| PersonalRecordParser.ParseHoursIgnoresCommas | src/parsers/personal_record_parser.py:242 | a comma anywhere in the text changes nothing |
| PersonalRecordParser.ParseHoursBlank | src/parsers/personal_record_parser.py:242-246 | blank text is no hours |
| PersonalRecordParser.ParseHoursExamples | src/parsers/personal_record_parser.py:232-238 | the docstring's whole-number examples: the text of 120 is 2.0 hours and the text of 5 is 5.0 |
| PersonalRecordParser.ParseHoursBlankExamples | src/parsers/personal_record_parser.py:232-246 | the docstring's blank examples: "" and "  " are 0.0 hours |
| PersonalRecordParser.ExampleTexts | src/parsers/personal_record_parser.py:232-238 | the numbers in those examples print as "120", "5", "90" and "45" |
| PersonalRecordParser.ParseHoursTestExamples | tests/test_parsers.py:147-163 | the text of 90 is 1.5 hours and the text of 45 is 0.75 |
| PersonalRecordParser.NotANumber | src/parsers/personal_record_parser.py:248-258 | text that is no number reads as 0.0 hours, as the caught ValueError does |
| PersonalRecordParser.ReportDecision | src/parsers/personal_record_parser.py:146-163 | the hours are non-negative, are positive exactly when one of the two hour values is, come from one of them, and positive hours always carry a type |
| PersonalRecordParser.ReportDecisionPrefersOvertime | src/parsers/personal_record_parser.py:146-163 | overtime hours win over change hours; the status text names the type, else "加班" or "調休"; with no hours the type is the first non-empty status |
| PersonalRecordParser.RecordOf | src/parsers/personal_record_parser.py:85-205 | a row gives a record exactly when it has the date span for its position; the date is that span's text and the hours are non-negative |
| PersonalRecordParser.RecordContentAndStatus | src/parsers/personal_record_parser.py:98-190 | the description is a non-empty title, else the span's text, else ""; the status is the span's text with every "<br>" turned into a space, unchanged when it holds none, and "" without the span |
| PersonalRecordParser.MissingSpansAreZero | src/parsers/personal_record_parser.py:165-192 | missing month or quarter totals are 0, and a missing status span is "" |
| PersonalRecordParser.ParseRecords | src/parsers/personal_record_parser.py:28-212 | the loop gives the records of the data rows, each read with its position |
| PersonalRecordParser.RecordsMembership | src/parsers/personal_record_parser.py:82-96 | a record comes from exactly the data rows with their date span, each read at its own position even after a skipped row, never more records than rows |
| PersonalRecordParser.MissingTableGivesNothing | src/parsers/personal_record_parser.py:76-79 | without the table there are no records |
| PersonalRecordService.LegacyDecision | src/services/personal_record_service.py:187-196 | the hours are non-negative, are positive exactly when one of the two hour values is, and the type is empty exactly when there are no hours |
| PersonalRecordService.DecisionsAgreeWithoutStatus | src/services/personal_record_service.py:187-196 | without status texts the older decision equals the parser's |
| PersonalRecordService.LegacyRecordOf | src/services/personal_record_service.py:146-237 | a row gives a record exactly when it has the date span for its position |
| PersonalRecordService.MissingMinutesAgree | src/services/personal_record_service.py:175-185 | a missing minutes span reads "0" here and "" in the parser, and both are no hours |
| PersonalRecordService.LegacyAgreesWithParser | src/services/personal_record_service.py:146-237 | the older reader keeps the same rows as the parser and agrees on every field but the type; without status spans the records are equal |
| PersonalRecordService.ParsePersonalRecordsTable | src/services/personal_record_service.py:113-243 | the loop gives the older reader's records of the data rows |
| PersonalRecordService.LegacyMembership | src/services/personal_record_service.py:144-156 | a record comes from exactly the data rows with their date span at their own position |
| PersonalRecordService.MaxHours | src/services/personal_record_service.py:289 | the maximum is some record's hours, and no record exceeds it |
| PersonalRecordService.CalculateSummary | src/services/personal_record_service.py:272-303 | the summary is all zero for no records; otherwise it counts them, sums their hours, has average times count equal to the total and the largest hours as maximum, and takes both totals from the last record |
| PersonalRecordService.SumAtMostCountTimesMax | src/services/personal_record_service.py:287-289 | the total never exceeds the count times any bound on the hours |
| PersonalRecordService.AverageAtMostMax | src/services/personal_record_service.py:287-289 | the average never exceeds the maximum |
| PersonalRecordService.SummaryOfReadRecords | src/services/personal_record_service.py:187-289 | records read from rows have no negative hours, so their summary total is non-negative |
| OvertimeStatusService.MinutesAreRaw | src/services/overtime_status_service.py:136-155 | minutes are kept as written: "90" is 90, not converted to hours |
| OvertimeStatusService.StatusRecordOf | src/services/overtime_status_service.py:116-170 | a row is kept exactly when it has its date span and both minute texts are blank or numeric; the status defaults to "未知" |
| OvertimeStatusService.MissingMinutesAreZero | src/services/overtime_status_service.py:127-155 | a dated row without minute spans is kept with zero minutes, and with "未知" as its status when that span is missing too |
| OvertimeStatusService.MapOfKeys | src/services/overtime_status_service.py:165 | the dictionary's keys are exactly the records' dates |
| OvertimeStatusService.MapOfLastWins | src/services/overtime_status_service.py:165 | each key maps to a record with that date that no later record repeats |
| OvertimeStatusService.ParseStatusTable | src/services/overtime_status_service.py:94-176 | the loop gives the dictionary of the rows after the header, each read with its position |
| OvertimeStatusService.ReaderKeys | src/services/overtime_status_service.py:114-165 | for any row reader, a date is a key exactly when some kept row has it |
| OvertimeStatusService.ReaderValues | src/services/overtime_status_service.py:114-165 | for any row reader, each value is some row's record under its own date |
| OvertimeStatusService.ReaderLastWins | src/services/overtime_status_service.py:158-165 | a kept row whose date no later row repeats is the value under that date |
| OvertimeStatusService.StatusRecordsKeys | src/services/overtime_status_service.py:114-165 | the keys are the dates of the kept rows after the header, and each value is one of those rows' records |
| OvertimeStatusService.StatusLastRowWins | src/services/overtime_status_service.py:158-165 | for duplicate dates the later row wins |
| OvertimeStatusService.MissingTableGivesNothing | src/services/overtime_status_service.py:108-111 | without the table the dictionary is empty |
| OvertimeStatusService.FetchSubmittedRecords | src/services/overtime_status_service.py:53-92 | a failed request or a missing table gives an empty dictionary, and every key is its record's date |
| DataSync.ByDateKeys | src/services/data_sync_service.py:433 | the date index has exactly the personal records' dates as keys, each mapping to one of them with that date |
| DataSync.ByDateLastWins | src/services/data_sync_service.py:433 | the date index holds the last personal record with each date |
| DataSync.PunchBoundsOf | src/services/data_sync_service.py:444-452 | start and end are both found or both missing, and are found only when the stripped range splits in two |
| DataSync.PunchRangeSplits | src/services/data_sync_service.py:444-452 | a range `a~b` gives the stripped `a` and `b` |
| DataSync.PunchRangeWithoutTilde | src/services/data_sync_service.py:448 | a range without '~' gives no punch times |
| DataSync.PunchRangeWithTwoTildes | src/services/data_sync_service.py:449-450 | a range with three parts gives no punch times |
| DataSync.PunchBoundsOfTimeRange | src/services/data_sync_service.py:444-452 | reading a record's own time-range text gives back its punch times |
| DataSync.MergeOvertimeData | src/services/data_sync_service.py:414-524 | the two loops and the sort give the merged list |
| DataSync.PersonalPartSpec | src/services/data_sync_service.py:485-513 | the supplements are one per personal record whose date is not an anomaly date |
| DataSync.MergedIsSortedPermutation | src/services/data_sync_service.py:433-516 | the merged list permutes the anomaly records followed by the supplements, has |anomalies| + |supplements| records, and is sorted newest date first |
| DataSync.MergedSameDateInOrder | src/services/data_sync_service.py:516 | the sort is stable: the merged records of one date keep the loops' order, the anomaly record before the supplements |
| DataSync.MergedMembers | src/services/data_sync_service.py:414-524 | the sort adds and drops nothing |
| DataSync.MergedAnomaly | src/services/data_sync_service.py:439-482 | every anomaly gives a record with its date, its description and punch range, the anomaly flag set, and marked submitted exactly when some personal record has that date |
| DataSync.MergedAnomalyMatched | src/services/data_sync_service.py:441-469 | a matched anomaly takes all six submission fields from the last personal record with its date |
| DataSync.MergedAnomalyUnmatched | src/services/data_sync_service.py:461-469 | an unmatched anomaly is not submitted and has no submission fields |
| DataSync.MergedSupplement | src/services/data_sync_service.py:485-513 | a personal record on a non-anomaly date gives a submitted record without anomaly, punches or calculated hours, carrying its submission fields |
| DataSync.MergedOrigins | src/services/data_sync_service.py:414-524 | every merged record comes from an anomaly or a supplement; it has the anomaly flag exactly when its date is an anomaly date, and is submitted otherwise |
| DataSync.MergedDatesDistinct | src/services/data_sync_service.py:433-486 | when neither input repeats a date, neither does the merged list |
| DataSync.CalculateStatistics | src/services/data_sync_service.py:542-597 | the statistics keep the date range, and are the empty statistics for no records |
| DataSync.StatisticsCounts | src/services/data_sync_service.py:556-597 | the day count is the record count; the pending, discrepancy, anomaly and overtime-day counts count the records with those properties; pending plus submitted is all; there are no incomplete-punch days |
| DataSync.StatisticsPendingWork | src/models/snapshot.py:56-58 | the statistics of a record list have pending work exactly when some record is unsubmitted or has an anomaly |
| DataSync.StatisticsHours | src/services/data_sync_service.py:560-570 | the total is the calculated hours of all records, and is the submitted records' calculated hours plus the pending hours; submitted hours sum the reported hours; the pending hours lie in [0, total] |
| DataSync.MinDate | src/services/data_sync_service.py:539-540 | the earliest date is some record's date and is no later than any |
| DataSync.MaxDate | src/services/data_sync_service.py:539-540 | the latest date is some record's date and is no earlier than any |
| DataSync.CalculateDateRange | src/services/data_sync_service.py:526-540 | the range is (today, today) for no records, else runs from the earliest record date to the latest |
| DataSync.DateRangeOfSorted | src/services/data_sync_service.py:526-540 | for a newest-first list the range runs from the last record's date to the first's |
| DataSync.ParsedPagesHaveNoCalculatedHours | src/services/data_sync_service.py:454-575 | records merged from parsed pages have 0 calculated hours and never need filing, so total and pending hours and overtime days are 0 |
| DataSync.SnapshotSpansItsRecords | src/services/data_sync_service.py:104-146 | a built snapshot carries the fetch time, and statistics over its own date range, running from the oldest record to the newest, or over (today, today) when empty |
| DataSync.FetchAsWrittenNeverSucceeds | src/services/data_sync_service.py:405-412 | as written the personal-record request always fails before it is sent, so a full fetch never succeeds |
| DataSync.FetchPagesRequestsBoth | src/services/data_sync_service.py:374-412 | with the declared attribute both pages are requested at their portal URLs; the fetch succeeds exactly when both requests do, and otherwise reports the attendance error first |
| DataSync.RefreshedSpec | src/services/data_sync_service.py:206-217 | the refresh adds, drops and reorders nothing; a record with a matching personal record becomes submitted with its status and totals and keeps every other field; the rest are unchanged |
| DataSync.RefreshedIdempotent | src/services/data_sync_service.py:206-217 | refreshing twice from the same page is refreshing once |
| DataSync.RefreshedWithNothing | src/services/data_sync_service.py:206-217 | an empty personal page leaves the records as they were |
| DataSync.RefreshAfterMergeIsNoOp | src/services/data_sync_service.py:206-217 | refreshing freshly merged records from the personal records they came from changes nothing, when those records do not repeat a date |
| DataSync.DataSyncService.constructor | src/services/data_sync_service.py:50-73 | a new service has no cache or timestamp, and a maximum age of 300 seconds unless the settings give one |
| DataSync.DataSyncService.SyncAll | src/services/data_sync_service.py:75-178 | a fresh cache is served unless a refresh is forced; otherwise a successful fetch builds, stores and returns a new snapshot, valid from then until the maximum age; a failed request returns a held cache however old, and any other failure raises; a failure never changes the cache |
| DataSync.DataSyncService.SyncOvertimeStatus | src/services/data_sync_service.py:180-225 | without a cache it is a full sync; with one, only the personal page is read and the cached records are refreshed from it, their time and other parts unchanged; a failed request returns the cached records unchanged |
| DataSync.DataSyncService.ClearCache | src/services/data_sync_service.py:227-231 | both fields are dropped, so no moment has a valid cache |

## Left out

- Network and HTTP: `session.get`, `raise_for_status` and `requests.get` become outcome parameters (`PageOutcome`, `StatusFetch`, `Response`). Their timeouts, SSL verification and query parameters are not modelled.
- The two-worker thread pool: it is modelled as two results that are collected in order, attendance page first.
- HTML parsing: tables, rows, cells and spans arrive already extracted (`Markup`). A regular-expression id match becomes "the first span whose id contains the text".
- The clock: `datetime.now()` becomes `now` in seconds and `today` as text. `fetched_at` and the cache timestamp are both `now`, although the source reads the clock twice.
- `strptime`: only `%Y/%m/%d` with a four-digit year and `%H:%M:%S` with two digits per field are accepted. Single-digit fields and surrounding whitespace, which `strptime` also accepts, are not modelled.
- Python's `float()` and `int()`: the number grammar is surrounding whitespace, an optional sign, ASCII digits and (for `float()`) an optional fraction. Exponents, underscores, "inf", "nan" and non-ASCII digits are not modelled.
- PersonalRecordParser.ParseHoursExamples: the docstring's decimal examples "2.0" and "0.5" (and the tested "2.5" and "1.0") are not evaluated as constants, because evaluating the decimal arithmetic on literal text exceeds the resource bound of the proofs; the rule they follow is stated for every clean decimal text by `ParseHoursOfDecimal` and `ParseHoursKeepsFraction`.
- Calculator.Round2: rounds the exact value half up. Python rounds the nearest binary float; on ties the two can differ.
- Floating-point sums in general are exact rational sums in the model.
- Text.Lower folds ASCII letters only. That is enough for ".exe" names.
- `Settings.from_file` and the configuration file it reads: the model uses the defaults the settings class declares.
- `get_attendance_records`, `get_personal_records` and `get_punch_records` (src/services/data_sync_service.py:235-338): thin filters over `sync_all`.
- `_get_cache_age` and every log message, including the `updated_count` tally of `sync_overtime_status`, which only feeds a log line.
- The deprecation warnings, the SSL warning switch, and the update-cache file reads and writes.
- `_get_total_pages` and `_fetch_status_page` of the status service: the service no longer calls them since it requests every row at once.
- The `__str__` methods of the personal record, summary, snapshot, statistics and report types: they only format values for display. The punch and leave texts are modelled.
- DataSync.DataSyncService.SyncOvertimeStatus: the source updates the cached record objects in place, so anyone holding the old list sees the change. The model replaces the snapshot value and does not capture that aliasing.
- DataSync.DataSyncService.SyncOvertimeStatus and DataSync.DataSyncService.SyncAll: both use the corrected fetch described under "Findings". As written, every full sync fails, and every incremental sync returns the cache unchanged.
- PersonalRecords.PersonalRecord: the source class would reject the `report_type` keyword with a `TypeError`. The model gives it that field instead.

## Findings

| source | as written | input that shows it | evidently intended | confidence | as-written member | corrected member |
|---|---|---|---|---|---|---|
| src/services/data_sync_service.py:405-412 | `_fetch_personal_record_page` builds its URL from `settings.PERSONAL_RECORD_URL`. The settings class (src/config/settings.py:6-45) declares no such attribute, so the lookup raises `AttributeError` before any request. `sync_all` then re-raises it, and `sync_overtime_status` returns the cache unchanged. | any call of `sync_all` with the declared settings; the test suite hides this with a mock that sets the attribute | the personal-record page "/FW21003Z.aspx", which the settings declare as `OVERTIME_STATUS_URL` | not executed | DataSync.FetchAsWrittenNeverSucceeds | DataSync.FetchPagesRequestsBoth |
