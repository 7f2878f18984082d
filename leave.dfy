/** A leave entry (type, days, hours) from the leave table. */
module Leave {
  import Text

  const ANNUAL := "特休"
  const SICK := "病假"
  const PERSONAL := "事假"

  datatype LeaveRecord = LeaveRecord(leaveType: string, days: int, hours: int)

  /** `total_hours`: a day counts as 8 hours. */
  function TotalHours(r: LeaveRecord): (h: int)
    ensures h - r.hours == 8 * r.days
    ensures r.days >= 0 && r.hours >= 0 ==> h >= r.hours && h >= 8 * r.days
  {
    r.days * 8 + r.hours
  }

  predicate IsAnnualLeave(r: LeaveRecord)
  {
    Text.Contains(r.leaveType, ANNUAL)
  }

  predicate IsSickLeave(r: LeaveRecord)
  {
    Text.Contains(r.leaveType, SICK)
  }

  predicate IsPersonalLeave(r: LeaveRecord)
  {
    Text.Contains(r.leaveType, PERSONAL)
  }

  /** The three leave kinds are substring tests on the leave type. */
  lemma LeaveKinds(r: LeaveRecord)
    ensures IsAnnualLeave(r) <==> exists i :: 0 <= i <= |r.leaveType| && Text.StartsWith(r.leaveType[i..], ANNUAL)
    ensures IsSickLeave(r) <==> exists i :: 0 <= i <= |r.leaveType| && Text.StartsWith(r.leaveType[i..], SICK)
    ensures IsPersonalLeave(r) <==> exists i :: 0 <= i <= |r.leaveType| && Text.StartsWith(r.leaveType[i..], PERSONAL)
  {
    Text.ContainsIff(r.leaveType, ANNUAL);
    Text.ContainsIff(r.leaveType, SICK);
    Text.ContainsIff(r.leaveType, PERSONAL);
  }

  /** The part of `__str__` shared by both forms. */
  function DaysPart(r: LeaveRecord): string
  {
    r.leaveType + ": " + Text.IntToString(r.days) + " 天"
  }

  /** `__str__`: the hours are appended only when positive. */
  function Describe(r: LeaveRecord): (s: string)
    ensures Text.StartsWith(s, DaysPart(r))
    ensures r.hours > 0 ==> s[|DaysPart(r)|..] == " " + Text.IntToString(r.hours) + " 小時"
    ensures r.hours <= 0 ==> s == DaysPart(r)
  {
    if r.hours > 0 then
      var s := DaysPart(r) + " " + Text.IntToString(r.hours) + " 小時";
      assert s[..|DaysPart(r)|] == DaysPart(r);
      assert s[|DaysPart(r)|..] == " " + Text.IntToString(r.hours) + " 小時";
      s
    else DaysPart(r)
  }
}
