/** A day's clock-in/clock-out times as read from the punch table. */
module Punch {
  import Text

  const NO_PUNCH := "無打卡記錄"

  datatype PunchRecord = PunchRecord(date: string, punchTimes: seq<string>)

  /** `punch_count` */
  function PunchCount(r: PunchRecord): (n: nat)
    ensures n == |r.punchTimes|
  {
    |r.punchTimes|
  }

  /** `has_punch`: the list of times is non-empty. */
  predicate HasPunch(r: PunchRecord)
  {
    r.punchTimes != []
  }

  lemma HasPunchIffCount(r: PunchRecord)
    ensures HasPunch(r) <==> PunchCount(r) > 0
  {
  }

  /** `__str__`: the date, then the times joined by ", ", or the no-punch marker. */
  function Describe(r: PunchRecord): (s: string)
    ensures |s| >= |r.date| + 2 && s[..|r.date| + 2] == r.date + ": "
    ensures HasPunch(r) ==> s[|r.date| + 2..] == Text.Join(r.punchTimes, ", ")
    ensures !HasPunch(r) ==> s[|r.date| + 2..] == NO_PUNCH
  {
    var times := if r.punchTimes != [] then Text.Join(r.punchTimes, ", ") else NO_PUNCH;
    var s := r.date + ": " + times;
    assert s[..|r.date| + 2] == r.date + ": ";
    assert s[|r.date| + 2..] == times;
    s
  }
}
