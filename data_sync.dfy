/**
 * The reconciliation engine: the anomaly entries of the attendance page
 * and the filed requests of the personal-record page merged into unified
 * per-date records, the statistics and date range over them, and the
 * service that caches the resulting snapshot.
 */
module DataSync {
  import opened Wrappers
  import opened Text
  import opened Seqs
  import opened Markup
  import opened Attendance
  import opened Snapshot
  import opened PersonalRecords
  import AttendanceParser
  import PersonalRecordParser
  import Settings

  type AnomalyRecord = AttendanceParser.AnomalyRecord

  // ---------------------------------------------------------------- date index

  /** `{r["date"]: r for r in personal_records}`: a later record of a date replaces an earlier one. */
  function ByDate(ps: seq<PersonalRecord>): map<string, PersonalRecord>
  {
    if ps == [] then map[]
    else ByDate(ps[..|ps| - 1])[ps[|ps| - 1].date := ps[|ps| - 1]]
  }

  /** `personal_by_date.get(date)` */
  function PersonalFor(byDate: map<string, PersonalRecord>, date: string): Option<PersonalRecord>
  {
    if date in byDate then Some(byDate[date]) else None
  }

  /** The index holds exactly the dates of the records, each mapped to one of its own records. */
  lemma {:induction false} ByDateKeys(ps: seq<PersonalRecord>)
    ensures forall d :: d in ByDate(ps) <==> exists k :: 0 <= k < |ps| && ps[k].date == d
    ensures forall d :: d in ByDate(ps) ==> ByDate(ps)[d].date == d && ByDate(ps)[d] in ps
  {
    if ps != [] {
      var init := ps[..|ps| - 1];
      ByDateKeys(init);
      forall d ensures d in ByDate(ps) <==> exists k :: 0 <= k < |ps| && ps[k].date == d {
        if d in ByDate(init) {
          var k :| 0 <= k < |init| && init[k].date == d;
          assert ps[k] == init[k];
        }
        if exists k :: 0 <= k < |ps| && ps[k].date == d {
          var k :| 0 <= k < |ps| && ps[k].date == d;
          if k < |init| {
            assert init[k] == ps[k];
          }
        }
      }
      forall d | d in ByDate(init) ensures ByDate(init)[d] in ps {
        assert ByDate(init)[d] in init;
      }
    }
  }

  /** The index keeps the last record of every date. */
  lemma {:induction false} ByDateLastWins(ps: seq<PersonalRecord>, k: nat)
    requires k < |ps|
    requires forall j :: k < j < |ps| ==> ps[j].date != ps[k].date
    ensures ps[k].date in ByDate(ps) && ByDate(ps)[ps[k].date] == ps[k]
  {
    if k < |ps| - 1 {
      var init := ps[..|ps| - 1];
      assert init[k] == ps[k];
      assert ps[|ps| - 1].date != ps[k].date;
      ByDateLastWins(init, k);
    }
  }

  /** `{r["date"] for r in anomaly_records}` */
  function AnomalyDates(anomalies: seq<AnomalyRecord>): set<string>
  {
    set k | 0 <= k < |anomalies| :: anomalies[k].date
  }

  // ---------------------------------------------------------------- punch range

  datatype PunchBounds = PunchBounds(start: Option<string>, end: Option<string>)

  /**
   * The clock-in and clock-out of an anomaly's `punch_range`: the stripped
   * range split on "~", kept only when that gives exactly two parts, each
   * part stripped.
   */
  function PunchBoundsOf(punchRange: string): (b: PunchBounds)
    ensures b.start.Some? <==> b.end.Some?
    ensures punchRange == "" ==> b.start.None?
    ensures b.start.Some? ==> |Split(Strip(punchRange), '~')| == 2
  {
    if punchRange == "" then PunchBounds(None, None)
    else
      var t := Strip(punchRange);
      if '~' !in t then PunchBounds(None, None)
      else
        var times := Split(t, '~');
        if |times| != 2 then PunchBounds(None, None)
        else PunchBounds(Some(Strip(times[0])), Some(Strip(times[1])))
  }

  /** A range of two '~'-free parts gives those parts, stripped. */
  lemma PunchRangeSplits(punchRange: string, a: string, b: string)
    requires Strip(punchRange) == a + "~" + b
    requires '~' !in a && '~' !in b
    ensures PunchBoundsOf(punchRange) == PunchBounds(Some(Strip(a)), Some(Strip(b)))
  {
    assert punchRange != "" by {
      assert Strip(punchRange) != [];
    }
    SplitsInTwo(Strip(punchRange), a, b);
  }

  lemma SplitsInTwo(t: string, a: string, b: string)
    requires t == a + "~" + b
    requires '~' !in a && '~' !in b
    ensures '~' in t && Split(t, '~') == [a, b]
  {
    assert t[|a|] == '~';
    assert t == a + ['~'] + b;
    SplitConcat(a, '~', b);
    SplitNoSep(b, '~');
  }

  /** A range without '~' gives no punches. */
  lemma PunchRangeWithoutTilde(punchRange: string)
    requires '~' !in punchRange
    ensures PunchBoundsOf(punchRange) == PunchBounds(None, None)
  {
    StripKeepsAbsent(punchRange, '~');
  }

  /** A range with two '~' splits into three parts and gives no punches. */
  lemma PunchRangeWithTwoTildes(punchRange: string, a: string, b: string, c: string)
    requires Strip(punchRange) == a + "~" + b + "~" + c
    requires '~' !in a && '~' !in b && '~' !in c
    ensures PunchBoundsOf(punchRange) == PunchBounds(None, None)
  {
    assert punchRange != "" by {
      assert Strip(punchRange) != [];
    }
    assert a + "~" + b + "~" + c == a + ['~'] + (b + ['~'] + c);
    SplitConcat(a, '~', b + ['~'] + c);
    SplitConcat(b, '~', c);
    SplitNoSep(a, '~');
    SplitNoSep(c, '~');
  }

  /** A string that is its own `strip()` starts and ends with a non-space. */
  lemma StrippedEnds(s: string)
    requires s != [] && Strip(s) == s
    ensures !IsSpace(s[0]) && !IsSpace(s[|s| - 1])
  {
    assert TrimStart(s) == s;
    assert TrimEnd(s) == s;
  }

  /**
   * Reading back the `time_range` of a record with stripped, '~'-free
   * punches gives those punches: the punch-range parse inverts `time_range`.
   */
  lemma PunchBoundsOfTimeRange(r: UnifiedOvertimeRecord)
    requires NonEmpty(r.punchStart) && NonEmpty(r.punchEnd)
    requires '~' !in r.punchStart.value && '~' !in r.punchEnd.value
    requires Strip(r.punchStart.value) == r.punchStart.value && Strip(r.punchEnd.value) == r.punchEnd.value
    ensures PunchBoundsOf(TimeRange(r)) == PunchBounds(r.punchStart, r.punchEnd)
  {
    var a := r.punchStart.value;
    var b := r.punchEnd.value;
    var s := a + "~" + b;
    assert TimeRange(r) == s;
    StrippedEnds(a);
    StrippedEnds(b);
    assert s[0] == a[0] && s[|s| - 1] == b[|b| - 1];
    StripUnchanged(s);
    PunchRangeSplits(s, a, b);
  }

  // ---------------------------------------------------------------- merge

  /** The unified record of an anomaly, with the personal record of its date if there is one. */
  function FromAnomaly(a: AnomalyRecord, personal: Option<PersonalRecord>): UnifiedOvertimeRecord
  {
    var bounds := PunchBoundsOf(a.punchRange);
    UnifiedOvertimeRecord(
      a.date, bounds.start, bounds.end,
      a.overtimeHours.GetOr(0.0),
      true,
      Some(a.description),
      personal.Some?,
      if personal.Some? then Some(personal.value.content) else None,
      if personal.Some? then Some(personal.value.status) else None,
      if personal.Some? then Some(personal.value.reportType) else None,
      if personal.Some? then Some(personal.value.overtimeHours) else None,
      if personal.Some? then Some(personal.value.monthlyTotal) else None,
      if personal.Some? then Some(personal.value.quarterlyTotal) else None)
  }

  /** The unified record of a filed request on a day without an anomaly. */
  function FromPersonal(p: PersonalRecord): UnifiedOvertimeRecord
  {
    UnifiedOvertimeRecord(
      p.date, None, None, 0.0, false, None, true,
      Some(p.content), Some(p.status), Some(p.reportType), Some(p.overtimeHours),
      Some(p.monthlyTotal), Some(p.quarterlyTotal))
  }

  /** What the first loop appends: one record per anomaly, in order. */
  function AnomalyPart(anomalies: seq<AnomalyRecord>, byDate: map<string, PersonalRecord>): seq<UnifiedOvertimeRecord>
  {
    seq(|anomalies|, k requires 0 <= k < |anomalies| => FromAnomaly(anomalies[k], PersonalFor(byDate, anomalies[k].date)))
  }

  /** What the second loop appends: one record per personal record whose date has no anomaly. */
  function PersonalPart(ps: seq<PersonalRecord>, anomalyDates: set<string>): seq<UnifiedOvertimeRecord>
  {
    if ps == [] then []
    else
      var p := ps[|ps| - 1];
      PersonalPart(ps[..|ps| - 1], anomalyDates) + (if p.date in anomalyDates then [] else [FromPersonal(p)])
  }

  /** Not having an anomaly date: the condition on the second loop. */
  function Supplements(anomalyDates: set<string>): PersonalRecord -> bool
  {
    (p: PersonalRecord) => p.date !in anomalyDates
  }

  /** Both loops' records before sorting. */
  function Unsorted(anomalies: seq<AnomalyRecord>, ps: seq<PersonalRecord>): seq<UnifiedOvertimeRecord>
  {
    AnomalyPart(anomalies, ByDate(ps)) + PersonalPart(ps, AnomalyDates(anomalies))
  }

  /** `sort(key=lambda x: x.date, reverse=True)`: newer dates first. */
  predicate NewerDateFirst(a: UnifiedOvertimeRecord, b: UnifiedOvertimeRecord)
  {
    LexLe(b.date, a.date)
  }

  /** The merged records: both loops' records, sorted by date, newest first, ties in input order. */
  function Merged(anomalies: seq<AnomalyRecord>, ps: seq<PersonalRecord>): seq<UnifiedOvertimeRecord>
  {
    Sort(Unsorted(anomalies, ps), NewerDateFirst)
  }

  lemma AnomalyPartSnoc(anomalies: seq<AnomalyRecord>, i: nat, byDate: map<string, PersonalRecord>)
    requires i < |anomalies|
    ensures AnomalyPart(anomalies[..i + 1], byDate) ==
              AnomalyPart(anomalies[..i], byDate) + [FromAnomaly(anomalies[i], PersonalFor(byDate, anomalies[i].date))]
  {
    var longer := AnomalyPart(anomalies[..i + 1], byDate);
    var extended := AnomalyPart(anomalies[..i], byDate) + [FromAnomaly(anomalies[i], PersonalFor(byDate, anomalies[i].date))];
    assert |longer| == |extended| == i + 1;
    forall k | 0 <= k <= i ensures longer[k] == extended[k] {
      assert anomalies[..i + 1][k] == anomalies[k];
      if k < i {
        assert anomalies[..i][k] == anomalies[k];
      }
    }
  }

  lemma PersonalPartSnoc(ps: seq<PersonalRecord>, j: nat, anomalyDates: set<string>)
    requires j < |ps|
    ensures PersonalPart(ps[..j + 1], anomalyDates) ==
              PersonalPart(ps[..j], anomalyDates) + (if ps[j].date in anomalyDates then [] else [FromPersonal(ps[j])])
  {
    var p := ps[..j + 1];
    assert p[..|p| - 1] == ps[..j];
    assert p[|p| - 1] == ps[j];
  }

  /** `_merge_overtime_data` */
  method MergeOvertimeData(anomalies: seq<AnomalyRecord>, ps: seq<PersonalRecord>) returns (unified: seq<UnifiedOvertimeRecord>)
    ensures unified == Merged(anomalies, ps)
  {
    var byDate := ByDate(ps);
    var anomalyDates := AnomalyDates(anomalies);
    var records: seq<UnifiedOvertimeRecord> := [];
    var i := 0;
    while i < |anomalies|
      invariant 0 <= i <= |anomalies|
      invariant records == AnomalyPart(anomalies[..i], byDate)
    {
      AnomalyPartSnoc(anomalies, i, byDate);
      var a := anomalies[i];
      var personal := PersonalFor(byDate, a.date);
      records := records + [FromAnomaly(a, personal)];
      i := i + 1;
    }
    assert anomalies[..|anomalies|] == anomalies;
    var j := 0;
    while j < |ps|
      invariant 0 <= j <= |ps|
      invariant records == AnomalyPart(anomalies, byDate) + PersonalPart(ps[..j], anomalyDates)
    {
      PersonalPartSnoc(ps, j, anomalyDates);
      if ps[j].date !in anomalyDates {
        records := records + [FromPersonal(ps[j])];
      }
      j := j + 1;
    }
    assert ps[..|ps|] == ps;
    unified := Sort(records, NewerDateFirst);
  }

  /** Sorting newest first is a total preorder on records. */
  lemma NewerDateFirstPreorder()
    ensures TotalPreorder(NewerDateFirst)
  {
    forall a: UnifiedOvertimeRecord, b: UnifiedOvertimeRecord ensures NewerDateFirst(a, b) || NewerDateFirst(b, a) {
      LexLeTotal(a.date, b.date);
    }
    forall a: UnifiedOvertimeRecord, b: UnifiedOvertimeRecord, c: UnifiedOvertimeRecord | NewerDateFirst(a, b) && NewerDateFirst(b, c)
      ensures NewerDateFirst(a, c)
    {
      LexLeTransitive(c.date, b.date, a.date);
    }
  }

  /** The second loop keeps the personal records without an anomaly date, one record each, in order. */
  lemma PersonalPartSpec(ps: seq<PersonalRecord>, anomalyDates: set<string>)
    ensures |PersonalPart(ps, anomalyDates)| == |Filter(ps, Supplements(anomalyDates))|
    ensures forall r :: r in PersonalPart(ps, anomalyDates) <==>
              exists j :: 0 <= j < |ps| && ps[j].date !in anomalyDates && r == FromPersonal(ps[j])
  {
    PersonalPartLength(ps, anomalyDates);
    PersonalPartMembers(ps, anomalyDates);
  }

  lemma {:induction false} PersonalPartLength(ps: seq<PersonalRecord>, anomalyDates: set<string>)
    ensures |PersonalPart(ps, anomalyDates)| == |Filter(ps, Supplements(anomalyDates))|
  {
    if ps != [] {
      var init := ps[..|ps| - 1];
      var p := ps[|ps| - 1];
      PersonalPartLength(init, anomalyDates);
      assert ps == init + [p];
      FilterAppend(init, [p], Supplements(anomalyDates));
      assert Filter([p], Supplements(anomalyDates)) == if p.date in anomalyDates then [] else [p] by {
        assert [p][1..] == [];
      }
    }
  }

  lemma {:induction false} PersonalPartMembers(ps: seq<PersonalRecord>, anomalyDates: set<string>)
    ensures forall r :: r in PersonalPart(ps, anomalyDates) <==>
              exists j :: 0 <= j < |ps| && ps[j].date !in anomalyDates && r == FromPersonal(ps[j])
  {
    if ps != [] {
      var init := ps[..|ps| - 1];
      var p := ps[|ps| - 1];
      PersonalPartMembers(init, anomalyDates);
      var whole := PersonalPart(ps, anomalyDates);
      var tail: seq<UnifiedOvertimeRecord> := if p.date in anomalyDates then [] else [FromPersonal(p)];
      assert whole == PersonalPart(init, anomalyDates) + tail;
      forall r | r in whole
        ensures exists j :: 0 <= j < |ps| && ps[j].date !in anomalyDates && r == FromPersonal(ps[j])
      {
        if r in PersonalPart(init, anomalyDates) {
          var j :| 0 <= j < |init| && init[j].date !in anomalyDates && r == FromPersonal(init[j]);
          assert ps[j] == init[j];
        } else {
          assert r in tail;
          assert ps[|ps| - 1] == p;
        }
      }
      forall j | 0 <= j < |ps| && ps[j].date !in anomalyDates
        ensures FromPersonal(ps[j]) in whole
      {
        if j < |init| {
          assert init[j] == ps[j];
          assert FromPersonal(init[j]) in PersonalPart(init, anomalyDates);
        } else {
          assert ps[j] == p;
          assert FromPersonal(p) in tail;
        }
      }
    }
  }

  /**
   * The merged records are the two loops' records reordered: sorted by
   * date, newest first, and as many as the anomalies plus the personal
   * records on days without an anomaly.
   */
  lemma MergedIsSortedPermutation(anomalies: seq<AnomalyRecord>, ps: seq<PersonalRecord>)
    ensures multiset(Merged(anomalies, ps)) == multiset(Unsorted(anomalies, ps))
    ensures |Merged(anomalies, ps)| == |anomalies| + |Filter(ps, Supplements(AnomalyDates(anomalies)))|
    ensures forall i, j :: 0 <= i < j < |Merged(anomalies, ps)| ==>
              LexLe(Merged(anomalies, ps)[j].date, Merged(anomalies, ps)[i].date)
  {
    var u := Unsorted(anomalies, ps);
    SortPermutation(u, NewerDateFirst);
    PersonalPartSpec(ps, AnomalyDates(anomalies));
    NewerDateFirstPreorder();
    SortSorted(u, NewerDateFirst);
    var m := Merged(anomalies, ps);
    forall i, j | 0 <= i < j < |m| ensures LexLe(m[j].date, m[i].date) {
      assert NewerDateFirst(m[i], m[j]);
    }
  }

  function OnDate(d: string): UnifiedOvertimeRecord -> bool
  {
    (r: UnifiedOvertimeRecord) => r.date == d
  }

  /**
   * The sort is stable: the merged records of one date come in the loops'
   * order, the anomaly record before the supplements, each in input order.
   */
  lemma MergedSameDateInOrder(anomalies: seq<AnomalyRecord>, ps: seq<PersonalRecord>, d: string)
    ensures Filter(Merged(anomalies, ps), OnDate(d)) == Filter(Unsorted(anomalies, ps), OnDate(d))
  {
    NewerDateFirstPreorder();
    forall y, z | OnDate(d)(y) && OnDate(d)(z) ensures NewerDateFirst(y, z) {
      assert NewerDateFirst(y, y);
    }
    SortKeepsTies(Unsorted(anomalies, ps), NewerDateFirst, OnDate(d));
  }

  /** An element of the merged records is an element of the loops' records, and back. */
  lemma MergedMembers(anomalies: seq<AnomalyRecord>, ps: seq<PersonalRecord>)
    ensures forall r :: r in Merged(anomalies, ps) <==> r in Unsorted(anomalies, ps)
  {
    var u := Unsorted(anomalies, ps);
    SortPermutation(u, NewerDateFirst);
    forall r ensures r in Merged(anomalies, ps) <==> r in u {
      assert r in Merged(anomalies, ps) <==> r in multiset(Merged(anomalies, ps));
      assert r in u <==> r in multiset(u);
    }
  }

  /**
   * Every anomaly gives a merged record with an anomaly and its own date,
   * description and hours (0 when it has none); it is submitted exactly when
   * some personal record has that date.
   */
  lemma MergedAnomaly(anomalies: seq<AnomalyRecord>, ps: seq<PersonalRecord>, k: nat)
    requires k < |anomalies|
    ensures var r := FromAnomaly(anomalies[k], PersonalFor(ByDate(ps), anomalies[k].date));
            r in Merged(anomalies, ps) &&
            r.date == anomalies[k].date && r.hasAnomaly &&
            r.anomalyDescription == Some(anomalies[k].description) &&
            r.calculatedOvertimeHours == anomalies[k].overtimeHours.GetOr(0.0) &&
            r.punchStart == PunchBoundsOf(anomalies[k].punchRange).start &&
            r.punchEnd == PunchBoundsOf(anomalies[k].punchRange).end &&
            (r.submitted <==> exists j :: 0 <= j < |ps| && ps[j].date == anomalies[k].date)
  {
    MergedMembers(anomalies, ps);
    ByDateKeys(ps);
    assert AnomalyPart(anomalies, ByDate(ps))[k] in Unsorted(anomalies, ps);
  }

  /** An anomaly whose date has personal records takes the submission fields of the last of them. */
  lemma MergedAnomalyMatched(anomalies: seq<AnomalyRecord>, ps: seq<PersonalRecord>, k: nat, j: nat)
    requires k < |anomalies| && j < |ps|
    requires ps[j].date == anomalies[k].date
    requires forall i :: j < i < |ps| ==> ps[i].date != ps[j].date
    ensures var r := FromAnomaly(anomalies[k], Some(ps[j]));
            r in Merged(anomalies, ps) && r.submitted &&
            r.submissionContent == Some(ps[j].content) && r.submissionStatus == Some(ps[j].status) &&
            r.submissionType == Some(ps[j].reportType) && r.reportedOvertimeHours == Some(ps[j].overtimeHours) &&
            r.monthlyTotal == Some(ps[j].monthlyTotal) && r.quarterlyTotal == Some(ps[j].quarterlyTotal)
  {
    ByDateLastWins(ps, j);
    MergedAnomaly(anomalies, ps, k);
  }

  /** An anomaly on a date without personal records stays unsubmitted with no submission fields. */
  lemma MergedAnomalyUnmatched(anomalies: seq<AnomalyRecord>, ps: seq<PersonalRecord>, k: nat)
    requires k < |anomalies|
    requires forall j :: 0 <= j < |ps| ==> ps[j].date != anomalies[k].date
    ensures var r := FromAnomaly(anomalies[k], None);
            r in Merged(anomalies, ps) && !r.submitted &&
            r.submissionContent.None? && r.submissionStatus.None? && r.submissionType.None? &&
            r.reportedOvertimeHours.None? && r.monthlyTotal.None? && r.quarterlyTotal.None?
  {
    ByDateKeys(ps);
    MergedAnomaly(anomalies, ps, k);
  }

  /**
   * A personal record on a date without an anomaly gives a submitted merged
   * record without anomaly, punches or calculated hours, carrying its fields.
   */
  lemma MergedSupplement(anomalies: seq<AnomalyRecord>, ps: seq<PersonalRecord>, j: nat)
    requires j < |ps|
    requires forall k :: 0 <= k < |anomalies| ==> anomalies[k].date != ps[j].date
    ensures var r := FromPersonal(ps[j]);
            r in Merged(anomalies, ps) && r.date == ps[j].date &&
            !r.hasAnomaly && r.submitted && r.calculatedOvertimeHours == 0.0 &&
            r.punchStart.None? && r.punchEnd.None? && r.anomalyDescription.None? &&
            r.submissionContent == Some(ps[j].content) && r.submissionStatus == Some(ps[j].status) &&
            r.submissionType == Some(ps[j].reportType) && r.reportedOvertimeHours == Some(ps[j].overtimeHours) &&
            r.monthlyTotal == Some(ps[j].monthlyTotal) && r.quarterlyTotal == Some(ps[j].quarterlyTotal)
  {
    MergedMembers(anomalies, ps);
    PersonalPartSpec(ps, AnomalyDates(anomalies));
    assert ps[j].date !in AnomalyDates(anomalies);
    assert FromPersonal(ps[j]) in PersonalPart(ps, AnomalyDates(anomalies));
  }

  /**
   * Nothing else is merged: every merged record comes from an anomaly, or
   * from a personal record on a date without an anomaly. A merged record
   * has an anomaly exactly when its date is an anomaly date, and one
   * without an anomaly is always submitted.
   */
  lemma MergedOrigins(anomalies: seq<AnomalyRecord>, ps: seq<PersonalRecord>)
    ensures forall r :: r in Merged(anomalies, ps) ==>
              (exists k :: 0 <= k < |anomalies| && r == FromAnomaly(anomalies[k], PersonalFor(ByDate(ps), anomalies[k].date))) ||
              (exists j :: 0 <= j < |ps| && ps[j].date !in AnomalyDates(anomalies) && r == FromPersonal(ps[j]))
    ensures forall r :: r in Merged(anomalies, ps) ==>
              (r.hasAnomaly <==> r.date in AnomalyDates(anomalies)) && (!r.hasAnomaly ==> r.submitted)
  {
    MergedMembers(anomalies, ps);
    PersonalPartSpec(ps, AnomalyDates(anomalies));
    var a := AnomalyPart(anomalies, ByDate(ps));
    forall r | r in Merged(anomalies, ps)
      ensures (exists k :: 0 <= k < |anomalies| && r == FromAnomaly(anomalies[k], PersonalFor(ByDate(ps), anomalies[k].date))) ||
              (exists j :: 0 <= j < |ps| && ps[j].date !in AnomalyDates(anomalies) && r == FromPersonal(ps[j]))
      ensures (r.hasAnomaly <==> r.date in AnomalyDates(anomalies)) && (!r.hasAnomaly ==> r.submitted)
    {
      if r in a {
        var k :| 0 <= k < |a| && a[k] == r;
        assert r == FromAnomaly(anomalies[k], PersonalFor(ByDate(ps), anomalies[k].date));
      }
    }
  }

  /** When neither list repeats a date, neither do the merged records. */
  lemma MergedDatesDistinct(anomalies: seq<AnomalyRecord>, ps: seq<PersonalRecord>)
    requires forall i, j :: 0 <= i < j < |anomalies| ==> anomalies[i].date != anomalies[j].date
    requires forall i, j :: 0 <= i < j < |ps| ==> ps[i].date != ps[j].date
    ensures forall i, j :: 0 <= i < j < |Merged(anomalies, ps)| ==> Merged(anomalies, ps)[i].date != Merged(anomalies, ps)[j].date
  {
    var dates := AnomalyDates(anomalies);
    var a := AnomalyPart(anomalies, ByDate(ps));
    var p := PersonalPart(ps, dates);
    assert DistinctBy(a, DateOf) && forall x :: x in a ==> x.date in dates by {
      AnomalyPartDates(anomalies, ByDate(ps));
    }
    assert DistinctBy(p, DateOf) && forall y :: y in p ==> y.date !in dates by {
      PersonalPartDistinct(ps, dates);
      PersonalPartSpec(ps, dates);
    }
    PartsDistinct(a, p, dates);
    SortDistinct(a + p, NewerDateFirst, DateOf);
    var m := Merged(anomalies, ps);
    forall i, j | 0 <= i < j < |m| ensures m[i].date != m[j].date {
      assert DateOf(m[i]) != DateOf(m[j]);
    }
  }

  lemma AnomalyPartDates(anomalies: seq<AnomalyRecord>, byDate: map<string, PersonalRecord>)
    requires forall i, j :: 0 <= i < j < |anomalies| ==> anomalies[i].date != anomalies[j].date
    ensures DistinctBy(AnomalyPart(anomalies, byDate), DateOf)
    ensures forall x :: x in AnomalyPart(anomalies, byDate) ==> x.date in AnomalyDates(anomalies)
  {
    var a := AnomalyPart(anomalies, byDate);
    assert forall k :: 0 <= k < |a| ==> a[k].date == anomalies[k].date;
  }

  /** Two date-distinct parts whose dates fall in and out of one set are date-distinct together. */
  lemma PartsDistinct(a: seq<UnifiedOvertimeRecord>, p: seq<UnifiedOvertimeRecord>, dates: set<string>)
    requires DistinctBy(a, DateOf) && DistinctBy(p, DateOf)
    requires forall x :: x in a ==> x.date in dates
    requires forall y :: y in p ==> y.date !in dates
    ensures DistinctBy(a + p, DateOf)
  {
    var u := a + p;
    forall i, j | 0 <= i < j < |u| ensures DateOf(u[i]) != DateOf(u[j]) {
      if j < |a| {
        assert u[i] == a[i] && u[j] == a[j];
      } else if i >= |a| {
        assert u[i] == p[i - |a|] && u[j] == p[j - |a|];
      } else {
        assert u[i] == a[i] && u[j] == p[j - |a|];
        assert u[i] in a && u[j] in p;
      }
    }
  }

  function DateOf(r: UnifiedOvertimeRecord): string
  {
    r.date
  }

  lemma {:induction false} PersonalPartDistinct(ps: seq<PersonalRecord>, anomalyDates: set<string>)
    requires forall i, j :: 0 <= i < j < |ps| ==> ps[i].date != ps[j].date
    ensures DistinctBy(PersonalPart(ps, anomalyDates), DateOf)
    ensures forall r :: r in PersonalPart(ps, anomalyDates) ==> exists j :: 0 <= j < |ps| && r.date == ps[j].date
  {
    if ps != [] {
      var init := ps[..|ps| - 1];
      var last := ps[|ps| - 1];
      assert forall i, j :: 0 <= i < j < |init| ==> init[i].date != init[j].date by {
        assert forall i :: 0 <= i < |init| ==> init[i] == ps[i];
      }
      PersonalPartDistinct(init, anomalyDates);
      var q := PersonalPart(init, anomalyDates);
      forall r | r in q ensures r.date != last.date {
        var j :| 0 <= j < |init| && r.date == init[j].date;
        assert init[j] == ps[j];
      }
      forall r | r in PersonalPart(ps, anomalyDates) ensures exists j :: 0 <= j < |ps| && r.date == ps[j].date {
        if r in q {
          var j :| 0 <= j < |init| && r.date == init[j].date;
          assert init[j] == ps[j];
        } else {
          assert r.date == ps[|ps| - 1].date;
        }
      }
      if last.date !in anomalyDates {
        var s := q + [FromPersonal(last)];
        forall i, j | 0 <= i < j < |s| ensures DateOf(s[i]) != DateOf(s[j]) {
          if j == |q| {
            assert s[i] in q;
          } else {
            assert s[i] == q[i] && s[j] == q[j];
          }
        }
      }
    }
  }

  // ---------------------------------------------------------------- statistics

  function CalculatedHours(r: UnifiedOvertimeRecord): real
  {
    r.calculatedOvertimeHours
  }

  /** The reported hours a submitted record adds to the total: only non-zero ones count. */
  function ReportedHours(r: UnifiedOvertimeRecord): real
  {
    if HasReportedHours(r) then r.reportedOvertimeHours.value else 0.0
  }

  /** The discrepancy test applied to the submitted records. */
  predicate ReportedDiffers(r: UnifiedOvertimeRecord)
  {
    HasReportedHours(r) && Abs(r.calculatedOvertimeHours - r.reportedOvertimeHours.value) > DISCREPANCY_THRESHOLD
  }

  /** `_calculate_statistics` */
  function CalculateStatistics(records: seq<UnifiedOvertimeRecord>, startDate: string, endDate: string): (s: OvertimeStatistics)
    ensures s.startDate == startDate && s.endDate == endDate
    ensures records == [] ==> s == EmptyStatistics(startDate, endDate)
  {
    if records == [] then EmptyStatistics(startDate, endDate)
    else
      var submitted := Filter(records, IsSubmitted);
      var pending := Filter(records, IsNotSubmitted);
      OvertimeStatistics(
        startDate, endDate,
        Sum(records, CalculatedHours),
        Sum(submitted, ReportedHours),
        Sum(pending, CalculatedHours),
        |records|,
        |Filter(records, HasCalculatedOvertime)|,
        |pending|,
        |Filter(records, IsAnomaly)|,
        0,
        |Filter(submitted, ReportedDiffers)|)
  }

  /**
   * The day counts: every record is either submitted or pending; the
   * discrepancies are exactly the records with `has_discrepancy`; no count
   * exceeds the number of days.
   */
  lemma StatisticsCounts(records: seq<UnifiedOvertimeRecord>, startDate: string, endDate: string)
    requires records != []
    ensures var s := CalculateStatistics(records, startDate, endDate);
            s.totalDays == |records| &&
            s.pendingSubmissionDays + |Filter(records, IsSubmitted)| == s.totalDays &&
            s.pendingSubmissionDays == |Filter(records, IsNotSubmitted)| &&
            s.discrepancyCount == |Filter(records, HasDiscrepancy)| &&
            s.anomalyDays == |Filter(records, IsAnomaly)| &&
            s.workdaysWithOvertime == |Filter(records, HasCalculatedOvertime)| &&
            0 <= s.workdaysWithOvertime <= s.totalDays && 0 <= s.anomalyDays <= s.totalDays &&
            0 <= s.discrepancyCount <= |Filter(records, IsSubmitted)| &&
            s.incompletePunchDays == 0
  {
    var all := (r: UnifiedOvertimeRecord) => true;
    FilterSplit(records, all, IsSubmitted, IsSubmitted, IsNotSubmitted);
    FilterAll(records, all);
    FilterFilter(records, IsSubmitted, ReportedDiffers, HasDiscrepancy);
  }

  /**
   * `has_pending_work` on the statistics of a record list: it holds exactly
   * when some record is not yet submitted or carries an anomaly.
   */
  lemma StatisticsPendingWork(records: seq<UnifiedOvertimeRecord>, startDate: string, endDate: string)
    ensures HasPendingWork(CalculateStatistics(records, startDate, endDate)) <==>
            exists i :: 0 <= i < |records| && (!records[i].submitted || records[i].hasAnomaly)
  {
    if records != [] {
      var pending := Filter(records, IsNotSubmitted);
      var anomalies := Filter(records, IsAnomaly);
      if exists i :: 0 <= i < |records| && (!records[i].submitted || records[i].hasAnomaly) {
        var i :| 0 <= i < |records| && (!records[i].submitted || records[i].hasAnomaly);
        assert records[i] in pending || records[i] in anomalies;
      }
      if pending != [] {
        assert pending[0] in records;
      }
      if anomalies != [] {
        assert anomalies[0] in records;
      }
    }
  }

  lemma {:induction false} FilterNone<T(!new)>(s: seq<T>, p: T -> bool)
    requires forall k :: 0 <= k < |s| ==> !p(s[k])
    ensures Filter(s, p) == []
  {
    if s != [] {
      FilterNone(s[1..], p);
    }
  }

  lemma {:induction false} FilterAll<T(!new)>(s: seq<T>, p: T -> bool)
    requires forall x :: p(x)
    ensures Filter(s, p) == s
  {
    if s != [] {
      FilterAll(s[1..], p);
    }
  }

  /**
   * The hour totals: the calculated hours split into those of submitted
   * and of pending records, and the submitted hours count only the
   * non-zero reported hours of submitted records.
   */
  lemma StatisticsHours(records: seq<UnifiedOvertimeRecord>, startDate: string, endDate: string)
    requires records != []
    ensures var s := CalculateStatistics(records, startDate, endDate);
            s.totalOvertimeHours == Sum(Filter(records, IsSubmitted), CalculatedHours) + s.pendingOvertimeHours &&
            s.totalOvertimeHours == Sum(records, CalculatedHours) &&
            s.submittedOvertimeHours == Sum(records, SubmittedReported)
    ensures (forall k :: 0 <= k < |records| ==> records[k].calculatedOvertimeHours >= 0.0) ==>
              0.0 <= CalculateStatistics(records, startDate, endDate).pendingOvertimeHours <=
                     CalculateStatistics(records, startDate, endDate).totalOvertimeHours
  {
    SumFilter(records, IsSubmitted, CalculatedHours, SubmittedCalculated);
    SumFilter(records, IsNotSubmitted, CalculatedHours, PendingCalculated);
    SumFilter(records, IsSubmitted, ReportedHours, SubmittedReported);
    SumSplit(records);
    if forall k :: 0 <= k < |records| ==> records[k].calculatedOvertimeHours >= 0.0 {
      SumNonNegative(Filter(records, IsSubmitted), CalculatedHours);
      SumNonNegative(Filter(records, IsNotSubmitted), CalculatedHours);
    }
  }

  function SubmittedCalculated(r: UnifiedOvertimeRecord): real
  {
    if r.submitted then r.calculatedOvertimeHours else 0.0
  }

  function PendingCalculated(r: UnifiedOvertimeRecord): real
  {
    if !r.submitted then r.calculatedOvertimeHours else 0.0
  }

  /** What a submitted record adds to the submitted hours; 0 for a pending one. */
  function SubmittedReported(r: UnifiedOvertimeRecord): real
  {
    if r.submitted then ReportedHours(r) else 0.0
  }

  lemma {:induction false} SumSplit(s: seq<UnifiedOvertimeRecord>)
    ensures Sum(s, CalculatedHours) == Sum(s, SubmittedCalculated) + Sum(s, PendingCalculated)
  {
    if s != [] {
      SumSplit(s[1..]);
    }
  }

  // ---------------------------------------------------------------- date range

  /** `min(dates)` */
  function MinDate(records: seq<UnifiedOvertimeRecord>): (d: string)
    requires records != []
    ensures exists i :: 0 <= i < |records| && records[i].date == d
    ensures forall i :: 0 <= i < |records| ==> LexLe(d, records[i].date)
  {
    if |records| == 1 then
      LexLeReflexive(records[0].date);
      records[0].date
    else
      var rest := MinDate(records[1..]);
      assert forall i :: 1 <= i < |records| ==> records[i] == records[1..][i - 1];
      LexLeTotal(records[0].date, rest);
      if LexLe(records[0].date, rest) then
        LexLeReflexive(records[0].date);
        assert forall i :: 1 <= i < |records| ==> LexLe(rest, records[i].date);
        LexLeTransitiveFrom(records[0].date, rest, records[1..]);
        records[0].date
      else
        rest
  }

  /** `max(dates)` */
  function MaxDate(records: seq<UnifiedOvertimeRecord>): (d: string)
    requires records != []
    ensures exists i :: 0 <= i < |records| && records[i].date == d
    ensures forall i :: 0 <= i < |records| ==> LexLe(records[i].date, d)
  {
    if |records| == 1 then
      LexLeReflexive(records[0].date);
      records[0].date
    else
      var rest := MaxDate(records[1..]);
      assert forall i :: 1 <= i < |records| ==> records[i] == records[1..][i - 1];
      LexLeTotal(records[0].date, rest);
      if LexLe(rest, records[0].date) then
        LexLeReflexive(records[0].date);
        LexLeTransitiveTo(records[0].date, rest, records[1..]);
        records[0].date
      else
        rest
  }

  lemma LexLeTransitiveFrom(a: string, b: string, rs: seq<UnifiedOvertimeRecord>)
    requires LexLe(a, b)
    requires forall i :: 0 <= i < |rs| ==> LexLe(b, rs[i].date)
    ensures forall i :: 0 <= i < |rs| ==> LexLe(a, rs[i].date)
  {
    forall i | 0 <= i < |rs| ensures LexLe(a, rs[i].date) {
      LexLeTransitive(a, b, rs[i].date);
    }
  }

  lemma LexLeTransitiveTo(a: string, b: string, rs: seq<UnifiedOvertimeRecord>)
    requires LexLe(b, a)
    requires forall i :: 0 <= i < |rs| ==> LexLe(rs[i].date, b)
    ensures forall i :: 0 <= i < |rs| ==> LexLe(rs[i].date, a)
  {
    forall i | 0 <= i < |rs| ensures LexLe(rs[i].date, a) {
      LexLeTransitive(rs[i].date, b, a);
    }
  }

  datatype DateRange = DateRange(startDate: string, endDate: string)

  /** `_calculate_date_range`: the earliest and latest dates, or today twice without records. */
  function CalculateDateRange(records: seq<UnifiedOvertimeRecord>, today: string): (r: DateRange)
    ensures records == [] ==> r == DateRange(today, today)
    ensures records != [] ==>
              (exists i :: 0 <= i < |records| && records[i].date == r.startDate) &&
              (exists i :: 0 <= i < |records| && records[i].date == r.endDate) &&
              forall i :: 0 <= i < |records| ==> LexLe(r.startDate, records[i].date) && LexLe(records[i].date, r.endDate)
  {
    if records == [] then DateRange(today, today) else DateRange(MinDate(records), MaxDate(records))
  }

  /** The range of records sorted newest first runs from the last record's date to the first's. */
  lemma DateRangeOfSorted(records: seq<UnifiedOvertimeRecord>, today: string)
    requires records != []
    requires forall i, j :: 0 <= i < j < |records| ==> LexLe(records[j].date, records[i].date)
    ensures CalculateDateRange(records, today) == DateRange(records[|records| - 1].date, records[0].date)
  {
    var r := CalculateDateRange(records, today);
    var last := records[|records| - 1].date;
    var i :| 0 <= i < |records| && records[i].date == r.startDate;
    if i < |records| - 1 {
      assert LexLe(last, records[i].date);
    }
    LexLeAntisymmetric(r.startDate, last);
    var j :| 0 <= j < |records| && records[j].date == r.endDate;
    if j > 0 {
      assert LexLe(records[j].date, records[0].date);
    }
    LexLeAntisymmetric(r.endDate, records[0].date);
  }

  // ---------------------------------------------------------------- parsed pages

  /** Without hours on the anomalies, no merged record has calculated hours or needs submitting. */
  lemma {:induction false} NoAnomalyHoursNoCalculatedHours(anomalies: seq<AnomalyRecord>, ps: seq<PersonalRecord>)
    requires forall k :: 0 <= k < |anomalies| ==> anomalies[k].overtimeHours.None?
    ensures forall r :: r in Merged(anomalies, ps) ==> r.calculatedOvertimeHours == 0.0 && !NeedsSubmission(r)
  {
    MergedOrigins(anomalies, ps);
  }

  lemma {:induction false} SumOfZeros(s: seq<UnifiedOvertimeRecord>)
    requires forall r :: r in s ==> r.calculatedOvertimeHours == 0.0
    ensures Sum(s, CalculatedHours) == 0.0
  {
    if s != [] {
      assert s[0] in s;
      assert forall r :: r in s[1..] ==> r in s;
      SumOfZeros(s[1..]);
    }
  }

  /** The records merged from the parsed pages. */
  function MergedPages(attendancePage: Document, personalPage: Document): seq<UnifiedOvertimeRecord>
  {
    Merged(AttendanceParser.AnomalyRecordsOf(attendancePage), PersonalRecordParser.PersonalRecordsOf(personalPage))
  }

  /**
   * The anomaly parser never reads hours, so the records merged from the
   * pages have no calculated hours: none needs submitting, and the total and
   * pending hours and the overtime workdays of their statistics are all 0.
   */
  lemma ParsedPagesHaveNoCalculatedHours(attendancePage: Document, personalPage: Document, startDate: string, endDate: string)
    ensures forall r :: r in MergedPages(attendancePage, personalPage) ==> r.calculatedOvertimeHours == 0.0 && !NeedsSubmission(r)
    ensures var s := CalculateStatistics(MergedPages(attendancePage, personalPage), startDate, endDate);
            s.totalOvertimeHours == 0.0 && s.pendingOvertimeHours == 0.0 && s.workdaysWithOvertime == 0
  {
    var anomalies := AttendanceParser.AnomalyRecordsOf(attendancePage);
    var table := FindTable(attendancePage, AttendanceParser.ANOMALY_TABLE);
    if table.Some? {
      AttendanceParser.AnomaliesWellFormed(table.value);
    }
    var m := MergedPages(attendancePage, personalPage);
    NoAnomalyHoursNoCalculatedHours(anomalies, PersonalRecordParser.PersonalRecordsOf(personalPage));
    if m != [] {
      SumOfZeros(m);
      var pending := Filter(m, IsNotSubmitted);
      SumOfZeros(pending);
      assert Filter(m, HasCalculatedOvertime) == [] by {
        FilterNone(m, HasCalculatedOvertime);
      }
    }
  }

  /** The snapshot of one successful fetch, stamped `now`. */
  function BuildSnapshot(attendancePage: Document, personalPage: Document, now: real, today: string): AttendanceSnapshot
  {
    var unified := MergedPages(attendancePage, personalPage);
    var range := CalculateDateRange(unified, today);
    AttendanceSnapshot(
      range.startDate, range.endDate, now,
      AttendanceParser.PunchRecordsOf(attendancePage),
      AttendanceParser.LeaveRecordsOf(attendancePage),
      AttendanceParser.QuotaOf(attendancePage),
      unified,
      Some(CalculateStatistics(unified, range.startDate, range.endDate)))
  }

  /**
   * A fresh snapshot spans exactly its records: from the last (oldest)
   * record's date to the first (newest) one's, or today without records;
   * its statistics cover the same range and count every record.
   */
  lemma SnapshotSpansItsRecords(attendancePage: Document, personalPage: Document, now: real, today: string)
    ensures var s := BuildSnapshot(attendancePage, personalPage, now, today);
            s.fetchedAt == now &&
            s.statistics.Some? && s.statistics.value.startDate == s.startDate && s.statistics.value.endDate == s.endDate &&
            (s.unifiedRecords == [] ==> s.startDate == today && s.endDate == today) &&
            (s.unifiedRecords != [] ==>
               s.startDate == s.unifiedRecords[|s.unifiedRecords| - 1].date && s.endDate == s.unifiedRecords[0].date &&
               s.statistics.value.totalDays == |s.unifiedRecords|)
  {
    var anomalies := AttendanceParser.AnomalyRecordsOf(attendancePage);
    var ps := PersonalRecordParser.PersonalRecordsOf(personalPage);
    var m := Merged(anomalies, ps);
    assert m == MergedPages(attendancePage, personalPage);
    var range := CalculateDateRange(m, today);
    var stats := CalculateStatistics(m, range.startDate, range.endDate);
    var s := BuildSnapshot(attendancePage, personalPage, now, today);
    assert s.unifiedRecords == m && s.startDate == range.startDate && s.endDate == range.endDate;
    assert s.fetchedAt == now && s.statistics == Some(stats);
    if m != [] {
      assert range == DateRange(m[|m| - 1].date, m[0].date) by {
        MergedIsSortedPermutation(anomalies, ps);
        DateRangeOfSorted(m, today);
      }
      StatisticsCounts(m, range.startDate, range.endDate);
    }
  }

  // ---------------------------------------------------------------- fetching

  /** The exceptions a fetch can end with: `Timeout`, another `RequestException`, anything else. */
  datatype FetchError = Timeout | RequestError | OtherError

  /** What requesting one page gave. */
  datatype PageOutcome = Page(doc: Document) | PageFailed(error: FetchError)

  /** What requesting both pages gave. */
  datatype FetchOutcome = Fetched(attendancePage: Document, personalPage: Document) | FetchFailed(error: FetchError)

  /** A returned value or the exception that escaped. */
  datatype Outcome<T> = Success(value: T) | Raised(error: FetchError)

  const PERSONAL_PAGE_ATTRIBUTE_AS_WRITTEN := "PERSONAL_RECORD_URL"
  /** The settings attribute holding the personal-record page ("/FW21003Z.aspx"). */
  const PERSONAL_PAGE_ATTRIBUTE := "OVERTIME_STATUS_URL"

  /** `f"{settings.SSP_BASE_URL}{settings.<attribute>}"`; `None` when an attribute is missing. */
  function PageUrl(attribute: string): Option<string>
  {
    var base := Settings.UrlAttribute("SSP_BASE_URL");
    var path := Settings.UrlAttribute(attribute);
    if base.Some? && path.Some? then Some(base.value + path.value) else None
  }

  /** A page request: building its URL first, where a missing attribute raises, then the response. */
  function FetchPage(attribute: string, response: PageOutcome): PageOutcome
  {
    if PageUrl(attribute).None? then PageFailed(OtherError) else response
  }

  /**
   * `_fetch_all_pages_parallel`: both requests run, and the attendance
   * page's result is collected first, so its exception is the one raised.
   */
  function FetchPagesWith(personalAttribute: string, attendance: PageOutcome, personal: PageOutcome): FetchOutcome
  {
    var a := FetchPage("ATTENDANCE_URL", attendance);
    var p := FetchPage(personalAttribute, personal);
    if a.PageFailed? then FetchFailed(a.error)
    else if p.PageFailed? then FetchFailed(p.error)
    else Fetched(a.doc, p.doc)
  }

  /** The fetch as the source builds it, reading `PERSONAL_RECORD_URL`. */
  function FetchPagesAsWritten(attendance: PageOutcome, personal: PageOutcome): FetchOutcome
  {
    FetchPagesWith(PERSONAL_PAGE_ATTRIBUTE_AS_WRITTEN, attendance, personal)
  }

  /** The fetch reading the attribute that holds the personal-record page. */
  function FetchPages(attendance: PageOutcome, personal: PageOutcome): FetchOutcome
  {
    FetchPagesWith(PERSONAL_PAGE_ATTRIBUTE, attendance, personal)
  }

  /**
   * The settings declare no `PERSONAL_RECORD_URL`, so as written the
   * personal-record request always raises before it is sent: a full fetch
   * never succeeds, and fails with a non-request error whenever the
   * attendance page arrived.
   */
  lemma FetchAsWrittenNeverSucceeds(attendance: PageOutcome, personal: PageOutcome)
    ensures FetchPage(PERSONAL_PAGE_ATTRIBUTE_AS_WRITTEN, personal) == PageFailed(OtherError)
    ensures FetchPagesAsWritten(attendance, personal).FetchFailed?
    ensures attendance.Page? ==> FetchPagesAsWritten(attendance, personal) == FetchFailed(OtherError)
  {
  }

  /**
   * With the declared attribute both pages are requested from the portal,
   * the personal one at "/FW21003Z.aspx", and the fetch succeeds exactly
   * when both requests do.
   */
  lemma FetchPagesRequestsBoth(attendance: PageOutcome, personal: PageOutcome)
    ensures PageUrl("ATTENDANCE_URL") == Some(Settings.SSP_BASE_URL + "/FW99001Z.aspx")
    ensures PageUrl(PERSONAL_PAGE_ATTRIBUTE) == Some(Settings.SSP_BASE_URL + "/FW21003Z.aspx")
    ensures FetchPages(attendance, personal).Fetched? <==> attendance.Page? && personal.Page?
    ensures FetchPages(attendance, personal).Fetched? ==>
              FetchPages(attendance, personal) == Fetched(attendance.doc, personal.doc)
    ensures attendance.PageFailed? ==> FetchPages(attendance, personal) == FetchFailed(attendance.error)
    ensures attendance.Page? && personal.PageFailed? ==> FetchPages(attendance, personal) == FetchFailed(personal.error)
  {
  }

  // ---------------------------------------------------------------- incremental refresh

  /** A cached record after the incremental refresh: a matching personal record overwrites four fields. */
  function Refresh(r: UnifiedOvertimeRecord, byDate: map<string, PersonalRecord>): UnifiedOvertimeRecord
  {
    if r.date in byDate then
      var p := byDate[r.date];
      r.(submitted := true, submissionStatus := Some(p.status),
         monthlyTotal := Some(p.monthlyTotal), quarterlyTotal := Some(p.quarterlyTotal))
    else r
  }

  function Refreshed(rs: seq<UnifiedOvertimeRecord>, byDate: map<string, PersonalRecord>): seq<UnifiedOvertimeRecord>
  {
    seq(|rs|, k requires 0 <= k < |rs| => Refresh(rs[k], byDate))
  }

  /**
   * The refresh adds, drops and reorders nothing; a record whose date has a
   * personal record becomes submitted and takes its status and totals, and
   * keeps every other field; any other record is left as it was.
   */
  lemma RefreshedSpec(rs: seq<UnifiedOvertimeRecord>, byDate: map<string, PersonalRecord>)
    ensures |Refreshed(rs, byDate)| == |rs|
    ensures forall k :: 0 <= k < |rs| ==>
              var r, n := rs[k], Refreshed(rs, byDate)[k];
              n.date == r.date && n.punchStart == r.punchStart && n.punchEnd == r.punchEnd &&
              n.calculatedOvertimeHours == r.calculatedOvertimeHours && n.hasAnomaly == r.hasAnomaly &&
              n.anomalyDescription == r.anomalyDescription && n.submissionContent == r.submissionContent &&
              n.submissionType == r.submissionType && n.reportedOvertimeHours == r.reportedOvertimeHours &&
              (r.date in byDate ==>
                 n.submitted && n.submissionStatus == Some(byDate[r.date].status) &&
                 n.monthlyTotal == Some(byDate[r.date].monthlyTotal) &&
                 n.quarterlyTotal == Some(byDate[r.date].quarterlyTotal)) &&
              (r.date !in byDate ==> n == r)
  {
  }

  /** Refreshing twice with the same page is refreshing once. */
  lemma RefreshedIdempotent(rs: seq<UnifiedOvertimeRecord>, byDate: map<string, PersonalRecord>)
    ensures Refreshed(Refreshed(rs, byDate), byDate) == Refreshed(rs, byDate)
  {
    var once := Refreshed(rs, byDate);
    var twice := Refreshed(once, byDate);
    forall k | 0 <= k < |rs| ensures twice[k] == once[k] {
      assert once[k].date == rs[k].date;
    }
  }

  /** An empty personal-record page leaves the cached records as they were. */
  lemma RefreshedWithNothing(rs: seq<UnifiedOvertimeRecord>)
    ensures Refreshed(rs, ByDate([])) == rs
  {
    var n := Refreshed(rs, ByDate([]));
    assert forall k :: 0 <= k < |rs| ==> n[k] == rs[k];
  }

  /**
   * Refreshing freshly merged records with the very personal records they
   * were merged from changes nothing, when those records do not repeat a date.
   */
  lemma RefreshAfterMergeIsNoOp(anomalies: seq<AnomalyRecord>, ps: seq<PersonalRecord>)
    requires forall i, j :: 0 <= i < j < |ps| ==> ps[i].date != ps[j].date
    ensures Refreshed(Merged(anomalies, ps), ByDate(ps)) == Merged(anomalies, ps)
  {
    var m := Merged(anomalies, ps);
    var byDate := ByDate(ps);
    var n := Refreshed(m, byDate);
    forall k | 0 <= k < |m| ensures n[k] == m[k] {
      assert m[k] in m;
      RefreshKeepsMerged(anomalies, ps, m[k]);
    }
  }

  lemma RefreshKeepsMerged(anomalies: seq<AnomalyRecord>, ps: seq<PersonalRecord>, r: UnifiedOvertimeRecord)
    requires forall i, j :: 0 <= i < j < |ps| ==> ps[i].date != ps[j].date
    requires r in Merged(anomalies, ps)
    ensures Refresh(r, ByDate(ps)) == r
  {
    var byDate := ByDate(ps);
    MergedOrigins(anomalies, ps);
    if exists i :: 0 <= i < |anomalies| && r == FromAnomaly(anomalies[i], PersonalFor(byDate, anomalies[i].date)) {
      var i :| 0 <= i < |anomalies| && r == FromAnomaly(anomalies[i], PersonalFor(byDate, anomalies[i].date));
      RefreshKeepsAnomaly(anomalies[i], byDate);
    } else {
      var j :| 0 <= j < |ps| && ps[j].date !in AnomalyDates(anomalies) && r == FromPersonal(ps[j]);
      ByDateLastWins(ps, j);
      RefreshKeepsSupplement(ps[j], byDate);
    }
  }

  lemma RefreshKeepsAnomaly(a: AnomalyRecord, byDate: map<string, PersonalRecord>)
    ensures Refresh(FromAnomaly(a, PersonalFor(byDate, a.date)), byDate) == FromAnomaly(a, PersonalFor(byDate, a.date))
  {
  }

  lemma RefreshKeepsSupplement(p: PersonalRecord, byDate: map<string, PersonalRecord>)
    requires p.date in byDate && byDate[p.date] == p
    ensures Refresh(FromPersonal(p), byDate) == FromPersonal(p)
  {
  }

  // ---------------------------------------------------------------- the service

  /** `getattr(settings, "CACHE_DURATION_SECONDS", 300)` when the settings lack the attribute. */
  const DEFAULT_CACHE_DURATION := 300.0

  /**
   * `DataSyncService`: the cached snapshot and when it was stored. Times
   * are seconds; `now` and `today` stand for the clock readings.
   */
  class DataSyncService {
    var cache: Option<AttendanceSnapshot>
    var cacheTimestamp: Option<real>
    /** The largest age, in seconds, at which the cache is still served. */
    const maxAge: real

    constructor(cacheDurationSetting: Option<real>)
      ensures cache == None && cacheTimestamp == None
      ensures maxAge == cacheDurationSetting.GetOr(DEFAULT_CACHE_DURATION)
    {
      cache := None;
      cacheTimestamp := None;
      maxAge := cacheDurationSetting.GetOr(DEFAULT_CACHE_DURATION);
    }

    /** `_is_cache_valid`: a snapshot and its time are held, and it is younger than the maximum age. */
    predicate IsCacheValid(now: real)
      reads this
    {
      cache.Some? && cacheTimestamp.Some? && now - cacheTimestamp.value < maxAge
    }

    /**
     * `sync_all`: a valid cache is returned unless a refresh is forced;
     * otherwise both pages are fetched and the new snapshot replaces the
     * cache. When the fetch fails with a request error (a timeout included)
     * a held cache is returned however old; without one, or on any other
     * error, the error is raised. A failure leaves the cache as it was.
     */
    method SyncAll(force: bool, now: real, today: string, attendance: PageOutcome, personal: PageOutcome)
      returns (result: Outcome<AttendanceSnapshot>)
      modifies this
      ensures !force && old(IsCacheValid(now)) ==>
                result == Success(old(cache).value) && cache == old(cache) && cacheTimestamp == old(cacheTimestamp)
      ensures (force || !old(IsCacheValid(now))) && FetchPages(attendance, personal).Fetched? ==>
                var fetched := FetchPages(attendance, personal);
                result == Success(BuildSnapshot(fetched.attendancePage, fetched.personalPage, now, today)) &&
                cache == Some(result.value) && cacheTimestamp == Some(now) &&
                forall later :: IsCacheValid(later) <==> later - now < maxAge
      ensures (force || !old(IsCacheValid(now))) && FetchPages(attendance, personal).FetchFailed? ==>
                var e := FetchPages(attendance, personal).error;
                cache == old(cache) && cacheTimestamp == old(cacheTimestamp) &&
                result == (if e != OtherError && old(cache).Some? then Success(old(cache).value) else Raised(e))
    {
      if !force && IsCacheValid(now) {
        return Success(cache.value);
      }
      var fetched := FetchPages(attendance, personal);
      if fetched.FetchFailed? {
        if fetched.error != OtherError && cache.Some? {
          return Success(cache.value);
        }
        return Raised(fetched.error);
      }
      var punchRecords := AttendanceParser.ParsePunchRecords(fetched.attendancePage);
      var leaveRecords := AttendanceParser.ParseLeaveRecords(fetched.attendancePage);
      var quota := AttendanceParser.ParseQuota(fetched.attendancePage);
      var anomalies := AttendanceParser.ParseAnomalyRecords(fetched.attendancePage);
      var personalRecords := PersonalRecordParser.ParseRecords(fetched.personalPage);
      var unified := MergeOvertimeData(anomalies, personalRecords);
      var range := CalculateDateRange(unified, today);
      var statistics := CalculateStatistics(unified, range.startDate, range.endDate);
      var snapshot := AttendanceSnapshot(
        range.startDate, range.endDate, now, punchRecords, leaveRecords, quota, unified, Some(statistics));
      cache := Some(snapshot);
      cacheTimestamp := Some(now);
      result := Success(snapshot);
    }

    /**
     * `sync_overtime_status`: without a cache, a full `sync_all`. With one,
     * only the personal-record page is fetched and the cached records are
     * refreshed from it; the snapshot's other parts, its statistics
     * included, and its time stay as they were. A failed fetch returns the
     * cached records unchanged.
     */
    method SyncOvertimeStatus(now: real, today: string, attendance: PageOutcome, personal: PageOutcome)
      returns (result: Outcome<seq<UnifiedOvertimeRecord>>)
      modifies this
      ensures old(cache).None? && FetchPages(attendance, personal).Fetched? ==>
                var fetched := FetchPages(attendance, personal);
                var snapshot := BuildSnapshot(fetched.attendancePage, fetched.personalPage, now, today);
                result == Success(snapshot.unifiedRecords) && cache == Some(snapshot) && cacheTimestamp == Some(now)
      ensures old(cache).None? && FetchPages(attendance, personal).FetchFailed? ==>
                result == Raised(FetchPages(attendance, personal).error) &&
                cache == old(cache) && cacheTimestamp == old(cacheTimestamp)
      ensures old(cache).Some? && FetchPage(PERSONAL_PAGE_ATTRIBUTE, personal).PageFailed? ==>
                result == Success(old(cache).value.unifiedRecords) &&
                cache == old(cache) && cacheTimestamp == old(cacheTimestamp)
      ensures old(cache).Some? && FetchPage(PERSONAL_PAGE_ATTRIBUTE, personal).Page? ==>
                var page := FetchPage(PERSONAL_PAGE_ATTRIBUTE, personal).doc;
                var byDate := ByDate(PersonalRecordParser.PersonalRecordsOf(page));
                cache == Some(old(cache).value.(unifiedRecords := Refreshed(old(cache).value.unifiedRecords, byDate))) &&
                cacheTimestamp == old(cacheTimestamp) &&
                result == Success(cache.value.unifiedRecords)
    {
      if cache.None? {
        var synced := SyncAll(false, now, today, attendance, personal);
        if synced.Raised? {
          return Raised(synced.error);
        }
        return Success(synced.value.unifiedRecords);
      }
      var page := FetchPage(PERSONAL_PAGE_ATTRIBUTE, personal);
      if page.PageFailed? {
        return Success(cache.value.unifiedRecords);
      }
      var personalRecords := PersonalRecordParser.ParseRecords(page.doc);
      var byDate := ByDate(personalRecords);
      var snapshot := cache.value;
      var records := snapshot.unifiedRecords;
      var i := 0;
      while i < |records|
        invariant 0 <= i <= |records| == |snapshot.unifiedRecords|
        invariant forall k :: 0 <= k < i ==> records[k] == Refresh(snapshot.unifiedRecords[k], byDate)
        invariant forall k :: i <= k < |records| ==> records[k] == snapshot.unifiedRecords[k]
      {
        var found := PersonalFor(byDate, records[i].date);
        if found.Some? {
          records := records[i := records[i].(
            submitted := true,
            submissionStatus := Some(found.value.status),
            monthlyTotal := Some(found.value.monthlyTotal),
            quarterlyTotal := Some(found.value.quarterlyTotal))];
        }
        i := i + 1;
      }
      assert records == Refreshed(snapshot.unifiedRecords, byDate);
      cache := Some(snapshot.(unifiedRecords := records));
      result := Success(records);
    }

    /** `clear_cache`: both fields dropped, so no cache is valid until the next fetch. */
    method ClearCache()
      modifies this
      ensures cache == None && cacheTimestamp == None
      ensures forall now :: !IsCacheValid(now)
    {
      cache := None;
      cacheTimestamp := None;
    }
  }
}
