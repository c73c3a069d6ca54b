/** The absence ledger and what an absence costs: the checkbox grid, the hours of a marked
    day, the `for...in` accumulation of a participant's absence hours and the absence rate. */
module Attendance {
  import opened Wrappers
  import opened Sums
  import opened Calendar
  import opened Constants
  import opened Types

  // ---------------------------------------------------------------------------
  // Hours of a marked day
  // ---------------------------------------------------------------------------

  /** `SESSION_HOURS[getDay(new Date(key))] || 0`: a key that is not a date costs nothing. */
  function HoursOfKey(key: string): (h: real)
    ensures 0.0 <= h <= 5.0
  {
    match ParseIso(key)
    case None => 0.0
    case Some(d) => HoursForWeekday(Weekday(d))
  }

  /** The key of a day costs the hours of that day's weekday. */
  lemma HoursOfDate(d: Date)
    requires ValidDate(d) && d.year <= 9999
    ensures HoursOfKey(FormatIso(d)) == HoursForWeekday(Weekday(d))
  {
    ParseFormatIso(d);
  }

  /** The hours of the days among `keys` marked absent. */
  ghost function AbsentHoursOn(days: DayLedger, keys: set<string>): map<string, real> {
    map k | k in keys && k in days && days[k] :: HoursOfKey(k)
  }

  /** A participant's absence hours: the hours of every day marked absent. */
  ghost function AbsenceHours(days: DayLedger): real {
    SumValues(AbsentHoursOn(days, days.Keys))
  }

  /** One more key of the ledger visited: its hours are added when it is marked absent. */
  lemma AbsentHoursStep(days: DayLedger, todo: set<string>, k: string)
    requires todo <= days.Keys && k in todo
    ensures SumValues(AbsentHoursOn(days, days.Keys - (todo - {k})))
      == SumValues(AbsentHoursOn(days, days.Keys - todo)) + (if days[k] then HoursOfKey(k) else 0.0)
  {
    var before := AbsentHoursOn(days, days.Keys - todo);
    assert days.Keys - (todo - {k}) == (days.Keys - todo) + {k};
    if days[k] {
      assert AbsentHoursOn(days, days.Keys - (todo - {k})) == before[k := HoursOfKey(k)];
      SumValuesInsert(before, k, HoursOfKey(k));
    } else {
      assert AbsentHoursOn(days, days.Keys - (todo - {k})) == before;
    }
  }

  lemma AbsentHoursAll(days: DayLedger)
    ensures AbsentHoursOn(days, days.Keys - {}) == AbsentHoursOn(days, days.Keys)
  {
    assert days.Keys - {} == days.Keys;
  }

  /** The `for (const dateStr in participantAbsences)` loop adding up the hours of the days
      marked absent. */
  method SumAbsenceHours(days: DayLedger) returns (hours: real)
    ensures hours == AbsenceHours(days)
  {
    hours := 0.0;
    var todo := days.Keys;
    assert AbsentHoursOn(days, days.Keys - todo) == map[];
    while todo != {}
      invariant todo <= days.Keys
      invariant hours == SumValues(AbsentHoursOn(days, days.Keys - todo))
      decreases |todo|
    {
      var k :| k in todo;
      AbsentHoursStep(days, todo, k);
      if days[k] {
        hours := hours + HoursOfKey(k);
      }
      todo := todo - {k};
    }
    AbsentHoursAll(days);
  }

  /** No ledger has negative absence hours. */
  lemma AbsenceHoursNonNegative(days: DayLedger)
    ensures AbsenceHours(days) >= 0.0
  {
    SumValuesNonNegative(AbsentHoursOn(days, days.Keys));
  }

  /** Marking a day absent that was not adds exactly that day's hours. */
  lemma AbsenceHoursMark(days: DayLedger, k: string)
    requires k !in days || !days[k]
    ensures AbsenceHours(days[k := true]) == AbsenceHours(days) + HoursOfKey(k)
  {
    var before := AbsentHoursOn(days, days.Keys);
    var after := days[k := true];
    assert AbsentHoursOn(after, after.Keys) == before[k := HoursOfKey(k)];
    SumValuesInsert(before, k, HoursOfKey(k));
  }

  /** Clearing a day that was marked absent takes exactly that day's hours away. */
  lemma AbsenceHoursUnmark(days: DayLedger, k: string)
    requires k in days && days[k]
    ensures AbsenceHours(days[k := false]) == AbsenceHours(days) - HoursOfKey(k)
  {
    var before := AbsentHoursOn(days, days.Keys);
    var after := days[k := false];
    assert AbsentHoursOn(after, after.Keys) == before - {k};
    SumValuesRemove(before, k);
  }

  // ---------------------------------------------------------------------------
  // Absence rate and threshold
  // ---------------------------------------------------------------------------

  /** The rate of the attendance grid: none when the planned hours are 0, otherwise the
      quotient, whatever the sign of the planned hours. */
  function GridRate(planned: real, hours: real): (rate: real)
    ensures planned == 0.0 ==> rate == 0.0
    ensures planned != 0.0 ==> rate * planned == hours
  {
    if planned == 0.0 then 0.0 else hours / planned
  }

  /** The rate of the statistics tab: the quotient only when the planned hours are positive. */
  function StatsRate(planned: real, hours: real): (rate: real)
    ensures planned <= 0.0 ==> rate == 0.0
    ensures planned > 0.0 ==> rate * planned == hours
    ensures planned > 0.0 && hours >= 0.0 ==> rate >= 0.0
  {
    if planned > 0.0 then hours / planned else 0.0
  }

  /** The two rates agree unless the planned hours are negative. */
  lemma RatesAgree(planned: real, hours: real)
    requires planned >= 0.0
    ensures GridRate(planned, hours) == StatsRate(planned, hours)
  {
  }

  /** With negative planned hours the grid shows a rate where the statistics show none. */
  lemma RatesDisagree(planned: real, hours: real)
    requires planned < 0.0 && hours != 0.0
    ensures GridRate(planned, hours) != StatsRate(planned, hours)
  {
  }

  /** `rate > ABSENCE_THRESHOLD`: the row is flagged. */
  predicate OverThreshold(rate: real) {
    rate > AbsenceThreshold
  }

  /** With positive planned hours, a participant is flagged exactly when the absence hours
      exceed 30 % of the planned hours. */
  lemma OverThresholdHours(planned: real, hours: real)
    requires planned > 0.0
    ensures OverThreshold(GridRate(planned, hours)) <==> hours > AbsenceThreshold * planned
    ensures OverThreshold(StatsRate(planned, hours)) <==> hours > AbsenceThreshold * planned
  {
    var rate := hours / planned;
    assert rate * planned == hours;
    if rate > AbsenceThreshold {
      assert rate * planned > AbsenceThreshold * planned;
    }
    if hours > AbsenceThreshold * planned {
      assert rate * planned > AbsenceThreshold * planned;
    }
  }

  /** `calculateAbsenceRate`: the participant's absence hours over the planned hours. */
  method CalculateAbsenceRate(p: Participant, attendance: AttendanceRecord) returns (rate: real)
    ensures rate == GridRate(p.mhAnnuelleAffectee, AbsenceHours(LedgerOf(attendance, p.cef)))
  {
    var total := SumAbsenceHours(LedgerOf(attendance, p.cef));
    if p.mhAnnuelleAffectee == 0.0 {
      return 0.0;
    }
    return total / p.mhAnnuelleAffectee;
  }

  // ---------------------------------------------------------------------------
  // The checkbox grid
  // ---------------------------------------------------------------------------

  /** `attendance[cef]?.[date] || false`: the state of one checkbox. */
  predicate IsChecked(attendance: AttendanceRecord, cef: string, date: string) {
    cef in attendance && date in attendance[cef] && attendance[cef][date]
  }

  /** `handleAttendanceChange`: records `isAbsent` for one participant and one day. */
  function SetAbsence(attendance: AttendanceRecord, cef: string, date: string, isAbsent: bool)
    : AttendanceRecord
  {
    attendance[cef := LedgerOf(attendance, cef)[date := isAbsent]]
  }

  /** After a change, the changed checkbox shows the new value and every other checkbox
      shows what it showed before. */
  lemma SetAbsenceReads(attendance: AttendanceRecord, cef: string, date: string, isAbsent: bool,
                        c: string, d: string)
    ensures IsChecked(SetAbsence(attendance, cef, date, isAbsent), c, d)
      == if c == cef && d == date then isAbsent else IsChecked(attendance, c, d)
  {
  }

  /** A change touches one participant's ledger only, and one day of it. */
  lemma SetAbsenceFrame(attendance: AttendanceRecord, cef: string, date: string, isAbsent: bool)
    ensures var r := SetAbsence(attendance, cef, date, isAbsent);
      && r.Keys == attendance.Keys + {cef}
      && (forall c :: c in attendance && c != cef ==> r[c] == attendance[c])
      && r[cef].Keys == LedgerOf(attendance, cef).Keys + {date}
      && (forall d :: d in LedgerOf(attendance, cef) && d != date ==> r[cef][d] == attendance[cef][d])
  {
  }

  /** What a checkbox of the grid emits: the participant, the day's key and the new state. */
  datatype CheckboxChange = CheckboxChange(cef: string, key: string, isAbsent: bool)

  function ChangeOf(cef: string, day: Date, checked: bool): CheckboxChange {
    CheckboxChange(cef, FormatIso(day), checked)
  }

  /** Ticking the box of a day that was clear adds that weekday's session hours to the
      participant's absence hours. */
  lemma TickAddsSessionHours(attendance: AttendanceRecord, cef: string, day: Date)
    requires ValidDate(day) && day.year <= 9999
    requires !IsChecked(attendance, cef, FormatIso(day))
    ensures var ch := ChangeOf(cef, day, true);
      AbsenceHours(LedgerOf(SetAbsence(attendance, ch.cef, ch.key, ch.isAbsent), cef))
        == AbsenceHours(LedgerOf(attendance, cef)) + HoursForWeekday(Weekday(day))
  {
    var key := FormatIso(day);
    AbsenceHoursMark(LedgerOf(attendance, cef), key);
    HoursOfDate(day);
  }
}
