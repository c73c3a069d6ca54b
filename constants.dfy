/** The fixed tables of the application: session hours per weekday and the tolerated
    absence rate. */
module Constants {

  /** Hours of one session by weekday (1 = Monday, ..., 6 = Saturday); Sunday has no entry. */
  const SessionHours: map<nat, real> :=
    map[1 := 2.5, 2 := 2.5, 3 := 2.5, 4 := 2.5, 5 := 2.5, 6 := 5.0]

  /** The tolerated absence rate: 30 %. */
  const AbsenceThreshold: real := 0.30

  /** `SESSION_HOURS[weekday] || 0`: the hours an absence on that weekday costs. */
  function HoursForWeekday(weekday: nat): (h: real)
    ensures 1 <= weekday <= 5 ==> h == 2.5
    ensures weekday == 6 ==> h == 5.0
    ensures weekday == 0 || weekday > 6 ==> h == 0.0
  {
    if weekday in SessionHours then SessionHours[weekday] else 0.0
  }

  /** A full Monday-to-Saturday week of sessions lasts 17.5 hours. */
  lemma WeekHours()
    ensures HoursForWeekday(1) + HoursForWeekday(2) + HoursForWeekday(3) + HoursForWeekday(4)
      + HoursForWeekday(5) + HoursForWeekday(6) == 17.5
  {
  }

  /** No session costs a negative number of hours, and none more than 5. */
  lemma HoursBounds(weekday: nat)
    ensures 0.0 <= HoursForWeekday(weekday) <= 5.0
  {
  }
}
