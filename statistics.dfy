/** The statistics tab: which participants are shown, each one's absence hours and rate,
    the list ordered by rate, the planned and absent totals, the overall rate and the alert
    counts. */
module Statistics {
  import opened Lists
  import opened Sums
  import opened Sorting
  import opened Types
  import opened Constants
  import opened Attendance

  // ---------------------------------------------------------------------------
  // The participants shown
  // ---------------------------------------------------------------------------

  /** `participants.filter(p => p.trainingYear === selectedYear)`. */
  function ParticipantsForYear(participants: seq<Participant>, year: string): seq<Participant> {
    Filter(participants, (p: Participant) => p.trainingYear == year)
  }

  /** `filteredParticipants`: an administrator narrows the year's participants by group and
      by CEF, unless either selector reads 'all'; anyone else sees the whole year. */
  function FilteredParticipants(participants: seq<Participant>, year: string, isAdmin: bool,
                                group: string, cef: string): seq<Participant>
  {
    var forYear := ParticipantsForYear(participants, year);
    if !isAdmin then forYear
    else
      Filter(Filter(forYear, (p: Participant) => group == "all" || p.groupe == group),
             (p: Participant) => cef == "all" || p.cef == cef)
  }

  /** What the selectors let through. */
  predicate Shown(p: Participant, year: string, isAdmin: bool, group: string, cef: string) {
    && p.trainingYear == year
    && (isAdmin ==> (group == "all" || p.groupe == group) && (cef == "all" || p.cef == cef))
  }

  /** A participant is shown exactly when it is one of the participants and passes the
      selectors. */
  lemma FilteredParticipantsMembers(participants: seq<Participant>, year: string, isAdmin: bool,
                                    group: string, cef: string, p: Participant)
    ensures p in FilteredParticipants(participants, year, isAdmin, group, cef)
      <==> p in participants && Shown(p, year, isAdmin, group, cef)
  {
    var byYear := (q: Participant) => q.trainingYear == year;
    var byGroup := (q: Participant) => group == "all" || q.groupe == group;
    var byCef := (q: Participant) => cef == "all" || q.cef == cef;
    var forYear := Filter(participants, byYear);
    FilterMembers(participants, byYear, p);
    if isAdmin {
      var inGroup := Filter(forYear, byGroup);
      FilterMembers(forYear, byGroup, p);
      FilterMembers(inGroup, byCef, p);
    }
  }

  /** Showing all groups and all participants shows the whole year. */
  lemma AllSelectorsShowYear(participants: seq<Participant>, year: string, isAdmin: bool)
    ensures FilteredParticipants(participants, year, isAdmin, "all", "all")
      == ParticipantsForYear(participants, year)
  {
    if isAdmin {
      var forYear := ParticipantsForYear(participants, year);
      FilterKeepsAll(forYear, (p: Participant) => "all" == "all" || p.groupe == "all");
      FilterKeepsAll(forYear, (p: Participant) => "all" == "all" || p.cef == "all");
    }
  }

  // ---------------------------------------------------------------------------
  // One line per participant, ordered by rate
  // ---------------------------------------------------------------------------

  /** One line of the table: a participant, its absence hours and its absence rate. */
  datatype Stat = Stat(participant: Participant, totalAbsenceHours: real, absenceRate: real)

  /** The line of one participant: the hours of the days marked absent in its ledger, and
      those hours over the planned hours when these are positive, otherwise 0. */
  ghost function StatOf(attendance: AttendanceRecord, p: Participant): Stat {
    var hours := AbsenceHours(LedgerOf(attendance, p.cef));
    Stat(p, hours, StatsRate(p.mhAnnuelleAffectee, hours))
  }

  /** The lines in the order of the participants. */
  ghost function StatsOf(attendance: AttendanceRecord, ps: seq<Participant>): (r: seq<Stat>)
    ensures |r| == |ps|
    ensures forall i :: 0 <= i < |ps| ==> r[i] == StatOf(attendance, ps[i])
  {
    seq(|ps|, i requires 0 <= i < |ps| => StatOf(attendance, ps[i]))
  }

  /** The comparator `(a, b) => b.absenceRate - a.absenceRate`: `a` may come first when its
      rate is at least `b`'s. */
  predicate RateFirst(a: Stat, b: Stat) {
    a.absenceRate >= b.absenceRate
  }

  lemma RateFirstTotalPreorder()
    ensures TotalPreorder(RateFirst)
  {
  }

  /** `statistics`: the lines of the shown participants, highest rate first (a stable sort,
      as JavaScript's is). */
  ghost function StatisticsOf(attendance: AttendanceRecord, ps: seq<Participant>): seq<Stat> {
    SortBy(StatsOf(attendance, ps), RateFirst)
  }

  /** The `map` with its `for...in` accumulation, then the sort. */
  method ComputeStatistics(attendance: AttendanceRecord, ps: seq<Participant>)
    returns (stats: seq<Stat>)
    ensures stats == StatisticsOf(attendance, ps)
  {
    var lines: seq<Stat> := [];
    var i := 0;
    while i < |ps|
      invariant 0 <= i <= |ps|
      invariant |lines| == i
      invariant forall j :: 0 <= j < i ==> lines[j] == StatOf(attendance, ps[j])
    {
      var p := ps[i];
      var hours := SumAbsenceHours(LedgerOf(attendance, p.cef));
      var rate := if p.mhAnnuelleAffectee > 0.0 then hours / p.mhAnnuelleAffectee else 0.0;
      lines := lines + [Stat(p, hours, rate)];
      i := i + 1;
    }
    assert lines == StatsOf(attendance, ps);
    stats := SortBy(lines, RateFirst);
  }

  /** The table runs from the highest rate down. */
  lemma StatisticsSorted(attendance: AttendanceRecord, ps: seq<Participant>)
    ensures var stats := StatisticsOf(attendance, ps);
      forall i, j :: 0 <= i < j < |stats| ==> stats[i].absenceRate >= stats[j].absenceRate
  {
    RateFirstTotalPreorder();
    SortBySorted(StatsOf(attendance, ps), RateFirst);
  }

  /** The table holds one line per shown participant: the same lines as before sorting. */
  lemma StatisticsPermutation(attendance: AttendanceRecord, ps: seq<Participant>)
    ensures multiset(StatisticsOf(attendance, ps)) == multiset(StatsOf(attendance, ps))
    ensures |StatisticsOf(attendance, ps)| == |ps|
  {
  }

  /** Every line of the table is the line of a shown participant, and every shown participant
      has its line. */
  lemma StatisticsMembers(attendance: AttendanceRecord, ps: seq<Participant>, s: Stat)
    ensures s in StatisticsOf(attendance, ps)
      <==> s.participant in ps && s == StatOf(attendance, s.participant)
  {
    var lines := StatsOf(attendance, ps);
    assert s in StatisticsOf(attendance, ps) <==> s in multiset(lines);
    if s in lines {
      var i :| 0 <= i < |lines| && lines[i] == s;
      assert s.participant == ps[i];
    }
    if s.participant in ps && s == StatOf(attendance, s.participant) {
      var i :| 0 <= i < |ps| && ps[i] == s.participant;
      assert lines[i] == s;
    }
  }

  // ---------------------------------------------------------------------------
  // Totals and the overall rate
  // ---------------------------------------------------------------------------

  function PlannedOf(s: Stat): real {
    s.participant.mhAnnuelleAffectee
  }

  function AbsentOf(s: Stat): real {
    s.totalAbsenceHours
  }

  /** The `reduce` adding up the planned and the absent hours of the table. */
  method Totals(stats: seq<Stat>) returns (planned: real, absent: real)
    ensures planned == SumBy(stats, PlannedOf) && absent == SumBy(stats, AbsentOf)
  {
    planned, absent := 0.0, 0.0;
    var i := 0;
    while i < |stats|
      invariant 0 <= i <= |stats|
      invariant planned == SumBy(stats[..i], PlannedOf)
      invariant absent == SumBy(stats[..i], AbsentOf)
    {
      PrefixSnoc(stats, i);
      SumByAppend(stats[..i], [stats[i]], PlannedOf);
      SumByAppend(stats[..i], [stats[i]], AbsentOf);
      planned := planned + stats[i].participant.mhAnnuelleAffectee;
      absent := absent + stats[i].totalAbsenceHours;
      i := i + 1;
    }
    assert stats[..i] == stats;
  }

  /** Sorting does not change the totals: the planned total is that of the shown
      participants, and the absent total is the sum of their absence hours. */
  lemma TotalsOfShown(attendance: AttendanceRecord, ps: seq<Participant>)
    ensures SumBy(StatisticsOf(attendance, ps), PlannedOf) == SumBy(ps, PlannedHours)
    ensures SumBy(StatisticsOf(attendance, ps), AbsentOf) == AbsentTotal(attendance, ps)
  {
    var lines := StatsOf(attendance, ps);
    SumByPermutation(lines, StatisticsOf(attendance, ps), PlannedOf);
    SumByPermutation(lines, StatisticsOf(attendance, ps), AbsentOf);
    PlannedOfLines(attendance, ps);
    AbsentOfLines(attendance, ps);
  }

  function PlannedHours(p: Participant): real {
    p.mhAnnuelleAffectee
  }

  /** The absence hours of the participants, added up. */
  ghost function AbsentTotal(attendance: AttendanceRecord, ps: seq<Participant>): real
    decreases |ps|
  {
    if ps == [] then 0.0
    else AbsenceHours(LedgerOf(attendance, ps[0].cef)) + AbsentTotal(attendance, ps[1..])
  }

  lemma {:induction false} PlannedOfLines(attendance: AttendanceRecord, ps: seq<Participant>)
    ensures SumBy(StatsOf(attendance, ps), PlannedOf) == SumBy(ps, PlannedHours)
    decreases |ps|
  {
    if ps != [] {
      PlannedOfLines(attendance, ps[1..]);
      assert StatsOf(attendance, ps)[1..] == StatsOf(attendance, ps[1..]);
    }
  }

  lemma {:induction false} AbsentOfLines(attendance: AttendanceRecord, ps: seq<Participant>)
    ensures SumBy(StatsOf(attendance, ps), AbsentOf) == AbsentTotal(attendance, ps)
    decreases |ps|
  {
    if ps != [] {
      AbsentOfLines(attendance, ps[1..]);
      assert StatsOf(attendance, ps)[1..] == StatsOf(attendance, ps[1..]);
    }
  }

  /** `overallAbsenceRate`: the absent total as a percentage of the planned total, 0 when
      nothing is planned. */
  function OverallRate(planned: real, absent: real): (percent: real)
    ensures planned <= 0.0 ==> percent == 0.0
    ensures planned > 0.0 ==> percent * planned == absent * 100.0
  {
    if planned > 0.0 then (absent / planned) * 100.0 else 0.0
  }

  /** The overall rate shows red when it exceeds the threshold expressed as a percentage:
      exactly when the absent total exceeds 30 % of a positive planned total. */
  lemma OverallRateRed(planned: real, absent: real)
    ensures OverallRate(planned, absent) > AbsenceThreshold * 100.0
      <==> planned > 0.0 && absent > AbsenceThreshold * planned
  {
    if planned > 0.0 {
      var percent := OverallRate(planned, absent);
      assert percent * planned == absent * 100.0;
      if percent > AbsenceThreshold * 100.0 {
        assert percent * planned > AbsenceThreshold * 100.0 * planned;
      }
      if absent > AbsenceThreshold * planned {
        assert percent * planned > AbsenceThreshold * 100.0 * planned;
      }
    }
  }

  // ---------------------------------------------------------------------------
  // Alerts
  // ---------------------------------------------------------------------------

  /** `participantsOverThreshold`: how many lines have a rate above the threshold. */
  function AlertCount(stats: seq<Stat>): (n: nat)
    ensures n <= |stats|
  {
    |Filter(stats, (s: Stat) => OverThreshold(s.absenceRate))|
  }

  /** `userIsOverThreshold`: the first line is above the threshold. */
  predicate FirstOverThreshold(stats: seq<Stat>) {
    |stats| > 0 && OverThreshold(stats[0].absenceRate)
  }

  /** Some line is counted exactly when some line is above the threshold. */
  lemma AlertCountPositive(stats: seq<Stat>)
    ensures AlertCount(stats) > 0 <==> exists s :: s in stats && OverThreshold(s.absenceRate)
  {
    var over := (s: Stat) => OverThreshold(s.absenceRate);
    var flagged := Filter(stats, over);
    if flagged != [] {
      FilterMembers(stats, over, flagged[0]);
    }
    if exists s :: s in stats && OverThreshold(s.absenceRate) {
      var s :| s in stats && OverThreshold(s.absenceRate);
      FilterMembers(stats, over, s);
    }
  }

  /** On the sorted table, the first line is above the threshold exactly when some line is:
      the trainee's banner and the administrator's count agree. */
  lemma FirstOverThresholdIffAlert(attendance: AttendanceRecord, ps: seq<Participant>)
    ensures var stats := StatisticsOf(attendance, ps);
      FirstOverThreshold(stats) <==> AlertCount(stats) > 0
  {
    var stats := StatisticsOf(attendance, ps);
    AlertCountPositive(stats);
    StatisticsSorted(attendance, ps);
    if exists s :: s in stats && OverThreshold(s.absenceRate) {
      var s :| s in stats && OverThreshold(s.absenceRate);
      var j :| 0 <= j < |stats| && stats[j] == s;
      assert j == 0 || stats[0].absenceRate >= stats[j].absenceRate;
    }
  }

  /** The alert counts the shown participants whose absence hours give a rate above the
      threshold. */
  lemma AlertCountOfShown(attendance: AttendanceRecord, ps: seq<Participant>)
    ensures AlertCount(StatisticsOf(attendance, ps)) > 0
      <==> exists p :: p in ps && OverThreshold(StatOf(attendance, p).absenceRate)
  {
    var stats := StatisticsOf(attendance, ps);
    AlertCountPositive(stats);
    if exists s :: s in stats && OverThreshold(s.absenceRate) {
      var s :| s in stats && OverThreshold(s.absenceRate);
      StatisticsMembers(attendance, ps, s);
    }
    if exists p :: p in ps && OverThreshold(StatOf(attendance, p).absenceRate) {
      var p :| p in ps && OverThreshold(StatOf(attendance, p).absenceRate);
      StatisticsMembers(attendance, ps, StatOf(attendance, p));
    }
  }
}
