/** The History tab: the monthly summary of one group (on screen and in the PDF export), the
    grouping of the saved weeks by training year, month and group, and the order the years and
    groups are listed in. */
module HistoryTab {
  import opened Wrappers
  import opened Strings
  import opened Lists
  import opened Sums
  import opened Sorting
  import opened Ordering
  import opened Calendar
  import opened Types
  import opened Attendance
  import opened DateUtils

  // ---------------------------------------------------------------------------
  // The monthly summary
  // ---------------------------------------------------------------------------

  /** One line of the summary: the participant, the hours of each week and their total. */
  datatype StatRow = StatRow(cef: string, nom: string, prenom: string, groupe: string,
                             weeklyAbsenceHours: seq<real>, totalHours: real)

  /** `summaryData`: the labels of the weeks and one line per participant. */
  datatype Summary = Summary(weeks: seq<string>, participantStats: seq<StatRow>)

  /** `allMonthsForYear.find(m => m.label === monthLabel)`. */
  function MonthByLabel(months: seq<MonthOption>, caption: string): (r: Option<MonthOption>)
    ensures r.Some? ==> r.value in months && r.value.caption == caption
    ensures r.None? <==> forall m :: m in months ==> m.caption != caption
  {
    Find(months, (m: MonthOption) => m.caption == caption)
  }

  /** `entries.find(e => e.weekLabel === weekLabel)`. */
  function EntryForWeek(entries: seq<HistoryEntry>, weekLabel: string): (r: Option<HistoryEntry>)
    ensures r.Some? ==> r.value in entries && r.value.weekLabel == weekLabel
    ensures r.None? <==> forall e :: e in entries ==> e.weekLabel != weekLabel
  {
    Find(entries, (e: HistoryEntry) => e.weekLabel == weekLabel)
  }

  /** `participants.filter(p => p.trainingYear === year && p.groupe === group)` sorted by `nom`. */
  function GroupMembers(participants: seq<Participant>, year: string, group: string): seq<Participant> {
    SortByNom(Filter(participants, (p: Participant) => p.trainingYear == year && p.groupe == group))
  }

  /** The hours of one week of one participant: nothing without a saved entry for the week's
      label, otherwise the hours of the days the entry marks absent for that participant. */
  ghost function WeekHours(entries: seq<HistoryEntry>, weekLabel: string, cef: string): real {
    match EntryForWeek(entries, weekLabel)
    case None => 0.0
    case Some(entry) => AbsenceHours(LedgerOf(entry.attendance, cef))
  }

  /** `weeklyAbsenceHours`: the hours of each week, in the order of the weeks. */
  ghost function WeeklyHours(entries: seq<HistoryEntry>, weeks: seq<seq<Date>>, cef: string): (hs: seq<real>)
    ensures |hs| == |weeks|
    ensures forall k :: 0 <= k < |weeks| ==> hs[k] == WeekHours(entries, FormatWeekLabel(weeks[k]), cef)
  {
    seq(|weeks|, k requires 0 <= k < |weeks| => WeekHours(entries, FormatWeekLabel(weeks[k]), cef))
  }

  /** The line of one participant. */
  ghost function StatRowOf(p: Participant, weeks: seq<seq<Date>>, entries: seq<HistoryEntry>): StatRow {
    var hours := WeeklyHours(entries, weeks, p.cef);
    StatRow(p.cef, p.nom, p.prenom, p.groupe, hours, SumSeq(hours))
  }

  /** The labels of the weeks. */
  function WeekLabels(weeks: seq<seq<Date>>): (labels: seq<string>)
    ensures |labels| == |weeks|
    ensures forall k :: 0 <= k < |weeks| ==> labels[k] == FormatWeekLabel(weeks[k])
  {
    seq(|weeks|, k requires 0 <= k < |weeks| => FormatWeekLabel(weeks[k]))
  }

  /** A month of a training year always has weeks. */
  lemma MonthOfYearHasWeeks(start: nat, month: MonthOption)
    requires month in TrainingMonths(start, 11)
    ensures WeeksForMonthKey(month.value).Some? && WeeksForMonthKey(month.value).value != []
  {
    var months := TrainingMonths(start, 11);
    var i :| 0 <= i < 11 && months[i] == month;
    TrainingMonthKey(start, i);
    var m := TrainingMonthIndex(i) + 1;
    WeeksForFormattedKey(TrainingMonthYear(start, i), m);
    WeeksOfMonthNonEmpty(TrainingMonthYear(start, i), m);
  }

  /** The weeks of the month captioned `monthLabel` in the training year: present exactly when
      the year has such a month, and then never empty. */
  function WeeksOfLabel(year: string, monthLabel: string): (r: Option<seq<seq<Date>>>)
    requires MonthsForTrainingYear(year).Some?
    ensures r.Some? <==> MonthByLabel(MonthsForTrainingYear(year).value, monthLabel).Some?
    ensures r.Some? ==> r.value != []
  {
    match MonthByLabel(MonthsForTrainingYear(year).value, monthLabel)
    case None => None
    case Some(month) =>
      MonthOfYearHasWeeks(ParseIntPrefix(Split(year, '-')[0]).value, month);
      WeeksForMonthKey(month.value)
  }

  /** The lines of the participants, one each, in their order. */
  ghost function StatRows(members: seq<Participant>, weeks: seq<seq<Date>>, entries: seq<HistoryEntry>): (rows: seq<StatRow>)
    ensures |rows| == |members|
    ensures forall i :: 0 <= i < |members| ==> rows[i] == StatRowOf(members[i], weeks, entries)
  {
    seq(|members|, i requires 0 <= i < |members| => StatRowOf(members[i], weeks, entries))
  }

  /** `summaryData`: empty when the caption names no month of the year or the month has no
      week; otherwise the week labels and one line per participant of the year and group,
      sorted by `nom`. */
  ghost function SummaryData(year: string, monthLabel: string, group: string, entries: seq<HistoryEntry>,
                             participants: seq<Participant>): Summary
    requires MonthsForTrainingYear(year).Some?
  {
    match WeeksOfLabel(year, monthLabel)
    case None => Summary([], [])
    case Some(weeks) =>
      if weeks == [] then Summary([], [])
      else Summary(WeekLabels(weeks), StatRows(GroupMembers(participants, year, group), weeks, entries))
  }

  /** The hours of one week: the entry of the week, then the `for...in` loop over the
      participant's days. */
  method WeekAbsenceHours(entries: seq<HistoryEntry>, week: seq<Date>, cef: string) returns (hours: real)
    ensures hours == WeekHours(entries, FormatWeekLabel(week), cef)
  {
    var entry := EntryForWeek(entries, FormatWeekLabel(week));
    if entry.None? {
      return 0.0;
    }
    hours := 0.0;
    if cef in entry.value.attendance {
      hours := SumAbsenceHours(entry.value.attendance[cef]);
    } else {
      AbsenceHoursEmpty();
    }
  }

  lemma AbsenceHoursEmpty()
    ensures AbsenceHours(map[]) == 0.0
  {
    assert AbsentHoursOn(map[], {}) == map[];
  }

  /** One participant's line: the hours of each week and their sum. */
  method ParticipantStat(p: Participant, weeks: seq<seq<Date>>, entries: seq<HistoryEntry>) returns (row: StatRow)
    ensures row == StatRowOf(p, weeks, entries)
  {
    var hours: seq<real> := [];
    var k := 0;
    while k < |weeks|
      invariant 0 <= k <= |weeks|
      invariant hours == WeeklyHours(entries, weeks[..k], p.cef)
    {
      var h := WeekAbsenceHours(entries, weeks[k], p.cef);
      hours := hours + [h];
      k := k + 1;
      assert weeks[..k] == weeks[..k - 1] + [weeks[k - 1]];
    }
    assert weeks[..k] == weeks;
    row := StatRow(p.cef, p.nom, p.prenom, p.groupe, hours, SumSeq(hours));
  }

  /** The lines of the participants, built one after the other. */
  method StatLines(members: seq<Participant>, weeks: seq<seq<Date>>, entries: seq<HistoryEntry>)
    returns (stats: seq<StatRow>)
    ensures stats == StatRows(members, weeks, entries)
  {
    stats := [];
    var i := 0;
    while i < |members|
      invariant 0 <= i <= |members|
      invariant |stats| == i
      invariant forall j :: 0 <= j < i ==> stats[j] == StatRowOf(members[j], weeks, entries)
    {
      var row := ParticipantStat(members[i], weeks, entries);
      stats := stats + [row];
      i := i + 1;
    }
  }

  /** The summary of a month, line by line. */
  method ComputeSummary(year: string, monthLabel: string, group: string, entries: seq<HistoryEntry>,
                        participants: seq<Participant>) returns (summary: Summary)
    requires MonthsForTrainingYear(year).Some?
    ensures summary == SummaryData(year, monthLabel, group, entries, participants)
  {
    var weeks := WeeksOfLabel(year, monthLabel);
    if weeks.None? || weeks.value == [] {
      return Summary([], []);
    }
    var stats := StatLines(GroupMembers(participants, year, group), weeks.value, entries);
    summary := Summary(WeekLabels(weeks.value), stats);
  }

  /** A caption that names no month of the year gives an empty summary; one that does gives a
      label per week of the month and one line per participant of the year and group, in
      `nom` order. */
  lemma SummarySpec(year: string, monthLabel: string, group: string, entries: seq<HistoryEntry>,
                    participants: seq<Participant>)
    requires MonthsForTrainingYear(year).Some?
    ensures var s := SummaryData(year, monthLabel, group, entries, participants);
      MonthByLabel(MonthsForTrainingYear(year).value, monthLabel).None? ==> s == Summary([], [])
    ensures var s := SummaryData(year, monthLabel, group, entries, participants);
      var weeks := WeeksOfLabel(year, monthLabel);
      MonthByLabel(MonthsForTrainingYear(year).value, monthLabel).Some? ==>
        && weeks.Some? && weeks.value != []
        && s.weeks == WeekLabels(weeks.value)
        && s.participantStats == StatRows(GroupMembers(participants, year, group), weeks.value, entries)
  {
  }

  /** A line belongs to its participant; its hours are, week by week, those of the saved week
      with the week's label (0 without one), never negative, and the total adds them up. */
  lemma StatRowSpec(p: Participant, weeks: seq<seq<Date>>, entries: seq<HistoryEntry>)
    ensures var row := StatRowOf(p, weeks, entries);
      && row.cef == p.cef && row.nom == p.nom && row.prenom == p.prenom && row.groupe == p.groupe
      && |row.weeklyAbsenceHours| == |weeks|
      && (forall k :: 0 <= k < |weeks| ==>
            row.weeklyAbsenceHours[k] == WeekHours(entries, FormatWeekLabel(weeks[k]), p.cef)
            && row.weeklyAbsenceHours[k] >= 0.0)
      && row.totalHours == SumSeq(row.weeklyAbsenceHours) && row.totalHours >= 0.0
  {
    var row := StatRowOf(p, weeks, entries);
    forall k | 0 <= k < |weeks| ensures row.weeklyAbsenceHours[k] >= 0.0 {
      WeekHoursNonNegative(entries, FormatWeekLabel(weeks[k]), p.cef);
    }
    SumSeqNonNegative(row.weeklyAbsenceHours);
  }

  lemma WeekHoursNonNegative(entries: seq<HistoryEntry>, weekLabel: string, cef: string)
    ensures WeekHours(entries, weekLabel, cef) >= 0.0
  {
    match EntryForWeek(entries, weekLabel)
    case None =>
    case Some(entry) => AbsenceHoursNonNegative(LedgerOf(entry.attendance, cef));
  }

  /** The lines are the participants of the year and group, each once, in `nom` order. */
  lemma GroupMembersSpec(participants: seq<Participant>, year: string, group: string)
    ensures var members := GroupMembers(participants, year, group);
      && (forall p :: p in members <==> p in participants && p.trainingYear == year && p.groupe == group)
      && (forall i, j :: 0 <= i < j < |members| ==> StrLe(members[i].nom, members[j].nom))
  {
    var inGroup := (p: Participant) => p.trainingYear == year && p.groupe == group;
    var kept := Filter(participants, inGroup);
    SortByNomSpec(kept);
    forall p ensures p in GroupMembers(participants, year, group) <==> p in kept {
      assert p in GroupMembers(participants, year, group) <==> p in multiset(SortByNom(kept));
    }
    FilterAll(participants, inGroup);
  }

  // ---------------------------------------------------------------------------
  // The PDF export
  // ---------------------------------------------------------------------------

  /** One line of the exported table. */
  datatype PdfRow = PdfRow(nom: string, prenom: string, weeklyAbsenceHours: seq<real>, totalHours: real)

  /** The exported line of one participant. */
  ghost function PdfRowOf(p: Participant, weeks: seq<seq<Date>>, entries: seq<HistoryEntry>): PdfRow {
    var hours := WeeklyHours(entries, weeks, p.cef);
    PdfRow(p.nom, p.prenom, hours, SumSeq(hours))
  }

  /** The exported lines, one per participant, in their order. */
  ghost function PdfLines(members: seq<Participant>, weeks: seq<seq<Date>>, entries: seq<HistoryEntry>): (rows: seq<PdfRow>)
    ensures |rows| == |members|
    ensures forall i :: 0 <= i < |members| ==> rows[i] == PdfRowOf(members[i], weeks, entries)
  {
    seq(|members|, i requires 0 <= i < |members| => PdfRowOf(members[i], weeks, entries))
  }

  /** `handleExportPdf`'s own computation: nothing is exported for a caption that names no
      month; otherwise one line per participant of the year and group, computed again rather
      than taken from the screen and without the screen's early return on a month without
      weeks. */
  ghost function PdfRows(year: string, monthLabel: string, group: string, entries: seq<HistoryEntry>,
                         participants: seq<Participant>): Option<seq<PdfRow>>
    requires MonthsForTrainingYear(year).Some?
  {
    match WeeksOfLabel(year, monthLabel)
    case None => None
    case Some(weeks) => Some(PdfLines(GroupMembers(participants, year, group), weeks, entries))
  }

  /** The export shows what the screen shows: it exists exactly when the month does, and its
      lines carry the screen's names, weekly hours and totals, in the same order. */
  lemma PdfMatchesScreen(year: string, monthLabel: string, group: string, entries: seq<HistoryEntry>,
                         participants: seq<Participant>)
    requires MonthsForTrainingYear(year).Some?
    ensures var pdf := PdfRows(year, monthLabel, group, entries, participants);
      pdf.Some? <==> MonthByLabel(MonthsForTrainingYear(year).value, monthLabel).Some?
    ensures var pdf := PdfRows(year, monthLabel, group, entries, participants);
      var screen := SummaryData(year, monthLabel, group, entries, participants).participantStats;
      pdf.Some? ==>
        && |pdf.value| == |screen|
        && forall i :: 0 <= i < |screen| ==>
             pdf.value[i] == PdfRow(screen[i].nom, screen[i].prenom, screen[i].weeklyAbsenceHours,
                                    screen[i].totalHours)
  {
    var weeks := WeeksOfLabel(year, monthLabel);
    if weeks.Some? {
      var members := GroupMembers(participants, year, group);
      var screen := StatRows(members, weeks.value, entries);
      var pdf := PdfLines(members, weeks.value, entries);
      forall i | 0 <= i < |screen|
        ensures pdf[i] == PdfRow(screen[i].nom, screen[i].prenom, screen[i].weeklyAbsenceHours, screen[i].totalHours)
      {
      }
    }
  }

  // ---------------------------------------------------------------------------
  // Grouping the saved weeks
  // ---------------------------------------------------------------------------

  /** Group name to the entries saved for it. */
  type Groups = map<string, seq<HistoryEntry>>

  /** `groupedHistory`: training year to month label to group to entries. */
  type Grouped = map<string, map<string, Groups>>

  /** The comparator `(a, b) => new Date(b.date).getTime() - new Date(a.date).getTime()`, with
      ISO timestamps compared as text (their order is the order of the instants). */
  predicate NewerFirst(a: HistoryEntry, b: HistoryEntry) {
    StrLe(b.date, a.date)
  }

  lemma NewerFirstTotalPreorder()
    ensures TotalPreorder(NewerFirst)
  {
    forall a: HistoryEntry, b: HistoryEntry ensures NewerFirst(a, b) || NewerFirst(b, a) {
      StrLeTotal(a.date, b.date);
    }
    forall a: HistoryEntry, b: HistoryEntry, c: HistoryEntry | NewerFirst(a, b) && NewerFirst(b, c)
      ensures NewerFirst(a, c)
    {
      StrLeTrans(c.date, b.date, a.date);
    }
  }

  /** `[...history].sort(..)`: the entries from the latest save to the earliest. */
  function NewestFirst(history: seq<HistoryEntry>): seq<HistoryEntry> {
    SortBy(history, NewerFirst)
  }

  /** The entries of a group, or none. */
  function Lookup(g: Grouped, year: string, month: string, group: string): seq<HistoryEntry> {
    if year in g && month in g[year] && group in g[year][month] then g[year][month][group] else []
  }

  /** One step of the `reduce`: the entry is pushed onto its group, the levels above it made
      when missing. */
  function Push(g: Grouped, e: HistoryEntry): Grouped {
    var months := if e.trainingYear in g then g[e.trainingYear] else map[];
    var groups := if e.month in months then months[e.month] else map[];
    var entries := if e.group in groups then groups[e.group] else [];
    g[e.trainingYear := months[e.month := groups[e.group := entries + [e]]]]
  }

  /** The `reduce` over a list of entries, from `{}`. */
  function GroupAll(xs: seq<HistoryEntry>): Grouped
    decreases |xs|
  {
    if xs == [] then map[] else Push(GroupAll(xs[..|xs| - 1]), xs[|xs| - 1])
  }

  /** Whether an entry belongs under a year, month and group. */
  function PlacedAt(year: string, month: string, group: string): HistoryEntry -> bool {
    (e: HistoryEntry) => e.trainingYear == year && e.month == month && e.group == group
  }

  /** `groupedHistory`: the sort, then the `reduce` that fills the nested dictionary. */
  method GroupHistory(history: seq<HistoryEntry>) returns (g: Grouped)
    ensures g == GroupAll(NewestFirst(history))
  {
    var sorted := NewestFirst(history);
    g := map[];
    var i := 0;
    while i < |sorted|
      invariant 0 <= i <= |sorted|
      invariant g == GroupAll(sorted[..i])
    {
      g := PushEntry(g, sorted[i]);
      PushStep(sorted, i);
      i := i + 1;
    }
    assert sorted[..i] == sorted;
  }

  /** The body of the `reduce`: the year, month and group made when missing, then the push. */
  method PushEntry(g: Grouped, e: HistoryEntry) returns (h: Grouped)
    ensures h == Push(g, e)
  {
    ghost var months0 := if e.trainingYear in g then g[e.trainingYear] else map[];
    ghost var groups0 := if e.month in months0 then months0[e.month] else map[];
    h := g;
    if e.trainingYear !in h {
      h := h[e.trainingYear := map[]];
    }
    var months := h[e.trainingYear];
    if e.month !in months {
      months := months[e.month := map[]];
    }
    var groups := months[e.month];
    assert groups == groups0;
    if e.group !in groups {
      groups := groups[e.group := []];
    }
    var pushed := groups[e.group := groups[e.group] + [e]];
    assert pushed == groups0[e.group := (if e.group in groups0 then groups0[e.group] else []) + [e]];
    assert months[e.month := pushed] == months0[e.month := pushed];
    h := h[e.trainingYear := months[e.month := pushed]];
  }

  lemma PushStep(xs: seq<HistoryEntry>, i: nat)
    requires i < |xs|
    ensures GroupAll(xs[..i + 1]) == Push(GroupAll(xs[..i]), xs[i])
  {
    PrefixSnoc(xs, i);
  }

  /** A push adds the entry at the end of its own group and nowhere else. */
  lemma PushLookup(g: Grouped, e: HistoryEntry, year: string, month: string, group: string)
    ensures Lookup(Push(g, e), year, month, group)
      == Lookup(g, year, month, group) + (if PlacedAt(year, month, group)(e) then [e] else [])
  {
  }

  /** A push adds the entry's own year, month and group, when missing, and no other key. */
  lemma PushKeys(g: Grouped, e: HistoryEntry, year: string, month: string, group: string)
    ensures var h := Push(g, e);
      year in h <==> year in g || e.trainingYear == year
    ensures var h := Push(g, e);
      (year in h && month in h[year])
        <==> (year in g && month in g[year]) || (e.trainingYear == year && e.month == month)
    ensures var h := Push(g, e);
      (year in h && month in h[year] && group in h[year][month])
        <==> (year in g && month in g[year] && group in g[year][month]) || PlacedAt(year, month, group)(e)
  {
  }

  /** After the `reduce`, a group holds exactly the entries placed under it, in list order. */
  lemma {:induction false} GroupAllLookup(xs: seq<HistoryEntry>, year: string, month: string, group: string)
    ensures Lookup(GroupAll(xs), year, month, group) == Filter(xs, PlacedAt(year, month, group))
    decreases |xs|
  {
    if xs != [] {
      var init, last := xs[..|xs| - 1], xs[|xs| - 1];
      assert xs == init + [last];
      GroupAllLookup(init, year, month, group);
      PushLookup(GroupAll(init), last, year, month, group);
      FilterAppend(init, [last], PlacedAt(year, month, group));
    }
  }

  /** After the `reduce`, a year, month or group is present exactly when some entry is
      placed under it. */
  lemma {:induction false} GroupAllKeys(xs: seq<HistoryEntry>, year: string, month: string, group: string)
    ensures year in GroupAll(xs) <==> exists e :: e in xs && e.trainingYear == year
    ensures year in GroupAll(xs) && month in GroupAll(xs)[year]
      <==> exists e :: e in xs && e.trainingYear == year && e.month == month
    ensures year in GroupAll(xs) && month in GroupAll(xs)[year] && group in GroupAll(xs)[year][month]
      <==> exists e :: e in xs && PlacedAt(year, month, group)(e)
    decreases |xs|
  {
    if xs != [] {
      var init, last := xs[..|xs| - 1], xs[|xs| - 1];
      assert xs == init + [last];
      GroupAllKeys(init, year, month, group);
      PushKeys(GroupAll(init), last, year, month, group);
      forall e ensures e in xs <==> e in init || e == last {
        MembersSnoc(xs, e);
      }
    }
  }

  /** Every saved week sits under its own year, month and group, as often as it was saved, and
      under no other; the entries of a group run from the latest save to the earliest. */
  lemma GroupedHistorySpec(history: seq<HistoryEntry>, e: HistoryEntry, year: string, month: string, group: string)
    ensures var g := GroupAll(NewestFirst(history));
      multiset(Lookup(g, e.trainingYear, e.month, e.group))[e] == multiset(history)[e]
    ensures var g := GroupAll(NewestFirst(history));
      !PlacedAt(year, month, group)(e) ==> e !in Lookup(g, year, month, group)
    ensures var entries := Lookup(GroupAll(NewestFirst(history)), year, month, group);
      forall i, j :: 0 <= i < j < |entries| ==> StrLe(entries[j].date, entries[i].date)
  {
    var sorted := NewestFirst(history);
    GroupAllLookup(sorted, e.trainingYear, e.month, e.group);
    FilterCount(sorted, PlacedAt(e.trainingYear, e.month, e.group), e);
    GroupAllLookup(sorted, year, month, group);
    FilterMembers(sorted, PlacedAt(year, month, group), e);
    NewerFirstTotalPreorder();
    SortBySorted(history, NewerFirst);
    FilterSorted(sorted, PlacedAt(year, month, group), NewerFirst);
  }

  // ---------------------------------------------------------------------------
  // Listing order
  // ---------------------------------------------------------------------------

  /** `Object.keys(groupedHistory).sort((a, b) => b.localeCompare(a))`, with the keys in the
      order `Object.keys` gives them. */
  function SortedYears(yearKeys: seq<string>): seq<string> {
    SortStringsDescending(yearKeys)
  }

  /** `Object.keys(groups).sort()`. */
  function SortedGroups(groupKeys: seq<string>): seq<string> {
    SortStrings(groupKeys)
  }

  /** The years listed are those of the saved weeks, each once, the latest first. */
  lemma SortedYearsSpec(history: seq<HistoryEntry>, yearKeys: seq<string>)
    requires Enumerates(yearKeys, GroupAll(NewestFirst(history)))
    ensures var years := SortedYears(yearKeys);
      && (forall y :: y in years <==> exists e :: e in history && e.trainingYear == y)
      && (forall i, j :: 0 <= i < j < |years| ==> StrLt(years[j], years[i]))
  {
    var years := SortedYears(yearKeys);
    SortStringsDescendingSpec(yearKeys);
    forall y ensures y in years <==> exists e :: e in history && e.trainingYear == y {
      GroupAllKeys(NewestFirst(history), y, "", "");
      assert y in years <==> y in multiset(yearKeys);
      SortedMembers(history, y);
    }
    SortedDistinct(yearKeys, years);
  }

  /** The groups listed under a month are those saved for it, each once, in ascending order. */
  lemma SortedGroupsSpec(history: seq<HistoryEntry>, year: string, month: string, groupKeys: seq<string>)
    requires var g := GroupAll(NewestFirst(history));
      year in g && month in g[year] && Enumerates(groupKeys, g[year][month])
    ensures var groups := SortedGroups(groupKeys);
      && (forall x :: x in groups <==> exists e :: e in history && PlacedAt(year, month, x)(e))
      && (forall i, j :: 0 <= i < j < |groups| ==> StrLt(groups[i], groups[j]))
  {
    var groups := SortedGroups(groupKeys);
    SortStringsSpec(groupKeys);
    forall x ensures x in groups <==> exists e :: e in history && PlacedAt(year, month, x)(e) {
      GroupAllKeys(NewestFirst(history), year, month, x);
      assert x in groups <==> x in multiset(groupKeys);
      SortedPlaced(history, year, month, x);
    }
    SortedDistinct(groupKeys, groups);
  }

  /** Sorting the history keeps its years. */
  lemma SortedMembers(history: seq<HistoryEntry>, y: string)
    ensures (exists e :: e in NewestFirst(history) && e.trainingYear == y)
      <==> (exists e :: e in history && e.trainingYear == y)
  {
    forall e ensures e in NewestFirst(history) <==> e in history {
      assert e in NewestFirst(history) <==> e in multiset(NewestFirst(history));
    }
  }

  /** Sorting the history keeps its groups. */
  lemma SortedPlaced(history: seq<HistoryEntry>, year: string, month: string, x: string)
    ensures (exists e :: e in NewestFirst(history) && PlacedAt(year, month, x)(e))
      <==> (exists e :: e in history && PlacedAt(year, month, x)(e))
  {
    forall e ensures e in NewestFirst(history) <==> e in history {
      assert e in NewestFirst(history) <==> e in multiset(NewestFirst(history));
    }
  }
}
