/** The Receipts tab: the absences of one participant between two dates, each with the hours
    it costs, in date order, and their total. The keys of the participant's ledger come in the
    order `Object.entries` lists them, which is a parameter. */
module Receipts {
  import opened Wrappers
  import opened Lists
  import opened Sums
  import opened Sorting
  import opened Calendar
  import opened Constants
  import opened Types
  import opened Attendance

  /** A date that exists: what `parseISO` gives for a well-formed `yyyy-MM-dd` text. */
  type Day = d: Date | ValidDate(d) witness Date(2000, 1, 1)

  /** One listed absence: its date and the hours it costs. */
  datatype Absence = Absence(date: Day, hours: real)

  /** What `receiptData` holds when it is not `null`. */
  datatype Receipt = Receipt(participant: Participant, trainingYear: string, startDate: string,
                             endDate: string, absences: seq<Absence>, totalHours: real)

  /** `participants.find(p => p.cef === selectedCef)`: the first participant with the CEF,
      whatever its year. */
  function Selected(participants: seq<Participant>, cef: string): (r: Option<Participant>)
    ensures r.Some? ==> r.value in participants && r.value.cef == cef
    ensures r.Some? ==> exists i :: 0 <= i < |participants| && participants[i] == r.value
                          && forall j :: 0 <= j < i ==> participants[j].cef != cef
    ensures r.None? <==> forall p :: p in participants ==> p.cef != cef
  {
    Find(participants, (p: Participant) => p.cef == cef)
  }

  /** `isWithinInterval(date, { start, end })`: between the two bounds, both included,
      whichever of them comes first. */
  predicate Within(d: Day, start: Day, end: Day) {
    var t, a, b := DayNumber(d), DayNumber(start), DayNumber(end);
    (a <= t <= b) || (b <= t <= a)
  }

  /** The filter: a day marked absent whose key reads as a date of the period. */
  predicate InPeriod(days: DayLedger, key: string, start: Day, end: Day) {
    key in days && days[key] && ParseIso(key).Some? && Within(ParseIso(key).value, start, end)
  }

  /** The filter as a function of the key. */
  function InPeriodOf(days: DayLedger, start: Day, end: Day): string -> bool {
    (k: string) => InPeriod(days, k, start, end)
  }

  /** The map: the date of a key and `SESSION_HOURS[getDay(date)] || 0`. */
  function AbsenceOf(key: string): Absence
    requires ParseIso(key).Some?
  {
    var d := ParseIso(key).value;
    Absence(d, HoursForWeekday(Weekday(d)))
  }

  /** The absences of the period, in the order the keys come. */
  function ListAbsences(days: DayLedger, keys: seq<string>, start: Day, end: Day): (r: seq<Absence>)
  {
    var kept := Filter(keys, InPeriodOf(days, start, end));
    FilterAt(keys, InPeriodOf(days, start, end));
    seq(|kept|, i requires 0 <= i < |kept| => AbsenceOf(kept[i]))
  }

  /** The comparator `(a, b) => a.date.getTime() - b.date.getTime()`. */
  predicate NotLater(a: Absence, b: Absence) {
    DayNumber(a.date) <= DayNumber(b.date)
  }

  function HoursOf(a: Absence): real {
    a.hours
  }

  /** `receiptData`: nothing without a participant or without two readable dates (a date left
      empty is not readable); otherwise the participant's absences of the period sorted by
      date, and their hours added up. */
  function ReceiptData(participants: seq<Participant>, attendance: AttendanceRecord, selectedCef: string,
                       startDate: string, endDate: string, keys: seq<string>): (r: Option<Receipt>)
    ensures r.None? <==>
      Selected(participants, selectedCef).None? || ParseIso(startDate).None? || ParseIso(endDate).None?
  {
    var selected := Selected(participants, selectedCef);
    if selected.None? || startDate == "" || endDate == "" then None
    else if ParseIso(startDate).None? || ParseIso(endDate).None? then None
    else
      var p := selected.value;
      var start, end := ParseIso(startDate).value, ParseIso(endDate).value;
      var absences := SortBy(ListAbsences(LedgerOf(attendance, p.cef), keys, start, end), NotLater);
      Some(Receipt(p, p.trainingYear, FormatDayMonthYear(start), FormatDayMonthYear(end),
                   absences, SumBy(absences, HoursOf)))
  }

  // ---------------------------------------------------------------------------
  // Properties
  // ---------------------------------------------------------------------------

  /** The hours of each absent day of the period, by key. */
  function PeriodHours(days: DayLedger, start: Day, end: Day): map<string, real> {
    map k | k in days && InPeriod(days, k, start, end) :: HoursOfKey(k)
  }

  lemma NotLaterTotalPreorder()
    ensures TotalPreorder(NotLater)
  {
  }

  /** A listed absence is the absence of a key of the period, and that key is the text of its
      date. */
  lemma ListedAbsence(days: DayLedger, keys: seq<string>, start: Day, end: Day, i: nat)
    requires i < |ListAbsences(days, keys, start, end)|
    ensures var a := ListAbsences(days, keys, start, end)[i];
      InPeriod(days, FormatIso(a.date), start, end) && a == AbsenceOf(FormatIso(a.date))
  {
    var kept := Filter(keys, InPeriodOf(days, start, end));
    FilterAll(keys, InPeriodOf(days, start, end));
    assert kept[i] in kept;
    FormatParseIso(kept[i]);
  }

  /** Every key of the period gives a listed absence. */
  lemma AbsenceListed(days: DayLedger, keys: seq<string>, start: Day, end: Day, k: string)
    requires Enumerates(keys, days) && InPeriod(days, k, start, end)
    ensures AbsenceOf(k) in ListAbsences(days, keys, start, end)
  {
    var kept := Filter(keys, InPeriodOf(days, start, end));
    FilterMembers(keys, InPeriodOf(days, start, end), k);
    var i :| 0 <= i < |kept| && kept[i] == k;
    assert ListAbsences(days, keys, start, end)[i] == AbsenceOf(k);
  }

  /** Different keys give different absences. */
  lemma AbsenceOfInjective(k1: string, k2: string)
    requires ParseIso(k1).Some? && ParseIso(k2).Some?
    ensures AbsenceOf(k1) == AbsenceOf(k2) ==> k1 == k2
  {
    FormatParseIso(k1);
    FormatParseIso(k2);
  }

  /** The list of a period has no repeats. */
  lemma ListAbsencesDistinct(days: DayLedger, keys: seq<string>, start: Day, end: Day)
    requires Enumerates(keys, days)
    ensures var xs := ListAbsences(days, keys, start, end);
      forall i, j :: 0 <= i < j < |xs| ==> xs[i] != xs[j]
  {
    var kept := Filter(keys, InPeriodOf(days, start, end));
    var xs := ListAbsences(days, keys, start, end);
    FilterDistinct(keys, InPeriodOf(days, start, end));
    FilterAt(keys, InPeriodOf(days, start, end));
    assert |xs| == |kept|;
    forall i, j | 0 <= i < j < |xs| ensures xs[i] != xs[j] {
      assert xs[i] == AbsenceOf(kept[i]) && xs[j] == AbsenceOf(kept[j]);
      AbsenceOfInjective(kept[i], kept[j]);
    }
  }

  /** In a list sorted by date where no absence repeats and each absence's hours follow from
      its date, the dates strictly increase. */
  lemma SortedStrictly(r: seq<Absence>)
    requires SortedBy(r, NotLater)
    requires forall i, j :: 0 <= i < j < |r| ==> r[i] != r[j]
    requires forall a :: a in r ==> a.hours == HoursForWeekday(Weekday(a.date))
    ensures forall i, j :: 0 <= i < j < |r| ==> DayNumber(r[i].date) < DayNumber(r[j].date)
  {
    forall i, j | 0 <= i < j < |r| ensures DayNumber(r[i].date) < DayNumber(r[j].date) {
      assert r[i] in r && r[j] in r;
      SameDaySameAbsence(r[i], r[j]);
    }
  }

  /** Two absences on the same day, each costing the hours of its weekday, are the same. */
  lemma SameDaySameAbsence(a: Absence, b: Absence)
    requires a.hours == HoursForWeekday(Weekday(a.date)) && b.hours == HoursForWeekday(Weekday(b.date))
    ensures DayNumber(a.date) == DayNumber(b.date) ==> a == b
  {
    if DayNumber(a.date) == DayNumber(b.date) {
      DayNumberInjective(a.date, b.date);
    }
  }

  /** The listed absences of a period are exactly its absent days, each once, with the hours of
      its weekday, from the earliest date to the latest. */
  lemma PeriodAbsences(days: DayLedger, keys: seq<string>, start: Day, end: Day)
    requires Enumerates(keys, days)
    ensures var r := SortBy(ListAbsences(days, keys, start, end), NotLater);
      && (forall k :: InPeriod(days, k, start, end) ==> AbsenceOf(k) in r)
      && (forall a :: a in r ==>
            InPeriod(days, FormatIso(a.date), start, end) && a.hours == HoursForWeekday(Weekday(a.date)))
      && (forall i, j :: 0 <= i < j < |r| ==> DayNumber(r[i].date) < DayNumber(r[j].date))
  {
    PeriodComplete(days, keys, start, end);
    PeriodOnly(days, keys, start, end);
    PeriodOrdered(days, keys, start, end);
  }

  lemma PeriodComplete(days: DayLedger, keys: seq<string>, start: Day, end: Day)
    requires Enumerates(keys, days)
    ensures forall k :: InPeriod(days, k, start, end) ==>
      AbsenceOf(k) in SortBy(ListAbsences(days, keys, start, end), NotLater)
  {
    var xs := ListAbsences(days, keys, start, end);
    forall k | InPeriod(days, k, start, end) ensures AbsenceOf(k) in multiset(SortBy(xs, NotLater)) {
      AbsenceListed(days, keys, start, end, k);
    }
  }

  lemma PeriodOnly(days: DayLedger, keys: seq<string>, start: Day, end: Day)
    ensures forall a :: a in SortBy(ListAbsences(days, keys, start, end), NotLater) ==>
      InPeriod(days, FormatIso(a.date), start, end) && a.hours == HoursForWeekday(Weekday(a.date))
  {
    var xs := ListAbsences(days, keys, start, end);
    forall a | a in multiset(SortBy(xs, NotLater))
      ensures InPeriod(days, FormatIso(a.date), start, end) && a.hours == HoursForWeekday(Weekday(a.date))
    {
      var i :| 0 <= i < |xs| && xs[i] == a;
      ListedAbsence(days, keys, start, end, i);
    }
  }

  lemma PeriodOrdered(days: DayLedger, keys: seq<string>, start: Day, end: Day)
    requires Enumerates(keys, days)
    ensures var r := SortBy(ListAbsences(days, keys, start, end), NotLater);
      forall i, j :: 0 <= i < j < |r| ==> DayNumber(r[i].date) < DayNumber(r[j].date)
  {
    var xs := ListAbsences(days, keys, start, end);
    var r := SortBy(xs, NotLater);
    PeriodOnly(days, keys, start, end);
    NotLaterTotalPreorder();
    SortBySorted(xs, NotLater);
    ListAbsencesDistinct(days, keys, start, end);
    SortedDistinct(xs, r);
    SortedStrictly(r);
  }

  /** The total of a period is the sum of the hours of its absent days. */
  lemma PeriodTotal(days: DayLedger, keys: seq<string>, start: Day, end: Day)
    requires Enumerates(keys, days)
    ensures SumBy(SortBy(ListAbsences(days, keys, start, end), NotLater), HoursOf)
      == SumValues(PeriodHours(days, start, end))
  {
    var kept := Filter(keys, InPeriodOf(days, start, end));
    var xs := ListAbsences(days, keys, start, end);
    SumByPermutation(SortBy(xs, NotLater), xs, HoursOf);
    ListedHours(days, keys, start, end);
    FilterDistinct(keys, InPeriodOf(days, start, end));
    SumByDistinct(kept, HoursOfKey);
    KeptHours(days, keys, start, end);
  }

  /** Each listed absence costs what its key costs. */
  lemma ListedHours(days: DayLedger, keys: seq<string>, start: Day, end: Day)
    ensures SumBy(ListAbsences(days, keys, start, end), HoursOf)
      == SumBy(Filter(keys, InPeriodOf(days, start, end)), HoursOfKey)
  {
    var kept := Filter(keys, InPeriodOf(days, start, end));
    var xs := ListAbsences(days, keys, start, end);
    FilterAt(keys, InPeriodOf(days, start, end));
    assert |xs| == |kept|;
    forall i | 0 <= i < |xs| ensures HoursOf(xs[i]) == HoursOfKey(kept[i]) {
      assert xs[i] == AbsenceOf(kept[i]);
    }
    SumByPointwise(xs, HoursOf, kept, HoursOfKey);
  }

  /** The keys kept are the keys of the period. */
  lemma KeptHours(days: DayLedger, keys: seq<string>, start: Day, end: Day)
    requires Enumerates(keys, days)
    ensures ValuesOn(Filter(keys, InPeriodOf(days, start, end)), HoursOfKey)
      == PeriodHours(days, start, end)
  {
    forall k ensures k in Filter(keys, InPeriodOf(days, start, end)) <==> k in days && InPeriod(days, k, start, end) {
      FilterMembers(keys, InPeriodOf(days, start, end), k);
    }
  }

  /** A period that holds every absent day of the ledger costs what the statistics count as
      the participant's absence hours. */
  lemma PeriodCoveringLedger(days: DayLedger, start: Day, end: Day)
    requires forall k :: k in days && days[k] && ParseIso(k).Some? ==> Within(ParseIso(k).value, start, end)
    ensures SumValues(PeriodHours(days, start, end)) == AbsenceHours(days)
  {
    SumValuesDropZeros(AbsentHoursOn(days, days.Keys), Readable(days));
    CoveredHours(days, start, end);
  }

  /** The keys of a ledger that read as dates. */
  function Readable(days: DayLedger): set<string> {
    set k | k in days && ParseIso(k).Some?
  }

  /** When the period holds every absent day, its hours are those of the absent days whose
      keys read as dates. */
  lemma CoveredHours(days: DayLedger, start: Day, end: Day)
    requires forall k :: k in days && days[k] && ParseIso(k).Some? ==> Within(ParseIso(k).value, start, end)
    ensures Restrict(AbsentHoursOn(days, days.Keys), Readable(days)) == PeriodHours(days, start, end)
  {
  }

  /** A receipt is for the first participant with the selected CEF, whatever its year, and for
      that participant's own training year; it
      lists the absent days of the period once each, in date order, with the hours of their
      weekday, and totals those hours. */
  lemma ReceiptDataSpec(participants: seq<Participant>, attendance: AttendanceRecord, selectedCef: string,
                        startDate: string, endDate: string, keys: seq<string>)
    requires Enumerates(keys, LedgerOf(attendance, selectedCef))
    requires ReceiptData(participants, attendance, selectedCef, startDate, endDate, keys).Some?
    ensures ParseIso(startDate).Some? && ParseIso(endDate).Some?
    ensures var r := ReceiptData(participants, attendance, selectedCef, startDate, endDate, keys).value;
        var days := LedgerOf(attendance, selectedCef);
        var start, end := ParseIso(startDate).value, ParseIso(endDate).value;
        && r.participant in participants && r.participant.cef == selectedCef
        && r.trainingYear == r.participant.trainingYear
        && (forall k :: InPeriod(days, k, start, end) ==> AbsenceOf(k) in r.absences)
        && (forall a :: a in r.absences ==>
              InPeriod(days, FormatIso(a.date), start, end) && a.hours == HoursForWeekday(Weekday(a.date)))
        && (forall i, j :: 0 <= i < j < |r.absences| ==>
              DayNumber(r.absences[i].date) < DayNumber(r.absences[j].date))
        && r.totalHours == SumValues(PeriodHours(days, start, end))
    ensures var r := ReceiptData(participants, attendance, selectedCef, startDate, endDate, keys).value;
      exists i :: 0 <= i < |participants| && participants[i] == r.participant
        && forall j :: 0 <= j < i ==> participants[j].cef != selectedCef
  {
    var days := LedgerOf(attendance, selectedCef);
    var start, end := ParseIso(startDate).value, ParseIso(endDate).value;
    var absences := SortBy(ListAbsences(days, keys, start, end), NotLater);
    var p := Selected(participants, selectedCef).value;
    assert ReceiptData(participants, attendance, selectedCef, startDate, endDate, keys).value
      == Receipt(p, p.trainingYear, FormatDayMonthYear(start), FormatDayMonthYear(end),
                 absences, SumBy(absences, HoursOf));
    PeriodAbsences(days, keys, start, end);
    PeriodTotal(days, keys, start, end);
  }
}
