/** The monthly chart of the statistics tab: the absence hours of the shown participants per
    month of the training year, and the three months with the most hours. */
module Monthly {
  import opened Wrappers
  import opened Lists
  import opened Sums
  import opened Sorting
  import opened Strings
  import opened Calendar
  import opened Constants
  import opened Types
  import opened Attendance
  import opened DateUtils

  /** One bar of the chart: the month's name, its full label and its hours. */
  datatype ChartData = ChartData(name: string, fullName: string, totalHours: real)

  // ---------------------------------------------------------------------------
  // Which bar a day counts towards
  // ---------------------------------------------------------------------------

  /** `${year}-${String(monthIndex + 1).padStart(2, '0')}`: unlike the menu's keys, the year
      is written without padding. */
  function DateMonthKey(d: Date): string {
    NatToString(d.year) + "-" + Padded(d.month, 2)
  }

  /** The bar a ledger key adds to: the month whose key is the day's month key, then the first
      bar carrying that month's label; none for a key that is not a date or a month that is
      not listed. */
  function BucketOf(months: seq<MonthOption>, key: string): (r: Option<nat>)
    ensures r.Some? ==> r.value < |months|
  {
    match ParseIso(key)
    case None => None
    case Some(d) =>
      match Find(months, (m: MonthOption) => m.value == DateMonthKey(d))
      case None => None
      case Some(target) => FindIndex(months, (m: MonthOption) => m.caption == target.caption)
  }

  /** `BucketOf` as a function value, so that the sums below can treat it as any placement
      of keys into bars. */
  function Placement(months: seq<MonthOption>): string -> Option<nat> {
    (k: string) => BucketOf(months, k)
  }

  /** The hours of the days among `keys` marked absent that `place` puts in bar `j`. */
  ghost function PlacedHours(days: DayLedger, place: string -> Option<nat>, j: nat, keys: set<string>)
    : map<string, real>
  {
    map k | k in keys && k in days && days[k] && place(k) == Some(j) :: HoursOfKey(k)
  }

  /** What one participant's ledger adds to bar `j`. */
  ghost function LedgerBarHours(days: DayLedger, months: seq<MonthOption>, j: nat): real {
    SumValues(PlacedHours(days, Placement(months), j, days.Keys))
  }

  /** What the ledgers of the participants add to bar `j`. */
  ghost function BarHours(attendance: AttendanceRecord, ps: seq<Participant>,
                          months: seq<MonthOption>, j: nat): real
    decreases |ps|
  {
    if ps == [] then 0.0
    else
      BarHours(attendance, ps[..|ps| - 1], months, j)
        + LedgerBarHours(LedgerOf(attendance, ps[|ps| - 1].cef), months, j)
  }

  /** The bars before any hours: `name` is the label up to its first space. */
  function InitialBars(months: seq<MonthOption>): (bars: seq<ChartData>)
    ensures |bars| == |months|
    ensures forall j :: 0 <= j < |months| ==>
      bars[j] == ChartData(Split(months[j].caption, ' ')[0], months[j].caption, 0.0)
  {
    seq(|months|, j requires 0 <= j < |months| =>
      ChartData(Split(months[j].caption, ' ')[0], months[j].caption, 0.0))
  }

  /** Bar `j` with `hours` as its total. */
  function Bar(months: seq<MonthOption>, j: nat, hours: real): ChartData
    requires j < |months|
  {
    ChartData(Split(months[j].caption, ' ')[0], months[j].caption, hours)
  }

  // ---------------------------------------------------------------------------
  // The nested loops of `monthlyAbsenceData`
  // ---------------------------------------------------------------------------

  /** One more key of the ledger visited: its hours count in the bar it is placed in. */
  lemma PlacedStep(days: DayLedger, place: string -> Option<nat>, j: nat, todo: set<string>, k: string)
    requires todo <= days.Keys && k in todo
    ensures SumValues(PlacedHours(days, place, j, days.Keys - (todo - {k})))
      == SumValues(PlacedHours(days, place, j, days.Keys - todo))
         + (if days[k] && place(k) == Some(j) then HoursOfKey(k) else 0.0)
  {
    var before := PlacedHours(days, place, j, days.Keys - todo);
    assert days.Keys - (todo - {k}) == (days.Keys - todo) + {k};
    PlacedAdd(days, place, j, days.Keys - todo, k);
    if days[k] && place(k) == Some(j) {
      SumValuesInsert(before, k, HoursOfKey(k));
    }
  }

  /** The placed hours of a set with one more key, not yet among them. */
  lemma PlacedAdd(days: DayLedger, place: string -> Option<nat>, j: nat, keys: set<string>, k: string)
    requires k in days && k !in keys
    ensures var before := PlacedHours(days, place, j, keys);
      PlacedHours(days, place, j, keys + {k})
        == if days[k] && place(k) == Some(j) then before[k := HoursOfKey(k)] else before
  {
  }

  /** Each bar carries the full label of its month. */
  predicate Labelled(bars: seq<ChartData>, months: seq<MonthOption>) {
    |bars| == |months| && forall j :: 0 <= j < |months| ==> bars[j].fullName == months[j].caption
  }

  /** The bars once the keys in `visited` have been added to `bars`. */
  ghost function BarsAfter(bars: seq<ChartData>, days: DayLedger,
                           place: string -> Option<nat>, visited: set<string>): (r: seq<ChartData>)
    ensures |r| == |bars|
    ensures forall j :: 0 <= j < |bars| ==>
      r[j] == bars[j].(totalHours := bars[j].totalHours + SumValues(PlacedHours(days, place, j, visited)))
  {
    seq(|bars|, j requires 0 <= j < |bars| =>
      bars[j].(totalHours := bars[j].totalHours + SumValues(PlacedHours(days, place, j, visited))))
  }

  /** `bar.totalHours += hours` on the bar found, if any. */
  function AddToBar(bars: seq<ChartData>, bucket: Option<nat>, hours: real): (r: seq<ChartData>)
    requires bucket.Some? ==> bucket.value < |bars|
    ensures |r| == |bars|
  {
    if bucket.Some? then
      bars[bucket.value := bars[bucket.value].(totalHours := bars[bucket.value].totalHours + hours)]
    else bars
  }

  lemma AddToBarAt(bars: seq<ChartData>, bucket: Option<nat>, hours: real, j: nat)
    requires bucket.Some? ==> bucket.value < |bars|
    requires j < |bars|
    ensures AddToBar(bars, bucket, hours)[j]
         == if bucket == Some(j) then bars[j].(totalHours := bars[j].totalHours + hours) else bars[j]
  {
  }

  /** Visiting one more key adds its hours to its bar, when it has one. */
  lemma BarsAfterStep(bars: seq<ChartData>, days: DayLedger,
                      place: string -> Option<nat>, todo: set<string>, k: string,
                      bucket: Option<nat>, hours: real)
    requires todo <= days.Keys && k in todo
    requires bucket == (if days[k] then place(k) else None)
    requires bucket.Some? ==> bucket.value < |bars| && hours == HoursOfKey(k)
    ensures BarsAfter(bars, days, place, days.Keys - (todo - {k}))
         == AddToBar(BarsAfter(bars, days, place, days.Keys - todo), bucket, hours)
  {
    var out := BarsAfter(bars, days, place, days.Keys - todo);
    var next := BarsAfter(bars, days, place, days.Keys - (todo - {k}));
    var added := AddToBar(out, bucket, hours);
    forall j | 0 <= j < |bars|
      ensures next[j] == added[j]
    {
      PlacedStep(days, place, j, todo, k);
      AddToBarAt(out, bucket, hours, j);
    }
  }

  /** Before any key, the bars are as given. */
  lemma BarsAfterStart(bars: seq<ChartData>, days: DayLedger, place: string -> Option<nat>)
    ensures BarsAfter(bars, days, place, days.Keys - days.Keys) == bars
  {
    forall j | 0 <= j < |bars|
      ensures PlacedHours(days, place, j, days.Keys - days.Keys) == map[]
    {
    }
  }

  /** Adding hours keeps every bar's label. */
  lemma BarsAfterLabelled(bars: seq<ChartData>, months: seq<MonthOption>, days: DayLedger,
                          place: string -> Option<nat>, visited: set<string>)
    requires Labelled(bars, months)
    ensures Labelled(BarsAfter(bars, days, place, visited), months)
  {
  }

  /** The `find` over the bars by full name finds the bar of the month found by label. */
  lemma BarLookup(bars: seq<ChartData>, months: seq<MonthOption>, caption: string)
    requires Labelled(bars, months)
    ensures FindIndex(bars, (md: ChartData) => md.fullName == caption)
         == FindIndex(months, (m: MonthOption) => m.caption == caption)
  {
    FindIndexSame(bars, (md: ChartData) => md.fullName == caption,
                  months, (m: MonthOption) => m.caption == caption);
  }

  /** The two `find`s of one absent day: the month with the day's key, then the bar with that
      month's label; and the day's session hours. */
  method FindBar(bars: seq<ChartData>, months: seq<MonthOption>, key: string)
    returns (bucket: Option<nat>, hours: real)
    requires Labelled(bars, months)
    ensures bucket == BucketOf(months, key)
    ensures bucket.Some? ==> hours == HoursOfKey(key)
  {
    bucket, hours := None, 0.0;
    var parsed := ParseIso(key);
    if parsed.Some? {
      var d := parsed.value;
      var target := Find(months, (m: MonthOption) => m.value == DateMonthKey(d));
      if target.Some? {
        BarLookup(bars, months, target.value.caption);
        bucket := FindIndex(bars, (md: ChartData) => md.fullName == target.value.caption);
        hours := HoursForWeekday(Weekday(d));
      }
    }
  }

  /** The `for...in` over one participant's ledger, adding each absent day's hours to its
      bar. */
  method AddLedgerHours(bars: seq<ChartData>, months: seq<MonthOption>, days: DayLedger)
    returns (out: seq<ChartData>)
    requires Labelled(bars, months)
    ensures out == BarsAfter(bars, days, Placement(months), days.Keys)
  {
    out := bars;
    var todo := days.Keys;
    BarsAfterStart(bars, days, Placement(months));
    while todo != {}
      invariant todo <= days.Keys
      invariant out == BarsAfter(bars, days, Placement(months), days.Keys - todo)
      decreases |todo|
    {
      var k :| k in todo;
      var bucket: Option<nat> := None;
      var hours := 0.0;
      if days[k] {
        BarsAfterLabelled(bars, months, days, Placement(months), days.Keys - todo);
        bucket, hours := FindBar(out, months, k);
      }
      BarsAfterStep(bars, days, Placement(months), todo, k, bucket, hours);
      out := AddToBar(out, bucket, hours);
      todo := todo - {k};
    }
    assert days.Keys - todo == days.Keys;
  }

  /** `monthlyAbsenceData`: one bar per month, each holding the hours the shown participants'
      absent days add to it. */
  method MonthlyAbsenceData(attendance: AttendanceRecord, ps: seq<Participant>,
                            months: seq<MonthOption>)
    returns (bars: seq<ChartData>)
    ensures |bars| == |months|
    ensures forall j :: 0 <= j < |months| ==> bars[j] == Bar(months, j, BarHours(attendance, ps, months, j))
  {
    bars := InitialBars(months);
    var i := 0;
    while i < |ps|
      invariant 0 <= i <= |ps|
      invariant Labelled(bars, months)
      invariant forall j :: 0 <= j < |months| ==> bars[j] == Bar(months, j, BarHours(attendance, ps[..i], months, j))
    {
      var days := LedgerOf(attendance, ps[i].cef);
      var next := AddLedgerHours(bars, months, days);
      forall j | 0 <= j < |months|
        ensures next[j] == Bar(months, j, BarHours(attendance, ps[..i + 1], months, j))
      {
        BarHoursStep(attendance, ps, months, i, j);
      }
      BarsAfterLabelled(bars, months, days, Placement(months), days.Keys);
      bars := next;
      i := i + 1;
    }
    assert ps[..i] == ps;
  }

  /** The hours of bar `j` over one more participant. */
  lemma BarHoursStep(attendance: AttendanceRecord, ps: seq<Participant>, months: seq<MonthOption>,
                     i: nat, j: nat)
    requires i < |ps|
    ensures BarHours(attendance, ps[..i + 1], months, j)
         == BarHours(attendance, ps[..i], months, j) + LedgerBarHours(LedgerOf(attendance, ps[i].cef), months, j)
  {
    PrefixSnoc(ps, i);
  }

  // ---------------------------------------------------------------------------
  // The bars of a training year
  // ---------------------------------------------------------------------------

  /** In a training year's months, a day counts towards bar `j` exactly when it is a date
      whose month key is that of month `j`: one bar per month, and a day of a month outside
      the training year counts nowhere. */
  lemma TrainingBucket(start: nat, key: string, j: nat)
    ensures var months := TrainingMonths(start, 11);
      BucketOf(months, key) == Some(j)
      <==> j < 11 && ParseIso(key).Some? && months[j].value == DateMonthKey(ParseIso(key).value)
  {
    var months := TrainingMonths(start, 11);
    forall a, b | 0 <= a < b < |months|
      ensures months[a].value != months[b].value && months[a].caption != months[b].caption
    {
      KeysDistinct(start, a, b);
      LabelsDistinct(start, a, b);
    }
    BucketOfDistinct(months, key, j);
  }

  /** No two months share a key or a label. */
  predicate DistinctMonths(months: seq<MonthOption>) {
    forall a, b :: 0 <= a < b < |months| ==>
      months[a].value != months[b].value && months[a].caption != months[b].caption
  }

  /** When keys and labels are distinct, the bar of a day is the month whose key is the
      day's. */
  lemma BucketOfDistinct(months: seq<MonthOption>, key: string, j: nat)
    requires DistinctMonths(months)
    ensures BucketOf(months, key) == Some(j)
      <==> j < |months| && ParseIso(key).Some? && months[j].value == DateMonthKey(ParseIso(key).value)
  {
    match ParseIso(key)
    case None =>
    case Some(d) =>
      var hit := (m: MonthOption) => m.value == DateMonthKey(d);
      var target := Find(months, hit);
      if target.Some? {
        var i :| 0 <= i < |months| && months[i] == target.value;
        var byLabel := (m: MonthOption) => m.caption == target.value.caption;
        var found := FindIndex(months, byLabel);
        assert byLabel(months[i]);
        assert found == Some(i);
      }
  }

  lemma LabelsDistinct(start: nat, i: nat, j: nat)
    requires i < 11 && j < 11 && i != j
    ensures TrainingMonths(start, 11)[i].caption != TrainingMonths(start, 11)[j].caption
  {
    if i < j { TrainingMonthLabelsDistinct(start, i, j); } else { TrainingMonthLabelsDistinct(start, j, i); }
  }

  lemma KeysDistinct(start: nat, i: nat, j: nat)
    requires i < 11 && j < 11 && i != j
    ensures TrainingMonths(start, 11)[i].value != TrainingMonths(start, 11)[j].value
  {
    if i < j { TrainingMonthKeysDistinct(start, i, j); } else { TrainingMonthKeysDistinct(start, j, i); }
  }

  /** For a four-digit year the day's month key is the menu's key of its month. */
  lemma DateMonthKeyFourDigits(d: Date)
    requires 1000 <= d.year <= 9999
    ensures DateMonthKey(d) == FormatMonthKey(d.year, d.month)
  {
    NatToStringFourDigits(d.year);
  }

  lemma NatToStringFourDigits(n: nat)
    requires 1000 <= n <= 9999
    ensures |NatToString(n)| == 4
  {
    assert NatToString(n) == NatToString(n / 10) + [DigitChar(n % 10)];
    assert NatToString(n / 10) == NatToString(n / 100) + [DigitChar(n / 10 % 10)];
    assert NatToString(n / 100) == NatToString(n / 1000) + [DigitChar(n / 100 % 10)];
  }

  /** A day of a four-digit year counts in the chart of a training year that starts in a
      four-digit year exactly when it falls from September of the start year to July of the
      next; August never counts. */
  lemma TrainingBucketOfDay(start: nat, d: Date)
    requires 1000 <= start && ValidDate(d) && 1000 <= d.year <= 9999
    ensures BucketOf(TrainingMonths(start, 11), FormatIso(d)).Some?
      <==> d.month != 8 && d.year == (if d.month >= 9 then start else start + 1)
  {
    var months := TrainingMonths(start, 11);
    ParseFormatIso(d);
    DateMonthKeyFourDigits(d);
    TrainingYearMonths(start, d.year, d.month);
    var b := BucketOf(months, FormatIso(d));
    if b.Some? {
      TrainingBucket(start, FormatIso(d), b.value);
      assert TrainingMonth(start, b.value).value == FormatMonthKey(d.year, d.month);
    }
    if d.month != 8 && d.year == (if d.month >= 9 then start else start + 1) {
      var i :| 0 <= i < 11 && TrainingMonth(start, i).value == FormatMonthKey(d.year, d.month);
      TrainingBucket(start, FormatIso(d), i);
    }
  }

  /** The bar of a training month is named after its month. */
  lemma TrainingBarName(start: nat, j: nat)
    requires j < 11
    ensures Split(TrainingMonths(start, 11)[j].caption, ' ')[0] == MonthName(TrainingMonthIndex(j))
  {
    MonthLabelName(TrainingMonthIndex(j), TrainingMonthYear(start, j));
  }

  // ---------------------------------------------------------------------------
  // The top three months
  // ---------------------------------------------------------------------------

  /** The comparator `(a, b) => b.totalHours - a.totalHours`. */
  predicate HoursFirst(a: ChartData, b: ChartData) {
    a.totalHours >= b.totalHours
  }

  lemma HoursFirstTotalPreorder()
    ensures TotalPreorder(HoursFirst)
  {
  }

  /** The bars with some hours, most hours first. */
  function RankedMonths(bars: seq<ChartData>): seq<ChartData> {
    SortBy(Filter(bars, (b: ChartData) => b.totalHours > 0.0), HoursFirst)
  }

  /** `topAbsentMonths`: the first three of the ranked bars. */
  function TopAbsentMonths(bars: seq<ChartData>): (top: seq<ChartData>)
    ensures |top| <= 3
  {
    var ranked := RankedMonths(bars);
    if |ranked| <= 3 then ranked else ranked[..3]
  }

  /** The bars with hours, ranked, are exactly those bars, most hours first. */
  lemma RankedMonthsSpec(bars: seq<ChartData>)
    ensures var ranked := RankedMonths(bars);
      && (forall b :: b in ranked <==> b in bars && b.totalHours > 0.0)
      && (forall i, j :: 0 <= i < j < |ranked| ==> ranked[i].totalHours >= ranked[j].totalHours)
  {
    var positive := (b: ChartData) => b.totalHours > 0.0;
    var kept := Filter(bars, positive);
    var ranked := RankedMonths(bars);
    HoursFirstTotalPreorder();
    SortBySorted(kept, HoursFirst);
    forall b ensures b in ranked <==> b in bars && b.totalHours > 0.0 {
      FilterMembers(bars, positive, b);
      assert b in ranked <==> b in multiset(ranked);
      assert b in kept <==> b in multiset(kept);
    }
  }

  /** The top months are bars with some hours, most hours first. */
  lemma TopAbsentMonthsListed(bars: seq<ChartData>)
    ensures var top := TopAbsentMonths(bars);
      && (forall i :: 0 <= i < |top| ==> top[i] in bars && top[i].totalHours > 0.0)
      && (forall i, j :: 0 <= i < j < |top| ==> top[i].totalHours >= top[j].totalHours)
  {
    var ranked := RankedMonths(bars);
    var top := TopAbsentMonths(bars);
    RankedMonthsSpec(bars);
    assert forall i :: 0 <= i < |top| ==> top[i] == ranked[i];
  }

  /** A bar with hours left out of the top months has no more hours than each of the three
      listed. */
  lemma TopAbsentMonthsComplete(bars: seq<ChartData>, b: ChartData)
    requires b in bars && b.totalHours > 0.0
    ensures var top := TopAbsentMonths(bars);
      b !in top ==> |top| == 3 && forall i :: 0 <= i < 3 ==> top[i].totalHours >= b.totalHours
  {
    var ranked := RankedMonths(bars);
    var top := TopAbsentMonths(bars);
    RankedMonthsSpec(bars);
    if b !in top {
      var k :| 0 <= k < |ranked| && ranked[k] == b;
      assert k >= 3;
      forall i | 0 <= i < 3 ensures top[i].totalHours >= b.totalHours {
        assert top[i] == ranked[i];
      }
    }
  }
}
