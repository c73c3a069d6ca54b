/** The calendar of a training year: which training year is current, the five years offered,
    the eleven months of a year (September to July) and the Monday-anchored weeks of a month. */
module DateUtils {
  import opened Wrappers
  import opened Strings
  import opened Calendar

  // ---------------------------------------------------------------------------
  // Training years
  // ---------------------------------------------------------------------------

  /** The name of the training year that starts in September of `start`: "start-(start+1)". */
  function YearSpan(start: int): string {
    IntToString(start) + "-" + IntToString(start + 1)
  }

  /** The training year of the month `monthIndex` (0 = January) of `year`, as the clock gives
      them: a training year starts in September. */
  function CurrentTrainingYear(year: int, monthIndex: nat): (r: string)
    ensures monthIndex >= 8 ==> r == YearSpan(year)
    ensures monthIndex < 8 ==> r == YearSpan(year - 1)
  {
    if monthIndex >= 8 then YearSpan(year) else YearSpan(year - 1)
  }

  /** The year whose September opens the current training year. */
  function StartOfTrainingYear(year: int, monthIndex: nat): int {
    if monthIndex >= 8 then year else year - 1
  }

  /** The pieces of a year span around its '-'. */
  lemma YearSpanPieces(start: nat)
    ensures Split(YearSpan(start), '-') == [NatToString(start), NatToString(start + 1)]
  {
    SplitConcat(NatToString(start), NatToString(start + 1), '-');
    SplitNoSep(NatToString(start + 1), '-');
  }

  /** `parseInt(name.split('-')[1])`: the end year read back from a training-year name.
      A name without a second piece or without leading digits would give `NaN`; the names
      read here are always year spans, so that case yields 0. */
  function EndYear(name: string): int {
    var pieces := Split(name, '-');
    if |pieces| >= 2 && ParseIntPrefix(pieces[1]).Some? then ParseIntPrefix(pieces[1]).value
    else 0
  }

  /** The end year of a training year is read back from its name. */
  lemma EndYearOfSpan(start: nat)
    ensures EndYear(YearSpan(start)) == start + 1
  {
    YearSpanPieces(start);
    ParseIntPrefixNatToString(start + 1);
  }

  lemma EndYearOfCurrent(year: int, monthIndex: nat)
    requires year >= 1
    ensures EndYear(CurrentTrainingYear(year, monthIndex)) == StartOfTrainingYear(year, monthIndex) + 1
  {
    EndYearOfSpan(StartOfTrainingYear(year, monthIndex));
  }

  /** The five training years offered in the menus: the current one, then the four before it.
      The end year is read back from the current year's name. */
  function TrainingYears(year: int, monthIndex: nat): (r: seq<string>)
    ensures |r| == 5
  {
    var end := EndYear(CurrentTrainingYear(year, monthIndex));
    seq(5, i requires 0 <= i < 5 => YearSpan(end - i - 1))
  }

  /** The `i`-th year offered starts `i` years before the current training year. */
  lemma TrainingYearsSpan(year: int, monthIndex: nat, i: nat)
    requires year >= 1 && i < 5
    ensures TrainingYears(year, monthIndex)[i] == YearSpan(StartOfTrainingYear(year, monthIndex) - i)
  {
    EndYearOfCurrent(year, monthIndex);
  }

  /** The menu opens on the current training year, and its five names are all different
      once the current year is at least 5. */
  lemma TrainingYearsDistinct(year: int, monthIndex: nat)
    requires year >= 1
    ensures TrainingYears(year, monthIndex)[0] == CurrentTrainingYear(year, monthIndex)
    ensures year >= 5 ==> forall i, j :: 0 <= i < j < 5 ==>
      TrainingYears(year, monthIndex)[i] != TrainingYears(year, monthIndex)[j]
  {
    TrainingYearsSpan(year, monthIndex, 0);
    forall i, j | year >= 5 && 0 <= i < j < 5
      ensures TrainingYears(year, monthIndex)[i] != TrainingYears(year, monthIndex)[j]
    {
      TrainingYearsDiffer(year, monthIndex, i, j);
    }
  }

  lemma TrainingYearsDiffer(year: int, monthIndex: nat, i: nat, j: nat)
    requires year >= 5 && i < j < 5
    ensures TrainingYears(year, monthIndex)[i] != TrainingYears(year, monthIndex)[j]
  {
    var start := StartOfTrainingYear(year, monthIndex);
    TrainingYearsSpan(year, monthIndex, i);
    TrainingYearsSpan(year, monthIndex, j);
    var a: nat := start - i;
    var b: nat := start - j;
    if YearSpan(a) == YearSpan(b) {
      YearSpanInjective(a, b);
    }
  }

  /** Different start years give different training-year names. */
  lemma YearSpanInjective(a: nat, b: nat)
    requires YearSpan(a) == YearSpan(b)
    ensures a == b
  {
    YearSpanPieces(a);
    YearSpanPieces(b);
    NatToStringInjective(a, b);
  }

  // ---------------------------------------------------------------------------
  // Months of a training year
  // ---------------------------------------------------------------------------

  /** An entry of the month menu: the `yyyy-MM` key (`value`) and the French label (`caption`). */
  datatype MonthOption = MonthOption(value: string, caption: string)

  /** `new Date(y, m, 1)` reads the years 0 to 99 as 1900 to 1999. */
  function CtorYear(y: nat): (r: nat)
    ensures r >= 100
  {
    if y <= 99 then 1900 + y else y
  }

  /** The French month name of `format(d, 'MMMM', { locale: fr })`, with its first letter
      capitalised. */
  function MonthName(monthIndex: nat): string
    requires monthIndex < 12
  {
    match monthIndex
    case 0 => "Janvier"
    case 1 => "F\U{E9}vrier"
    case 2 => "Mars"
    case 3 => "Avril"
    case 4 => "Mai"
    case 5 => "Juin"
    case 6 => "Juillet"
    case 7 => "Ao\U{FB}t"
    case 8 => "Septembre"
    case 9 => "Octobre"
    case 10 => "Novembre"
    case 11 => "D\U{E9}cembre"
  }

  lemma MonthNamesDistinct(a: nat, b: nat)
    requires a < 12 && b < 12 && a != b
    ensures MonthName(a) != MonthName(b)
  {
    assert |MonthName(a)| != |MonthName(b)| || MonthName(a)[1] != MonthName(b)[1];
  }

  lemma MonthNameHasNoSpace(monthIndex: nat)
    requires monthIndex < 12
    ensures ' ' !in MonthName(monthIndex)
  {
  }

  /** The menu entry of month `monthIndex` (0 = January) of year `y`. */
  function MonthEntry(y: nat, monthIndex: nat): MonthOption
    requires monthIndex < 12
  {
    var year := CtorYear(y);
    MonthOption(FormatMonthKey(year, monthIndex + 1), MonthName(monthIndex) + " " + Padded(year, 4))
  }

  /** The calendar month (0 = January) of the `i`-th month of a training year. */
  function TrainingMonthIndex(i: nat): (m: nat)
    ensures m < 12
    ensures i < 4 ==> m == i + 8
    ensures 4 <= i < 16 ==> m == i - 4
  {
    (8 + i) % 12
  }

  /** The `i`-th month of the training year that starts in `start`. */
  function TrainingMonth(start: nat, i: nat): MonthOption {
    var monthIndex := TrainingMonthIndex(i);
    MonthEntry(if monthIndex >= 8 then start else start + 1, monthIndex)
  }

  /** `getMonthsForTrainingYear`: the eleven months of the training year named `year`;
      `None` when its start year does not read as a number (date-fns then throws). */
  function MonthsForTrainingYear(year: string): Option<seq<MonthOption>> {
    match ParseIntPrefix(Split(year, '-')[0])
    case None => None
    case Some(start) => Some(TrainingMonths(start, 11))
  }

  /** The first `n` months of the training year that starts in `start`. */
  function TrainingMonths(start: nat, n: nat): (months: seq<MonthOption>)
    ensures |months| == n
    ensures forall i :: 0 <= i < n ==> months[i] == TrainingMonth(start, i)
  {
    if n == 0 then [] else TrainingMonths(start, n - 1) + [TrainingMonth(start, n - 1)]
  }

  /** The loop of `getMonthsForTrainingYear`, pushing one entry per month. */
  method GetMonthsForTrainingYear(year: string) returns (r: Option<seq<MonthOption>>)
    ensures r == MonthsForTrainingYear(year)
  {
    var startYear := ParseIntPrefix(Split(year, '-')[0]);
    if startYear.None? {
      return None;
    }
    var start := startYear.value;
    var months: seq<MonthOption> := [];
    var i := 0;
    while i < 11
      invariant 0 <= i <= 11
      invariant months == TrainingMonths(start, i)
    {
      var monthIndex := (8 + i) % 12;
      var yearForMonth := if monthIndex >= 8 then start else start + 1;
      TrainingMonthEntry(start, i);
      months := months + [MonthEntry(yearForMonth, monthIndex)];
      i := i + 1;
    }
    return Some(months);
  }

  lemma TrainingMonthEntry(start: nat, i: nat)
    ensures MonthEntry(if (8 + i) % 12 >= 8 then start else start + 1, (8 + i) % 12) == TrainingMonth(start, i)
  {
  }

  /** The `yyyy-MM` key read back: both numbers, when the key is two digit runs around '-'. */
  function ParseMonthKey(key: string): Option<(nat, nat)> {
    var pieces := Split(key, '-');
    if |pieces| >= 2 && pieces[0] != "" && AllDigits(pieces[0])
       && pieces[1] != "" && AllDigits(pieces[1])
    then Some((DigitsValue(pieces[0]), DigitsValue(pieces[1])))
    else None
  }

  lemma ParseFormatMonthKey(year: nat, month: nat)
    ensures ParseMonthKey(FormatMonthKey(year, month)) == Some((year, month))
  {
    var y := Padded(year, 4);
    var m := Padded(month, 2);
    SplitConcat(y, m, '-');
    SplitNoSep(m, '-');
    assert Split(FormatMonthKey(year, month), '-') == [y, m];
    PadZerosValue(NatToString(year), 4);
    PadZerosValue(NatToString(month), 2);
    NatToStringRoundTrip(year);
    NatToStringRoundTrip(month);
  }

  /** Different months have different keys. */
  lemma FormatMonthKeyInjective(y1: nat, m1: nat, y2: nat, m2: nat)
    requires FormatMonthKey(y1, m1) == FormatMonthKey(y2, m2)
    ensures y1 == y2 && m1 == m2
  {
    ParseFormatMonthKey(y1, m1);
    ParseFormatMonthKey(y2, m2);
  }

  /** The calendar year the `i`-th month of the training year falls in. */
  function TrainingMonthYear(start: nat, i: nat): nat {
    CtorYear(if TrainingMonthIndex(i) >= 8 then start else start + 1)
  }

  /** The month key of the `i`-th month names September to December of the start year or
      January to July of the next. */
  lemma TrainingMonthKey(start: nat, i: nat)
    requires i < 11
    ensures var month := TrainingMonthIndex(i) + 1;
      && TrainingMonth(start, i).value == FormatMonthKey(TrainingMonthYear(start, i), month)
      && 1 <= month <= 12 && month != 8
      && TrainingMonthYear(start, i) == CtorYear(if month >= 9 then start else start + 1)
  {
  }

  /** A month key belongs to the training year exactly when it names September to December of
      the start year or January to July of the next: August never does. */
  lemma TrainingYearMonths(start: nat, year: nat, month: nat)
    ensures (exists i :: 0 <= i < 11 && TrainingMonth(start, i).value == FormatMonthKey(year, month))
      <==> 1 <= month <= 12 && month != 8
           && year == CtorYear(if month >= 9 then start else start + 1)
  {
    if exists i :: 0 <= i < 11 && TrainingMonth(start, i).value == FormatMonthKey(year, month) {
      var i :| 0 <= i < 11 && TrainingMonth(start, i).value == FormatMonthKey(year, month);
      KeyNamesTrainingMonth(start, i, year, month);
    }
    if 1 <= month <= 12 && month != 8 && year == CtorYear(if month >= 9 then start else start + 1) {
      TrainingMonthHasKey(start, year, month);
    }
  }

  lemma KeyNamesTrainingMonth(start: nat, i: nat, year: nat, month: nat)
    requires i < 11 && TrainingMonth(start, i).value == FormatMonthKey(year, month)
    ensures 1 <= month <= 12 && month != 8 && year == CtorYear(if month >= 9 then start else start + 1)
  {
    TrainingMonthKey(start, i);
    FormatMonthKeyInjective(TrainingMonthYear(start, i), TrainingMonthIndex(i) + 1, year, month);
  }

  lemma TrainingMonthHasKey(start: nat, year: nat, month: nat)
    requires 1 <= month <= 12 && month != 8
    requires year == CtorYear(if month >= 9 then start else start + 1)
    ensures exists i :: 0 <= i < 11 && TrainingMonth(start, i).value == FormatMonthKey(year, month)
  {
    var i := if month >= 9 then month - 9 else month + 3;
    TrainingMonthKey(start, i);
  }

  /** The months run in calendar order: each one starts later than the one before (when the
      start year is not 99, whose January reads as year 100). */
  lemma TrainingMonthsIncreasing(start: nat, i: nat, j: nat)
    requires i < j < 11 && start != 99
    ensures TrainingMonthYear(start, i) * 12 + TrainingMonthIndex(i)
          < TrainingMonthYear(start, j) * 12 + TrainingMonthIndex(j)
  {
  }

  /** Different months of a training year carry different keys. */
  lemma TrainingMonthKeysDistinct(start: nat, i: nat, j: nat)
    requires i < j < 11
    ensures TrainingMonth(start, i).value != TrainingMonth(start, j).value
  {
    if TrainingMonth(start, i).value == TrainingMonth(start, j).value {
      FormatMonthKeyInjective(TrainingMonthYear(start, i), TrainingMonthIndex(i) + 1,
                              TrainingMonthYear(start, j), TrainingMonthIndex(j) + 1);
    }
  }

  /** A month label starts with the month's name, up to the first space. */
  lemma MonthLabelName(monthIndex: nat, year: nat)
    requires monthIndex < 12
    ensures Split(MonthName(monthIndex) + " " + Padded(year, 4), ' ')[0] == MonthName(monthIndex)
  {
    MonthNameHasNoSpace(monthIndex);
    SplitConcat(MonthName(monthIndex), Padded(year, 4), ' ');
    assert MonthName(monthIndex) + " " + Padded(year, 4) == MonthName(monthIndex) + [' '] + Padded(year, 4);
  }

  /** Different months of a training year carry different labels, so looking a month up by
      its label finds that month. */
  lemma TrainingMonthLabelsDistinct(start: nat, i: nat, j: nat)
    requires i < j < 11
    ensures TrainingMonth(start, i).caption != TrainingMonth(start, j).caption
  {
    var a := TrainingMonthIndex(i);
    var b := TrainingMonthIndex(j);
    MonthLabelName(a, TrainingMonthYear(start, i));
    MonthLabelName(b, TrainingMonthYear(start, j));
    assert TrainingMonth(start, i).caption == MonthName(a) + " " + Padded(TrainingMonthYear(start, i), 4);
    assert TrainingMonth(start, j).caption == MonthName(b) + " " + Padded(TrainingMonthYear(start, j), 4);
    MonthNamesDistinct(a, b);
  }

  // ---------------------------------------------------------------------------
  // Weeks of a month
  // ---------------------------------------------------------------------------

  /** The Mondays among days `from` .. end of month `month` of `year`. */
  function MondaysFrom(year: nat, month: nat, from: nat): (r: seq<Date>)
    requires 1 <= month <= 12 && 1 <= from
    ensures forall k :: 0 <= k < |r| ==> ValidDate(r[k])
    decreases DaysInMonth(year, month) + 1 - from
  {
    if from > DaysInMonth(year, month) then []
    else
      var d := Date(year, month, from);
      if Weekday(d) == 1 then [d] + MondaysFrom(year, month, from + 1)
      else MondaysFrom(year, month, from + 1)
  }

  lemma {:induction false} MondaysFromMembers(year: nat, month: nat, from: nat, d: Date)
    requires 1 <= month <= 12 && 1 <= from
    ensures d in MondaysFrom(year, month, from)
      <==> ValidDate(d) && d.year == year && d.month == month && from <= d.day && Weekday(d) == 1
    decreases DaysInMonth(year, month) + 1 - from
  {
    if from <= DaysInMonth(year, month) {
      MondaysFromMembers(year, month, from + 1, d);
    }
  }

  /** The Mondays of a month, in order: `eachDayOfInterval(..).filter(day => getDay(day) === 1)`. */
  function MondaysOfMonth(year: nat, month: nat): (r: seq<Date>)
    requires 1 <= month <= 12
    ensures forall k :: 0 <= k < |r| ==> ValidDate(r[k])
  {
    MondaysFrom(year, month, 1)
  }

  /** The six days Monday to Saturday starting at `monday`. */
  function WeekFrom(monday: Date): (w: seq<Date>)
    requires ValidDate(monday)
    ensures |w| == 6
    ensures forall i :: 0 <= i < 6 ==> ValidDate(w[i])
  {
    seq(6, i requires 0 <= i < 6 => AddDays(monday, i))
  }

  /** `getWeeksForMonth` for a month given by its numbers. */
  function WeeksOfMonth(year: nat, month: nat): (weeks: seq<seq<Date>>)
    requires 1 <= month <= 12
    ensures |weeks| == |MondaysOfMonth(year, month)|
    ensures forall k :: 0 <= k < |weeks| ==> |weeks[k]| == 6
  {
    var mondays := MondaysOfMonth(year, month);
    seq(|mondays|, k requires 0 <= k < |mondays| => WeekFrom(mondays[k]))
  }

  /** `new Date(y, m, 1)` for a month counted from January of year 0: month `months % 12`
      of year `months / 12`. */
  function WeeksOfMonthIndex(months: nat): seq<seq<Date>> {
    WeeksOfMonth(months / 12, months % 12 + 1)
  }

  /** `getWeeksForMonth(key)`: no weeks for the empty key; otherwise the key's year and month
      are read with `Number`, fed to `new Date(year, month - 1, 1)` (which carries a month
      outside 1..12 into the neighbouring year) and the Mondays of that month give the weeks.
      `None` for keys that are not two digit runs around '-'. */
  function WeeksForMonthKey(key: string): Option<seq<seq<Date>>> {
    if key == "" then Some([])
    else
      var parsed := ParseMonthKey(key);
      if parsed.None? then None
      else Some(WeeksOfMonthIndex(CtorYear(parsed.value.0) * 12 + parsed.value.1 - 1))
  }

  /** The key of a month of a four-digit year gives the weeks of exactly that month. */
  lemma WeeksForFormattedKey(year: nat, month: nat)
    requires 100 <= year && 1 <= month <= 12
    ensures WeeksForMonthKey(FormatMonthKey(year, month)) == Some(WeeksOfMonth(year, month))
  {
    ParseFormatMonthKey(year, month);
    WeeksForParsedKey(FormatMonthKey(year, month), year, month);
  }

  lemma WeeksForParsedKey(key: string, year: nat, month: nat)
    requires 100 <= year && 1 <= month <= 12
    requires ParseMonthKey(key) == Some((year, month))
    ensures WeeksForMonthKey(key) == Some(WeeksOfMonth(year, month))
  {
    ParseEmptyKey();
    assert key != "";
    var months := CtorYear(year) * 12 + month - 1;
    assert WeeksForMonthKey(key) == Some(WeeksOfMonthIndex(months));
    WeeksOfCarriedMonth(year, month, months);
  }

  /** The empty key parses to nothing. */
  lemma ParseEmptyKey()
    ensures ParseMonthKey("") == None
  {
    assert Split("", '-') == [""];
  }

  lemma WeeksOfCarriedMonth(year: nat, month: nat, months: nat)
    requires 100 <= year && 1 <= month <= 12 && months == CtorYear(year) * 12 + month - 1
    ensures WeeksOfMonthIndex(months) == WeeksOfMonth(year, month)
  {
    MonthCarry(CtorYear(year), month - 1);
  }

  lemma MonthCarry(year: nat, monthIndex: nat)
    requires monthIndex < 12
    ensures (year * 12 + monthIndex) / 12 == year && (year * 12 + monthIndex) % 12 == monthIndex
  {
  }

  lemma MondayInFirstWeek(year: nat, month: nat)
    requires 1 <= month <= 12
    ensures exists day :: 1 <= day <= 7 && Weekday(Date(year, month, day)) == 1
  {
    var first := Date(year, month, 1);
    var offset := MondayOffset(Weekday(first));
    var monday := Date(year, month, offset + 1);
    assert DayNumber(monday) == DayNumber(first) + offset;
    WeekdayOfShift(DayNumber(first), offset);
    assert Weekday(monday) == 1;
  }

  /** How many days after a day of weekday `w` the next Monday (or that day) falls. */
  function MondayOffset(w: nat): (offset: nat)
    requires w < 7
    ensures offset < 7 && (w + offset) % 7 == 1
  {
    (8 - w) % 7
  }

  /** Every month has at least one Monday, hence at least one week. */
  lemma WeeksOfMonthNonEmpty(year: nat, month: nat)
    requires 1 <= month <= 12
    ensures |WeeksOfMonth(year, month)| >= 1
  {
    MondayInFirstWeek(year, month);
    var day :| 1 <= day <= 7 && Weekday(Date(year, month, day)) == 1;
    MondaysFromMembers(year, month, 1, Date(year, month, day));
  }

  /** The weeks of a month are exactly the weeks of its Mondays. */
  lemma WeeksOfMonthMembers(year: nat, month: nat, week: seq<Date>)
    requires 1 <= month <= 12
    ensures week in WeeksOfMonth(year, month)
      <==> exists monday :: ValidDate(monday) && monday.year == year && monday.month == month
             && Weekday(monday) == 1 && week == WeekFrom(monday)
  {
    var mondays := MondaysOfMonth(year, month);
    var weeks := WeeksOfMonth(year, month);
    if week in weeks {
      var k :| 0 <= k < |weeks| && weeks[k] == week;
      MondaysFromMembers(year, month, 1, mondays[k]);
    }
    if exists monday :: ValidDate(monday) && monday.year == year && monday.month == month
         && Weekday(monday) == 1 && week == WeekFrom(monday) {
      var monday :| ValidDate(monday) && monday.year == year && monday.month == month
         && Weekday(monday) == 1 && week == WeekFrom(monday);
      MondaysFromMembers(year, month, 1, monday);
      var k :| 0 <= k < |mondays| && mondays[k] == monday;
      assert weeks[k] == week;
    }
  }

  /** The days of a week are consecutive and run Monday (1) to Saturday (6). */
  lemma WeekDays(monday: Date, i: nat)
    requires ValidDate(monday) && Weekday(monday) == 1 && i < 6
    ensures DayNumber(WeekFrom(monday)[i]) == DayNumber(monday) + i
    ensures Weekday(WeekFrom(monday)[i]) == i + 1
  {
    var d := AddDays(monday, i);
    assert WeekFrom(monday)[i] == d;
    AddDaysNumber(monday, i);
    AddDaysWeekday(monday, i);
    ModSevenSmall(1 + i);
  }

  /** Two Monday-anchored weeks that share a day are the same week. */
  lemma WeeksShareDay(a: Date, b: Date, x: Date)
    requires ValidDate(a) && ValidDate(b) && Weekday(a) == 1 && Weekday(b) == 1
    requires x in WeekFrom(a) && x in WeekFrom(b)
    ensures a == b
  {
    var i :| 0 <= i < 6 && WeekFrom(a)[i] == x;
    var j :| 0 <= j < 6 && WeekFrom(b)[j] == x;
    WeekDays(a, i);
    WeekDays(b, j);
    SameWeekdayClose(DayNumber(a), DayNumber(b), i, j);
    DayNumberInjective(a, b);
  }

  lemma SameWeekdayClose(p: nat, q: nat, i: nat, j: nat)
    requires WeekdayOf(p) == WeekdayOf(q) && i < 6 && j < 6 && p + i == q + j
    ensures p == q
  {
  }

  /** No day belongs to weeks of two different months. */
  lemma MonthsShareNoWeek(y1: nat, m1: nat, y2: nat, m2: nat, w1: seq<Date>, w2: seq<Date>, x: Date)
    requires 1 <= m1 <= 12 && 1 <= m2 <= 12
    requires w1 in WeeksOfMonth(y1, m1) && w2 in WeeksOfMonth(y2, m2)
    requires x in w1 && x in w2
    ensures y1 == y2 && m1 == m2 && w1 == w2
  {
    WeeksOfMonthMembers(y1, m1, w1);
    WeeksOfMonthMembers(y2, m2, w2);
    var a :| ValidDate(a) && a.year == y1 && a.month == m1 && Weekday(a) == 1 && w1 == WeekFrom(a);
    var b :| ValidDate(b) && b.year == y2 && b.month == m2 && Weekday(b) == 1 && w2 == WeekFrom(b);
    WeeksShareDay(a, b, x);
  }

  // ---------------------------------------------------------------------------
  // Week labels
  // ---------------------------------------------------------------------------

  /** `formatWeekLabel`: "Semaine du dd/MM au dd/MM/yyyy" from the first to the last day;
      the empty label for an empty week. */
  function FormatWeekLabel(week: seq<Date>): (text: string)
    ensures text == "" <==> week == []
  {
    if week == [] then ""
    else "Semaine du " + FormatDayMonth(week[0]) + " au " + FormatDayMonthYear(week[|week| - 1])
  }

  /** The label of a week shows its first day at a fixed place. */
  lemma WeekLabelStart(week: seq<Date>)
    requires week != [] && ValidDate(week[0])
    ensures |FormatWeekLabel(week)| >= 13
    ensures FormatWeekLabel(week)[11..13] == Padded(week[0].day, 2)
  {
    PaddedExact(week[0].day, 2);
    var dd := Padded(week[0].day, 2);
    var head := "Semaine du " + FormatDayMonth(week[0]);
    var tail := FormatDayMonthYear(week[|week| - 1]);
    assert FormatWeekLabel(week) == head + " au " + tail;
    SlicePrefix(head + " au ", tail, 11, 13);
    SlicePrefix(head, " au ", 11, 13);
    SliceSuffix("Semaine du ", FormatDayMonth(week[0]), 0, 2);
    SlicePrefix(dd + "/", Padded(week[0].month, 2), 0, 2);
    SlicePrefix(dd, "/", 0, 2);
  }

  lemma SlicePrefix(x: string, y: string, i: nat, j: nat)
    requires i <= j <= |x|
    ensures (x + y)[i..j] == x[i..j]
  {
  }

  lemma SliceSuffix(x: string, y: string, i: nat, j: nat)
    requires i <= j <= |y|
    ensures (x + y)[|x| + i..|x| + j] == y[i..j]
  {
  }

  /** Two weeks of one month have different labels: a history entry found by its week label
      belongs to that week. */
  lemma WeekLabelsDistinct(year: nat, month: nat, i: nat, j: nat)
    requires 1 <= month <= 12
    requires i < j < |WeeksOfMonth(year, month)|
    ensures FormatWeekLabel(WeeksOfMonth(year, month)[i]) != FormatWeekLabel(WeeksOfMonth(year, month)[j])
  {
    var weeks := WeeksOfMonth(year, month);
    var mondays := MondaysOfMonth(year, month);
    MondaysFromMembers(year, month, 1, mondays[i]);
    MondaysFromMembers(year, month, 1, mondays[j]);
    WeekLabelStart(weeks[i]);
    WeekLabelStart(weeks[j]);
    assert weeks[i][0] == mondays[i] && weeks[j][0] == mondays[j];
    if FormatWeekLabel(weeks[i]) == FormatWeekLabel(weeks[j]) {
      PaddedExact(mondays[i].day, 2);
      PaddedExact(mondays[j].day, 2);
      assert mondays[i] == mondays[j];
      MondaysDistinct(year, month, 1, i, j);
    }
  }

  /** The Mondays of a month are listed once each, in increasing order of day. */
  lemma {:induction false} MondaysDistinct(year: nat, month: nat, from: nat, i: nat, j: nat)
    requires 1 <= month <= 12 && 1 <= from
    requires i < j < |MondaysFrom(year, month, from)|
    ensures MondaysFrom(year, month, from)[i].day < MondaysFrom(year, month, from)[j].day
    decreases DaysInMonth(year, month) + 1 - from
  {
    var r := MondaysFrom(year, month, from);
    var d := Date(year, month, from);
    var rest := MondaysFrom(year, month, from + 1);
    if Weekday(d) == 1 {
      assert r == [d] + rest;
      if i == 0 {
        MondaysFromMembers(year, month, from + 1, r[j]);
        assert r[j] in rest;
      } else {
        MondaysDistinct(year, month, from + 1, i - 1, j - 1);
      }
    } else {
      assert r == rest;
      MondaysDistinct(year, month, from + 1, i, j);
    }
  }
}
