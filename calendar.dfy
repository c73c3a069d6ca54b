/** The proleptic Gregorian calendar the `Date` values of the application live in: day
    numbers, the weekday `getDay` reads, `addDays`, and the `yyyy-MM-dd` keys of the
    attendance ledger (`format(d, 'yyyy-MM-dd')` one way, `new Date(key)` the other). */
module Calendar {
  import opened Wrappers
  import opened Strings

  /** A calendar date; `month` is 1-based (January = 1) and `year` is the full year. */
  datatype Date = Date(year: nat, month: nat, day: nat)

  predicate IsLeapYear(y: nat) {
    y % 4 == 0 && (y % 100 != 0 || y % 400 == 0)
  }

  function DaysInMonth(y: nat, m: nat): (n: nat)
    requires 1 <= m <= 12
    ensures 28 <= n <= 31
  {
    if m == 2 then (if IsLeapYear(y) then 29 else 28)
    else if m == 4 || m == 6 || m == 9 || m == 11 then 30
    else 31
  }

  /** A date that exists in the calendar. */
  predicate ValidDate(d: Date) {
    1 <= d.month <= 12 && 1 <= d.day <= DaysInMonth(d.year, d.month)
  }

  // ---------------------------------------------------------------------------
  // Day numbers: 0 is 1 January of year 0
  // ---------------------------------------------------------------------------

  /** Days in the years before `y`. */
  function DaysBeforeYear(y: nat): nat {
    if y == 0 then 0 else DaysBeforeYear(y - 1) + DaysBeforeMonth(y - 1, 13)
  }

  /** Days of the months of year `y` before month `m` (`m` = 13 gives the whole year). */
  function DaysBeforeMonth(y: nat, m: nat): nat
    requires 1 <= m <= 13
  {
    var common := [0, 31, 59, 90, 120, 151, 181, 212, 243, 273, 304, 334, 365][m - 1];
    if m > 2 && IsLeapYear(y) then common + 1 else common
  }

  /** Each month starts where the one before it ends. */
  lemma DaysBeforeMonthStep(y: nat, m: nat)
    requires 1 < m <= 13
    ensures DaysBeforeMonth(y, m) == DaysBeforeMonth(y, m - 1) + DaysInMonth(y, m - 1)
  {
  }

  function DayNumber(d: Date): nat
    requires ValidDate(d)
  {
    DaysBeforeYear(d.year) + DaysBeforeMonth(d.year, d.month) + d.day - 1
  }

  lemma YearLength(y: nat)
    ensures DaysBeforeMonth(y, 13) == if IsLeapYear(y) then 366 else 365
  {
  }

  /** Consecutive years are as far apart as the first one is long. */
  lemma DaysBeforeNextYear(y: nat)
    ensures DaysBeforeYear(y + 1) == DaysBeforeYear(y) + DaysBeforeMonth(y, 13)
  {
  }

  lemma {:induction false} DaysBeforeMonthMonotone(y: nat, m: nat, n: nat)
    requires 1 <= m <= n <= 13
    ensures DaysBeforeMonth(y, m) + (n - m) * 28 <= DaysBeforeMonth(y, n)
    decreases n - m
  {
    if m < n {
      DaysBeforeMonthMonotone(y, m, n - 1);
      DaysBeforeMonthStep(y, n);
    }
  }

  lemma {:induction false} DaysBeforeYearMonotone(y: nat, z: nat)
    requires y <= z
    ensures DaysBeforeYear(y) <= DaysBeforeYear(z)
    decreases z - y
  {
    if y < z {
      DaysBeforeYearMonotone(y, z - 1);
      DaysBeforeNextYear(z - 1);
    }
  }

  /** The day number of a date lies inside its own year. */
  lemma DayNumberInYear(d: Date)
    requires ValidDate(d)
    ensures DaysBeforeYear(d.year) <= DayNumber(d) < DaysBeforeYear(d.year + 1)
  {
    DaysBeforeNextYear(d.year);
    DaysBeforeMonthMonotone(d.year, d.month + 1, 13);
  }

  /** Within a year, the day number lies inside its own month. */
  lemma DayNumberInMonth(d: Date)
    requires ValidDate(d)
    ensures DaysBeforeYear(d.year) + DaysBeforeMonth(d.year, d.month) <= DayNumber(d)
    ensures DayNumber(d) < DaysBeforeYear(d.year) + DaysBeforeMonth(d.year, d.month + 1)
  {
    DaysBeforeMonthStep(d.year, d.month + 1);
  }

  lemma SameDayNumberSameYear(a: Date, b: Date)
    requires ValidDate(a) && ValidDate(b) && DayNumber(a) == DayNumber(b)
    ensures a.year == b.year
  {
    DayNumberInYear(a);
    DayNumberInYear(b);
    if a.year < b.year {
      DaysBeforeYearMonotone(a.year + 1, b.year);
    } else if b.year < a.year {
      DaysBeforeYearMonotone(b.year + 1, a.year);
    }
  }

  lemma SameYearSameMonth(a: Date, b: Date)
    requires ValidDate(a) && ValidDate(b) && a.year == b.year
    requires DaysBeforeMonth(a.year, a.month) + a.day == DaysBeforeMonth(b.year, b.month) + b.day
    ensures a.month == b.month
  {
    if a.month < b.month {
      DaysBeforeMonthStep(a.year, a.month + 1);
      DaysBeforeMonthMonotone(a.year, a.month + 1, b.month);
    } else if b.month < a.month {
      DaysBeforeMonthStep(b.year, b.month + 1);
      DaysBeforeMonthMonotone(b.year, b.month + 1, a.month);
    }
  }

  /** Different dates have different day numbers. */
  lemma DayNumberInjective(a: Date, b: Date)
    requires ValidDate(a) && ValidDate(b) && DayNumber(a) == DayNumber(b)
    ensures a == b
  {
    SameDayNumberSameYear(a, b);
    SameYearSameMonth(a, b);
  }

  /** `getDay`: 0 is Sunday, 1 Monday, ..., 6 Saturday (1 January of year 0 was a Saturday). */
  function Weekday(d: Date): (w: nat)
    requires ValidDate(d)
    ensures w < 7
  {
    WeekdayOf(DayNumber(d))
  }

  /** The weekday of the day with a given number (day 0 is a Saturday). */
  function WeekdayOf(n: nat): (w: nat)
    ensures w < 7
  {
    (n + 6) % 7
  }

  /** `n` days later the weekday has moved `n` steps round the week. */
  lemma WeekdayOfShift(a: nat, n: nat)
    ensures WeekdayOf(a + n) == (WeekdayOf(a) + n) % 7
  {
    ModSevenShift(a + 6, n);
  }

  // ---------------------------------------------------------------------------
  // addDays
  // ---------------------------------------------------------------------------

  /** The following calendar day. */
  function NextDay(d: Date): (e: Date)
    requires ValidDate(d)
    ensures ValidDate(e)
  {
    if d.day < DaysInMonth(d.year, d.month) then Date(d.year, d.month, d.day + 1)
    else if d.month < 12 then Date(d.year, d.month + 1, 1)
    else Date(d.year + 1, 1, 1)
  }

  lemma NextDayNumber(d: Date)
    requires ValidDate(d)
    ensures DayNumber(NextDay(d)) == DayNumber(d) + 1
  {
    if d.day == DaysInMonth(d.year, d.month) {
      DaysBeforeMonthStep(d.year, d.month + 1);
      if d.month == 12 {
        DaysBeforeNextYear(d.year);
        YearLength(d.year);
      }
    }
  }

  /** `addDays(d, n)` for `n >= 0`. */
  function AddDays(d: Date, n: nat): (e: Date)
    requires ValidDate(d)
    ensures ValidDate(e)
    decreases n
  {
    if n == 0 then d else AddDays(NextDay(d), n - 1)
  }

  lemma {:induction false} AddDaysNumber(d: Date, n: nat)
    requires ValidDate(d)
    ensures DayNumber(AddDays(d, n)) == DayNumber(d) + n
    decreases n
  {
    if n == 0 {
      assert AddDays(d, n) == d;
    } else {
      var e := NextDay(d);
      NextDayNumber(d);
      AddDaysNumber(e, n - 1);
      assert AddDays(d, n) == AddDays(e, n - 1);
    }
  }

  /** The remainder of a number written as `7 * q + r` with `0 <= r < 7` is `r`. */
  lemma ModSevenUnique(a: int, q: int, r: int)
    requires a == 7 * q + r && 0 <= r < 7
    ensures a % 7 == r
  {
    var q0 := a / 7;
    assert a == 7 * q0 + a % 7;
    assert 7 * (q0 - q) == r - a % 7;
  }

  lemma ModSevenSmall(k: nat)
    requires k < 7
    ensures k % 7 == k
  {
  }

  lemma ModSevenShift(a: nat, n: nat)
    ensures (a + n) % 7 == (a % 7 + n) % 7
  {
    var q := a / 7;
    var r := a % 7;
    assert a == 7 * q + r;
    var q2 := (r + n) / 7;
    var r2 := (r + n) % 7;
    assert r + n == 7 * q2 + r2;
    ModSevenUnique(a + n, q + q2, r2);
  }

  /** Adding days moves the weekday along cyclically. */
  lemma AddDaysWeekday(d: Date, n: nat)
    requires ValidDate(d)
    ensures Weekday(AddDays(d, n)) == (Weekday(d) + n) % 7
  {
    AddDaysNumber(d, n);
    WeekdayAfter(d, AddDays(d, n), n);
  }

  /** A day `n` days after `d` lies `n` steps further round the week. */
  lemma WeekdayAfter(d: Date, e: Date, n: nat)
    requires ValidDate(d) && ValidDate(e) && DayNumber(e) == DayNumber(d) + n
    ensures Weekday(e) == (Weekday(d) + n) % 7
  {
    WeekdayOfShift(DayNumber(d), n);
  }

  // ---------------------------------------------------------------------------
  // Text forms of a date
  // ---------------------------------------------------------------------------

  /** A number written with at least `width` digits (`yyyy`, `MM`, `dd`). */
  function Padded(n: nat, width: nat): (s: string)
    ensures AllDigits(s)
  {
    PadZeros(NatToString(n), width)
  }

  /** `format(d, 'yyyy-MM-dd')`: the key of the attendance ledger. */
  function FormatIso(d: Date): string {
    Padded(d.year, 4) + "-" + Padded(d.month, 2) + "-" + Padded(d.day, 2)
  }

  /** `format(d, 'yyyy-MM')`: the key of a month. */
  function FormatMonthKey(year: nat, month: nat): string {
    Padded(year, 4) + "-" + Padded(month, 2)
  }

  /** `format(d, 'dd/MM')`. */
  function FormatDayMonth(d: Date): string {
    Padded(d.day, 2) + "/" + Padded(d.month, 2)
  }

  /** `format(d, 'dd/MM/yyyy')`. */
  function FormatDayMonthYear(d: Date): string {
    Padded(d.day, 2) + "/" + Padded(d.month, 2) + "/" + Padded(d.year, 4)
  }

  /** `new Date(key)` for a ledger key: a date exactly when the key is ten characters
      `dddd-dd-dd` naming a date that exists. */
  function ParseIso(s: string): (r: Option<Date>)
    ensures r.Some? ==> ValidDate(r.value) && |s| == 10
  {
    if |s| == 10 && AllDigits(s[..4]) && s[4] == '-' && AllDigits(s[5..7]) && s[7] == '-'
       && AllDigits(s[8..])
    then
      var d := Date(DigitsValue(s[..4]), DigitsValue(s[5..7]), DigitsValue(s[8..]));
      if ValidDate(d) then Some(d) else None
    else None
  }

  // ---------------------------------------------------------------------------
  // Fixed-width digit strings
  // ---------------------------------------------------------------------------

  /** A leading zero does not change the value of a digit string. */
  lemma {:induction false} LeadingZeroValue(s: string)
    requires AllDigits(s)
    ensures AllDigits(['0'] + s) && DigitsValue(['0'] + s) == DigitsValue(s)
    decreases |s|
  {
    if s != [] {
      LeadingZeroValue(s[..|s| - 1]);
      assert (['0'] + s)[..|s|] == ['0'] + s[..|s| - 1];
    } else {
      assert (['0'] + s)[..0] == [];
    }
  }

  lemma {:induction false} ZerosValue(k: nat, s: string)
    requires AllDigits(s)
    ensures DigitsValue(Zeros(k) + s) == DigitsValue(s)
    decreases k
  {
    if k > 0 {
      ZerosValue(k - 1, s);
      var t := Zeros(k - 1) + s;
      DigitsAppend(Zeros(k - 1), s);
      ZerosCons(k - 1, s);
      LeadingZeroValue(t);
    } else {
      assert Zeros(k) + s == s;
    }
  }

  lemma DigitsAppend(a: string, b: string)
    requires AllDigits(a) && AllDigits(b)
    ensures AllDigits(a + b)
  {
  }

  lemma ZerosCons(k: nat, s: string)
    ensures Zeros(k + 1) + s == ['0'] + (Zeros(k) + s)
  {
    assert Zeros(k + 1) == ['0'] + Zeros(k);
  }

  lemma PadZerosValue(s: string, width: nat)
    requires AllDigits(s)
    ensures DigitsValue(PadZeros(s, width)) == DigitsValue(s)
  {
    if |s| < width {
      assert PadZeros(s, width) == Zeros(width - |s|) + s;
      ZerosValue(width - |s|, s);
    }
  }

  function Pow10(w: nat): (p: nat)
    ensures p >= 1
  {
    if w == 0 then 1 else 10 * Pow10(w - 1)
  }

  /** A number below `10^width` needs at most `width` digits. */
  lemma {:induction false} NatToStringShort(n: nat, width: nat)
    requires 1 <= width && n < Pow10(width)
    ensures |NatToString(n)| <= width
    decreases width
  {
    if n >= 10 {
      assert width > 1;
      NatToStringShort(n / 10, width - 1);
    }
  }

  /** Digit strings of one length with one value are equal. */
  lemma {:induction false} DigitsValueInjective(s: string, t: string)
    requires AllDigits(s) && AllDigits(t) && |s| == |t| && DigitsValue(s) == DigitsValue(t)
    ensures s == t
    decreases |s|
  {
    if s != [] {
      var i := |s| - 1;
      assert DigitValue(s[i]) == DigitValue(t[i]);
      assert DigitChar(DigitValue(s[i])) == s[i];
      DigitsValueInjective(s[..i], t[..i]);
      assert s == s[..i] + [s[i]] && t == t[..i] + [t[i]];
    }
  }

  lemma PaddedExact(n: nat, width: nat)
    requires 1 <= width && n < Pow10(width)
    ensures |Padded(n, width)| == width && DigitsValue(Padded(n, width)) == n
  {
    NatToStringShort(n, width);
    PadZerosValue(NatToString(n), width);
    NatToStringRoundTrip(n);
  }

  /** A date of a four-digit year, written as a ledger key, reads back as itself. */
  lemma ParseFormatIso(d: Date)
    requires ValidDate(d) && d.year <= 9999
    ensures ParseIso(FormatIso(d)) == Some(d)
  {
    PaddedExact(d.year, 4);
    PaddedExact(d.month, 2);
    PaddedExact(d.day, 2);
    KeySlices(Padded(d.year, 4), Padded(d.month, 2), Padded(d.day, 2));
  }

  /** What a successful `ParseIso` read from each field of the key. */
  lemma ParseIsoFields(s: string)
    requires ParseIso(s).Some?
    ensures |s| == 10 && s[4] == '-' && s[7] == '-'
    ensures AllDigits(s[..4]) && AllDigits(s[5..7]) && AllDigits(s[8..])
    ensures ParseIso(s).value
      == Date(DigitsValue(s[..4]), DigitsValue(s[5..7]), DigitsValue(s[8..]))
  {
  }

  /** The three fields of a `yyyy-MM-dd` key sit at fixed positions. */
  lemma KeySlices(y: string, m: string, d: string)
    requires |y| == 4 && |m| == 2 && |d| == 2
    ensures var s := y + "-" + m + "-" + d;
      |s| == 10 && s[..4] == y && s[4] == '-' && s[5..7] == m && s[7] == '-' && s[8..] == d
  {
  }

  lemma KeyFromSlices(s: string)
    requires |s| == 10 && s[4] == '-' && s[7] == '-'
    ensures s == s[..4] + "-" + s[5..7] + "-" + s[8..]
  {
  }

  /** A field of `width` digits is the padded rendering of its value. */
  lemma PaddedOfDigits(t: string, width: nat)
    requires 1 <= width && AllDigits(t) && |t| == width
    ensures Padded(DigitsValue(t), width) == t
  {
    DigitsValueBound(t);
    PaddedExact(DigitsValue(t), width);
    DigitsValueInjective(Padded(DigitsValue(t), width), t);
  }

  /** Every key that reads as a date is that date's own ledger key. */
  lemma FormatParseIso(s: string)
    requires ParseIso(s).Some?
    ensures FormatIso(ParseIso(s).value) == s
  {
    ParseIsoFields(s);
    PaddedOfDigits(s[..4], 4);
    PaddedOfDigits(s[5..7], 2);
    PaddedOfDigits(s[8..], 2);
    KeyFromSlices(s);
  }

  lemma {:induction false} DigitsValueBound(s: string)
    requires AllDigits(s)
    ensures DigitsValue(s) < Pow10(|s|)
    decreases |s|
  {
    if s != [] {
      DigitsValueBound(s[..|s| - 1]);
    }
  }

  /** Different dates of four-digit years have different ledger keys. */
  lemma FormatIsoInjective(a: Date, b: Date)
    requires ValidDate(a) && ValidDate(b) && a.year <= 9999 && b.year <= 9999
    requires FormatIso(a) == FormatIso(b)
    ensures a == b
  {
    ParseFormatIso(a);
    ParseFormatIso(b);
  }
}
