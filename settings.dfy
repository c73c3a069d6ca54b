/** The Settings tab's check of a new training year, and the application's handler that adds
    an accepted year to the list. */
module Settings {
  import opened Strings
  import opened Sorting
  import opened Ordering

  /** The regular expression `^\d{4}-\d{4}$`: four ASCII digits, '-', four ASCII digits,
      nothing before or after. */
  predicate YearFormat(s: string) {
    |s| == 9 && AllDigits(s[..4]) && s[4] == '-' && AllDigits(s[5..])
  }

  /** What `handleAdd` does with the typed text: the error it shows, or the year it passes on. */
  datatype AddOutcome = FormatError | DuplicateError | Accepted(year: string)

  /** `handleAdd`: the format is checked first, then the year must not be listed yet. A
      malformed year is a format error even when it is listed, a well-formed listed year a
      duplicate, and anything else is passed on as typed. */
  function HandleAdd(trainingYears: seq<string>, newYear: string): (r: AddOutcome)
    ensures r == FormatError <==> !YearFormat(newYear)
    ensures r == DuplicateError <==> YearFormat(newYear) && newYear in trainingYears
    ensures r.Accepted? <==> YearFormat(newYear) && newYear !in trainingYears
    ensures r.Accepted? ==> r.year == newYear
  {
    if !YearFormat(newYear) then FormatError
    else if newYear in trainingYears then DuplicateError
    else Accepted(newYear)
  }

  /** Years of the form "2023-2024" (digits, '-', digits) pass the format check. */
  lemma YearFormatOfDigits(first: string, second: string)
    requires |first| == 4 && |second| == 4 && AllDigits(first) && AllDigits(second)
    ensures YearFormat(first + "-" + second)
  {
    var s := first + "-" + second;
    assert s[..4] == first && s[5..] == second;
  }

  /** A year that passes has nine characters, the dash fifth and digits everywhere else. */
  lemma YearFormatLength(s: string)
    requires YearFormat(s)
    ensures |s| == 9 && s[4] == '-'
    ensures forall i :: 0 <= i < 9 && i != 4 ==> IsDigit(s[i])
  {
    forall i | 0 <= i < 9 && i != 4 ensures IsDigit(s[i]) {
      if i < 4 {
        assert s[i] == s[..4][i];
      } else {
        assert s[i] == s[5..][i - 5];
      }
    }
  }

  /** `handleAddTrainingYear` in the application: a new year joins the list, which is then
      sorted with later years first; a year already listed leaves the list as it was. */
  function AddTrainingYear(trainingYears: seq<string>, year: string): seq<string> {
    if year in trainingYears then trainingYears
    else SortStringsDescending(trainingYears + [year])
  }

  /** Adding a new year keeps every listed year, adds that one once, and orders the list from
      the latest year down; adding a listed year changes nothing. */
  lemma AddTrainingYearSpec(trainingYears: seq<string>, year: string)
    ensures year in trainingYears ==> AddTrainingYear(trainingYears, year) == trainingYears
    ensures year !in trainingYears ==>
      var r := AddTrainingYear(trainingYears, year);
      && multiset(r) == multiset(trainingYears) + multiset{year}
      && |r| == |trainingYears| + 1
      && (forall i, j :: 0 <= i < j < |r| ==> StrLe(r[j], r[i]))
  {
    if year !in trainingYears {
      SortStringsDescendingSpec(trainingYears + [year]);
    }
  }

  /** A year accepted by the Settings tab always lengthens the list by one. */
  lemma AcceptedYearIsAdded(trainingYears: seq<string>, newYear: string)
    requires HandleAdd(trainingYears, newYear).Accepted?
    ensures var r := AddTrainingYear(trainingYears, newYear);
      |r| == |trainingYears| + 1 && newYear in r
  {
    var r := AddTrainingYear(trainingYears, newYear);
    AddTrainingYearSpec(trainingYears, newYear);
    assert newYear in multiset(r);
  }
}
