# Attendance, billing and accounts of a training centre — a Dafny model

The application keeps, for each training year ("2024-2025"), the participants of a
vocational-training centre, a ledger of absences (`cef -> yyyy-MM-dd -> absent?`), saved
weekly snapshots of that ledger (the history), each participant's payments, and the user
accounts that can log in (administrators, and trainees linked to one participant). Every
absent day costs the session hours of its weekday: 2.5 hours Monday to Friday, 5 on
Saturday, nothing on Sunday. A participant whose absent hours exceed 30 % of their annual
hours (`mhAnnuelleAffectee`) is flagged.

This project models the core of that application:

* `types.dfy`, `constants.dfy` — the records and the two constants;
* `calendar.dfy` — the proleptic Gregorian calendar, weekdays, and the `yyyy-MM-dd` keys
  of the ledger with their parser (format and parse are proved inverse);
* `date_utils.dfy` — training years, the eleven months of a training year, the Monday
  weeks of a month and their labels;
* `attendance.dfy` — absence hours of a ledger, the two absence-rate formulas of the
  attendance grid and of the statistics, and the tick of an attendance checkbox;
* `history.dfy` — saving the week of the entry screen into the history (upsert by id);
* `financials.dfy` — payment updates, the derived totals and balance, the editing of a
  cell, the table footer;
* `statistics.dfy`, `monthly.dfy` — the statistics page: filtered participants, per
  participant rates sorted worst first, overall rate, alert count, monthly bars and the
  three worst months;
* `history_tab.dfy` — the monthly summary table of the history page, its PDF rows, and the
  grouping of the history by year, month and group;
* `receipts.dfy` — the absence statement of one participant over a period;
* `accounts.dfy`, `settings.dfy`, `data_transfer.dfy` — accounts (login, passwords, the
  account list), adding a training year, and CSV import and export of participants;
* `app.dfy` — the application state as a class whose methods are the handlers that update
  it, and the cascading deletion of a training year;
* `wrappers.dfy`, `strings.dfy`, `sums.dfy`, `sorting.dfy`, `ordering.dfy`, `lists.dfy` —
  the stock pieces the rest needs (options, string functions, sums over maps and
  sequences, a stable insertion sort standing for `Array.prototype.sort`, list filters).

Hours and money are `real`. The clock (`new Date()`, `Date.now()`), `parseFloat` and
`String(number)` are parameters: the current year and month, a `now` number or time
stamp, a `parse: string -> Option<real>` function and a `show: real -> string` function.

Where the written description of the application and its code disagree, the model follows
the code:

* the generated password is built from the participant's family name (`nom`) up to its
  first space, then `@`, then the first four digits of the CEF;
* a training year has eleven months, September to July; August is never listed, so an
  absence in August counts in no monthly bar;
* the attendance grid divides by any non-zero annual hours, while the statistics divide
  only by positive ones; the two rates differ exactly when the annual hours are negative
  and some hours are missed (`Attendance.RatesDisagree`).

## Model

| member | source | states |
|---|---|---|
| Constants.HoursForWeekday | constants.ts:3-10 | 2.5 hours Monday to Friday, 5 on Saturday, 0 on Sunday and for any other number |
| Constants.WeekHours | constants.ts:3-10 | a Monday-to-Saturday week holds 17.5 session hours |
| Constants.HoursBounds | constants.ts:3-10 | a day's session hours lie between 0 and 5 |
| Attendance.OverThresholdHours | constants.ts:13 | with positive annual hours, either rate is above the 0.30 threshold iff the absent hours exceed 30 % of the annual hours |
| Attendance.HoursOfKey | components/AttendanceGrid.tsx:37-38 | an absence key costs between 0 and 5 hours |
| Attendance.HoursOfDate | components/AttendanceGrid.tsx:37-38 | the key written for a date costs the session hours of that date's weekday |
| Attendance.SumAbsenceHours | components/AttendanceGrid.tsx:32-40 | the loop over the ledger's keys returns the sum of the hours of the days marked absent |
| Attendance.AbsenceHoursNonNegative | components/AttendanceGrid.tsx:32-40 | a ledger's absence hours are never negative |
| Attendance.AbsenceHoursMark | components/AttendanceGrid.tsx:35-39 | marking an unmarked day absent adds exactly that day's hours |
| Attendance.AbsenceHoursUnmark | components/AttendanceGrid.tsx:35-39 | clearing an absent day removes exactly that day's hours |
| Attendance.GridRate | components/AttendanceGrid.tsx:42-43 | 0 for zero annual hours, otherwise the rate times the annual hours gives the absent hours |
| Attendance.CalculateAbsenceRate | components/AttendanceGrid.tsx:31-44 | the grid's rate of a participant is its absence hours over its annual hours, 0 without annual hours |
| Attendance.StatsRate | components/StatisticsTab.tsx:137-139 | 0 unless the annual hours are positive, then the absent hours over them, never negative |
| Attendance.RatesAgree | components/StatisticsTab.tsx:137-139 | for non-negative annual hours the statistics rate equals the grid rate |
| Attendance.RatesDisagree | components/AttendanceGrid.tsx:42-43 | for negative annual hours and some absent hours the two rates differ |
| Attendance.SetAbsenceReads | App.tsx:173-181 | after a change the changed (cef, day) reads the new value and every other checkbox reads as before |
| Attendance.SetAbsenceFrame | App.tsx:173-181 | a change adds at most the cef and the day as keys and keeps every other ledger and day unchanged |
| Attendance.TickAddsSessionHours | components/AttendanceGrid.tsx:84-91 | ticking an unticked day emits its yyyy-MM-dd key and raises the participant's absence hours by that weekday's session hours |
| Calendar.ParseFormatIso | components/AttendanceGrid.tsx:85 | the yyyy-MM-dd key of a date reads back as that date |
| Calendar.FormatParseIso | components/StatisticsTab.tsx:168 | a readable key is the key of the date it reads as |
| Calendar.FormatIsoInjective | App.tsx:238 | two dates have the same key only if they are the same date |
| Calendar.AddDaysWeekday | utils/dateUtils.ts:46 | n days later the weekday has moved n places round the week |
| DateUtils.CurrentTrainingYear | utils/dateUtils.ts:4-10 | from September (month index 8) on the year is "y-(y+1)", before it "(y-1)-y" |
| DateUtils.EndYearOfCurrent | utils/dateUtils.ts:13 | the second half of the current training year reads back as its start year plus one |
| DateUtils.TrainingYears | utils/dateUtils.ts:12-15 | five training years are offered |
| DateUtils.TrainingYearsSpan | utils/dateUtils.ts:12-15 | the i-th offered year starts i years before the current one |
| DateUtils.TrainingYearsDistinct | utils/dateUtils.ts:12-15 | the first offered year is the current one and the five are distinct |
| DateUtils.GetMonthsForTrainingYear | utils/dateUtils.ts:17-30 | the loop builds the eleven months of the year, or nothing for a name whose start is not a number |
| DateUtils.TrainingMonthIndex | utils/dateUtils.ts:21 | the i-th month is September + i, wrapping to January after December |
| DateUtils.TrainingMonthKey | utils/dateUtils.ts:21-25 | the i-th month's key names that month, in the start year from September and in the next year after |
| DateUtils.TrainingYearMonths | utils/dateUtils.ts:20-28 | a month key is listed iff it is not August and lies in the right half of the training year |
| DateUtils.TrainingMonthsIncreasing | utils/dateUtils.ts:20-28 | the months are listed in calendar order |
| DateUtils.TrainingMonthKeysDistinct | utils/dateUtils.ts:20-28 | no two listed months have the same key |
| DateUtils.TrainingMonthLabelsDistinct | utils/dateUtils.ts:26 | no two listed months have the same label |
| DateUtils.ParseEmptyKey | utils/dateUtils.ts:33 | the empty month key names no month |
| DateUtils.WeeksForFormattedKey | utils/dateUtils.ts:32-50 | the key of a month gives the weeks of exactly that month |
| DateUtils.WeeksOfMonthNonEmpty | utils/dateUtils.ts:38-49 | every month has at least one week |
| DateUtils.WeeksOfMonthMembers | utils/dateUtils.ts:38-49 | a week belongs to a month iff it is the six days from a Monday of that month |
| DateUtils.WeekDays | utils/dateUtils.ts:44-47 | the i-th day of a week is i days after its Monday and has weekday i + 1 |
| DateUtils.WeeksShareDay | utils/dateUtils.ts:44-47 | two weeks sharing a day start on the same Monday |
| DateUtils.MonthsShareNoWeek | utils/dateUtils.ts:40-49 | a day lies in at most one week of at most one month |
| DateUtils.MondaysDistinct | utils/dateUtils.ts:42 | a month's Mondays are listed in increasing order |
| DateUtils.FormatWeekLabel | utils/dateUtils.ts:52-56 | the label is empty exactly for an empty week |
| DateUtils.WeekLabelStart | utils/dateUtils.ts:54-56 | the label shows the first day's day of month at a fixed place |
| DateUtils.WeekLabelsDistinct | utils/dateUtils.ts:52-56 | the weeks of a month have distinct labels |
| History.GroupsToSave | App.tsx:230-236 | the groups to save are listed once each |
| History.GroupsToSaveMembers | App.tsx:230-236 | a group is saved iff it is the chosen one, or, for 'all', some participant of the year belongs to it |
| History.WeekOfMembers | App.tsx:265-273 | a participant's week snapshot holds exactly the days of the week it marked absent, all true |
| History.CollectWeek | App.tsx:265-273 | the loop collects that snapshot and reports whether it is non-empty |
| History.SnapshotMembers | App.tsx:253-277 | the week record holds exactly the relevant participants that were absent that week, with their week snapshot |
| History.SnapshotOfGroup | App.tsx:253-277 | only participants of the year and the group appear in a group's record |
| History.BuildSnapshot | App.tsx:260-277 | the loop over the relevant participants builds that record |
| History.EntryIdInjective | App.tsx:251 | within one save, different groups get different entry ids |
| History.UpsertUpdatesInPlace | App.tsx:279-289 | an existing entry is replaced at its place with the new date, record and week stamps, keeping its other fields and every other entry |
| History.UpsertPrepends | App.tsx:290-302 | a new entry is put first with the context's year, month, week label and group, the rest following unchanged |
| History.UpsertIds | App.tsx:279-302 | after an upsert the ids are the old ones plus the entry's id |
| History.UpsertUnique | App.tsx:279-302 | an upsert keeps the ids unique |
| History.SaveAllIds | App.tsx:240-305 | saving all groups adds exactly their entry ids |
| History.SaveAllUnique | App.tsx:240-305 | saving keeps the history ids unique |
| History.ResaveKeepsLength | App.tsx:279-302 | saving a week again does not lengthen the history |
| History.ResaveSameScope | App.tsx:220-306 | saving the same week twice gives a history as long as saving it once |
| History.SaveHistory | App.tsx:240-305 | the loop over the groups produces the saved history |
| Financials.UpdateTouchesOneRecord | App.tsx:213-216 | an update changes no other participant's record |
| Financials.MonthlyUpdate | App.tsx:185-200 | a positive amount sets the month, zero or less removes it, other months and the registration stay |
| Financials.InscriptionUnknownCef | App.tsx:201-203 | a registration payment for an unknown CEF changes nothing |
| Financials.InscriptionUpdate | App.tsx:201-211 | a registration payment is stored with status Payé iff it covers the fee, months untouched |
| Financials.GetParticipantFinancials | components/FinancialsTab.tsx:96-103 | a missing record reads as pending, no months, 0 paid; otherwise as stored with 0 for no payment |
| Financials.CalculateTotalPaid | components/FinancialsTab.tsx:105-108 | the loop returns registration paid plus the sum of the monthly payments |
| Financials.CalculateBalance | components/FinancialsTab.tsx:110-113 | the loop returns the sum of the monthly payments minus the training fee |
| Financials.DisplayedStatus | components/FinancialsTab.tsx:176 | the shown status is Payé iff the registration paid covers the fee |
| Financials.StoredStatusIsDisplayed | components/FinancialsTab.tsx:176 | after a registration payment the stored status is the shown one |
| Financials.MonthlyPaymentMovesBalance | components/FinancialsTab.tsx:105-113 | a positive month payment moves total paid and balance by the new amount less what the month held |
| Financials.InscriptionKeepsBalance | components/FinancialsTab.tsx:110-113 | a registration payment leaves the balance unchanged |
| Financials.NormalizeAmount | components/FinancialsTab.tsx:126-128 | commas read as points, the text is trimmed, an unreadable or negative amount becomes 0 |
| Financials.EditAction | components/FinancialsTab.tsx:125-140 | an edit sends an update iff the normalised amount differs from the cell, carrying that amount |
| Financials.MonthEditReadsBack | components/FinancialsTab.tsx:125-140 | after a month edit the cell reads the normalised amount |
| Financials.InscriptionEditReadsBack | components/FinancialsTab.tsx:125-140 | after a registration edit of a listed participant the cell reads the normalised amount |
| Financials.ListedParticipantsSpec | components/FinancialsTab.tsx:84-93 | listed are the year's participants, of the chosen group for an administrator, by family name |
| Financials.AddMonthsSpec | components/FinancialsTab.tsx:150-153 | adding a participant's months adds each month's payment, 0 when absent, and keeps other keys |
| Financials.AddMonthPayments | components/FinancialsTab.tsx:150-153 | the loop over the months computes that |
| Financials.MonthTotalsSpec | components/FinancialsTab.tsx:143-165 | each month's footer total is the sum of the listed participants' payments for it; no keys without participants |
| Financials.TableTotals | components/FinancialsTab.tsx:143-166 | the footer holds the sums over the listed participants of fees, paid registrations, month payments, total paid and balance |
| Financials.GrandTotalSplits | components/FinancialsTab.tsx:155-156 | total paid equals registrations paid plus balance plus training fees |
| Statistics.FilteredParticipantsMembers | components/StatisticsTab.tsx:117-123 | a participant is shown iff it is of the year and, for an administrator, of the chosen group and participant |
| Statistics.AllSelectorsShowYear | components/StatisticsTab.tsx:88-123 | with 'all' groups and participants the whole year is shown |
| Statistics.StatsOf | components/StatisticsTab.tsx:126-141 | one line per participant with its absence hours and statistics rate |
| Statistics.ComputeStatistics | components/StatisticsTab.tsx:125-143 | the loop computes the lines sorted by rate |
| Statistics.StatisticsSorted | components/StatisticsTab.tsx:142 | the lines are in decreasing rate |
| Statistics.StatisticsPermutation | components/StatisticsTab.tsx:126-142 | the sorted lines are a permutation of the per-participant lines |
| Statistics.StatisticsMembers | components/StatisticsTab.tsx:126-141 | a line is listed iff it is the line of a shown participant |
| Statistics.Totals | components/StatisticsTab.tsx:145-151 | the loop sums planned and absent hours over the lines |
| Statistics.TotalsOfShown | components/StatisticsTab.tsx:145-151 | these sums are the planned and absent hours of the shown participants |
| Statistics.OverallRate | components/StatisticsTab.tsx:153 | 0 without planned hours, otherwise the absent share in percent |
| Statistics.OverallRateRed | components/StatisticsTab.tsx:154 | the overall rate shows red iff absent hours exceed 30 % of positive planned hours |
| Statistics.AlertCount | components/StatisticsTab.tsx:205 | at most one alert per line |
| Statistics.AlertCountPositive | components/StatisticsTab.tsx:205 | some alert iff some line is over the threshold |
| Statistics.FirstOverThresholdIffAlert | components/StatisticsTab.tsx:205-206 | the first line is over the threshold iff the alert count is positive |
| Statistics.AlertCountOfShown | components/StatisticsTab.tsx:205 | some alert iff some shown participant's rate is over the threshold |
| Monthly.BucketOf | components/StatisticsTab.tsx:172-176 | a found month is one of the listed months |
| Monthly.InitialBars | components/StatisticsTab.tsx:157-162 | one bar per month, named by the label's first word, full label, 0 hours |
| Monthly.FindBar | components/StatisticsTab.tsx:173-177 | the search returns the bar of the absence's month, if listed |
| Monthly.AddLedgerHours | components/StatisticsTab.tsx:165-183 | one participant's absences add their hours to their month's bar |
| Monthly.MonthlyAbsenceData | components/StatisticsTab.tsx:156-186 | bar j holds the hours of the shown participants' absences dated in month j |
| Monthly.TrainingBucket | components/StatisticsTab.tsx:168-176 | a key lands in bar j iff it is a readable date of month j |
| Monthly.TrainingBucketOfDay | components/StatisticsTab.tsx:168-175 | a day counts in some bar iff it is not in August and falls in the training year |
| Monthly.TrainingBarName | components/StatisticsTab.tsx:159 | a bar's short name is the month's name |
| Monthly.TopAbsentMonths | components/StatisticsTab.tsx:188-193 | at most three months are shown |
| Monthly.RankedMonthsSpec | components/StatisticsTab.tsx:189-191 | ranked are exactly the bars with some hours, most hours first |
| Monthly.TopAbsentMonthsListed | components/StatisticsTab.tsx:188-193 | the shown months are bars with hours, most hours first |
| Monthly.TopAbsentMonthsComplete | components/StatisticsTab.tsx:188-193 | a bar with hours left out means three shown bars with at least as many hours |
| HistoryTab.MonthByLabel | components/HistoryTab.tsx:21 | finds a month with that label, none iff no month has it |
| HistoryTab.EntryForWeek | components/HistoryTab.tsx:34 | finds an entry with that week label, none iff none has it |
| HistoryTab.WeeklyHours | components/HistoryTab.tsx:32-49 | one hours figure per week of the month |
| HistoryTab.WeekLabels | components/HistoryTab.tsx:57 | one label per week, the week's label |
| HistoryTab.MonthOfYearHasWeeks | components/HistoryTab.tsx:24-25 | a month of a training year always has weeks |
| HistoryTab.WeeksOfLabel | components/HistoryTab.tsx:21-25 | a label of the year gives the weeks of its month |
| HistoryTab.StatRows | components/HistoryTab.tsx:31-54 | one row per group member, in order |
| HistoryTab.WeekAbsenceHours | components/HistoryTab.tsx:33-48 | the loop returns the participant's absence hours in the entry of that week, 0 without entry |
| HistoryTab.ParticipantStat | components/HistoryTab.tsx:31-53 | the loop builds the participant's row |
| HistoryTab.StatLines | components/HistoryTab.tsx:31-54 | the loop builds the rows of all members |
| HistoryTab.ComputeSummary | components/HistoryTab.tsx:19-60 | the method computes the summary of a month and a group |
| HistoryTab.SummarySpec | components/HistoryTab.tsx:19-60 | an unknown month gives an empty summary; a known one its week labels and one row per group member |
| HistoryTab.StatRowSpec | components/HistoryTab.tsx:31-53 | a row carries the participant's identity, one non-negative figure per week and their sum as total |
| HistoryTab.WeekHoursNonNegative | components/HistoryTab.tsx:36-48 | a week's hours are never negative |
| HistoryTab.GroupMembersSpec | components/HistoryTab.tsx:27-29 | the members are the year's participants of the group, by family name |
| HistoryTab.PdfLines | components/HistoryTab.tsx:116-140 | one PDF row per member |
| HistoryTab.PdfMatchesScreen | components/HistoryTab.tsx:108-140 | the PDF exists iff the month is known and its rows carry the screen's names and figures |
| HistoryTab.GroupHistory | components/HistoryTab.tsx:188-198 | the loop groups the history, newest first |
| HistoryTab.PushEntry | components/HistoryTab.tsx:190-196 | one step adds an entry at the end of its year, month and group, creating missing levels |
| HistoryTab.PushLookup | components/HistoryTab.tsx:195 | after a push the entry's list gains it at the end and other lists are unchanged |
| HistoryTab.PushKeys | components/HistoryTab.tsx:192-194 | a push adds exactly the entry's year, month and group as keys |
| HistoryTab.GroupAllLookup | components/HistoryTab.tsx:190-197 | a list holds exactly the entries of its year, month and group, in order |
| HistoryTab.GroupAllKeys | components/HistoryTab.tsx:190-197 | a key exists iff some entry has it |
| HistoryTab.GroupedHistorySpec | components/HistoryTab.tsx:188-198 | each entry is in its own list as often as in the history, in no other list, lists newest first |
| HistoryTab.SortedYearsSpec | components/HistoryTab.tsx:209 | the years shown are the years of the history, latest first, once each |
| HistoryTab.SortedGroupsSpec | components/HistoryTab.tsx:253 | the groups shown under a month are its groups, in order, once each |
| Receipts.Selected | components/ReceiptsTab.tsx:55 | the first participant with that CEF, over all years; none iff none has it |
| Receipts.ReceiptData | components/ReceiptsTab.tsx:57-86 | no statement iff no participant is selected or either date is unreadable |
| Receipts.ListAbsencesDistinct | components/ReceiptsTab.tsx:68-73 | a statement lists each day once |
| Receipts.PeriodAbsences | components/ReceiptsTab.tsx:66-74 | listed are exactly the absent days in the period, with their session hours, by date |
| Receipts.PeriodComplete | components/ReceiptsTab.tsx:68-69 | every absent day within the period, bounds included in either order, is listed |
| Receipts.PeriodOnly | components/ReceiptsTab.tsx:68-73 | only absent days within the period are listed, each with its weekday's hours |
| Receipts.PeriodOrdered | components/ReceiptsTab.tsx:74 | the listed days increase strictly |
| Receipts.PeriodTotal | components/ReceiptsTab.tsx:76 | the total is the sum of the hours of the absent days in the period |
| Receipts.PeriodCoveringLedger | components/ReceiptsTab.tsx:66-76 | a period covering every absence totals the participant's absence hours of the statistics |
| Receipts.ReceiptDataSpec | components/ReceiptsTab.tsx:55-86 | a statement is for the first participant with the selected CEF and its year, complete, exact, ordered, with the right total |
| Accounts.GeneratePassword | App.tsx:136 | the password is the family name to its first space, '@', and the first four digits of the CEF |
| Accounts.GeneratePasswordOfCef | App.tsx:160 | for a CEF of letters then digits the password is name@ and its first four digits |
| Accounts.LoginSpec | App.tsx:102-105 | login succeeds iff some account has that name and password, and yields the first such account without password |
| Accounts.AddUser | App.tsx:122-125 | one account is appended, with id user-<now>, the others kept |
| Accounts.LoginAfterAddUser | App.tsx:122-125 | the new account can log in |
| Accounts.DeleteUserSpec | App.tsx:127-129 | an account is kept iff its id differs |
| Accounts.ResetPassword | App.tsx:131-142 | as many accounts as before |
| Accounts.ResetPasswordSpec | App.tsx:131-142 | only the password of the chosen linked account changes, to its participant's generated password |
| Accounts.ImportParticipantsSpec | App.tsx:145-149 | the year's participants are replaced by the imported ones, others kept |
| Accounts.UsersToAddMembers | App.tsx:152-165 | an account is added iff it is the account of an imported participant whose CEF had none |
| Accounts.CollectUsersToAdd | App.tsx:152-165 | the loop collects those accounts |
| Accounts.ImportUsersSpec | App.tsx:151-168 | old accounts kept, every imported CEF linked, a new trainee can log in with its CEF and generated password |
| Accounts.YearGroups | components/AccountsTab.tsx:39 | the groups of the year's participants |
| Accounts.GroupOptionsMembers | components/AccountsTab.tsx:37-41 | 'all' first, then exactly the groups of the chosen year |
| Accounts.GroupOptionsOrdered | components/AccountsTab.tsx:40 | the groups are listed once each, in order |
| Accounts.AvailableParticipantsSpec | components/AccountsTab.tsx:43-46 | offered are the participants no account is linked to |
| Accounts.ImportLeavesNoneAvailable | components/AccountsTab.tsx:43-46 | after an import no imported participant is offered |
| Accounts.FilteredUsersSpec | components/AccountsTab.tsx:48-66 | listed are the accounts passing the filters, administrators always, unlinked trainees never, by user name |
| Strings.LowerFrenchCapitals | components/AccountsTab.tsx:59 | the case folding of the name filter maps É, È, À, Ç, Œ and Ÿ to their small letters and keeps × and small letters |
| Accounts.SubmitSpec | components/AccountsTab.tsx:68-84 | the form is refused without name or password, or for a trainee without participant; otherwise it carries its input |
| Settings.HandleAdd | components/SettingsTab.tsx:15-27 | format error iff not dddd-dddd, duplicate iff listed, otherwise the year is accepted |
| Settings.YearFormatOfDigits | components/SettingsTab.tsx:16 | two four-digit runs around '-' have the required format |
| Settings.YearFormatLength | components/SettingsTab.tsx:16 | a well-formed year is nine characters, digits around a '-' |
| Settings.AddTrainingYearSpec | App.tsx:308-312 | a listed year changes nothing; a new one is added once and the list sorted latest first |
| Settings.AcceptedYearIsAdded | components/SettingsTab.tsx:20-25 | an accepted year lengthens the list by one and is in it |
| Ordering.SortByNomSpec | components/HistoryTab.tsx:29 | sorting by family name is a permutation in name order |
| Ordering.SortByUsernameSpec | components/AccountsTab.tsx:65 | sorting by user name is a permutation in name order |
| Ordering.SortStringsSpec | components/AccountsTab.tsx:40 | sorting strings is a permutation in order |
| Ordering.SortStringsDescendingSpec | App.tsx:310 | sorting latest first is a permutation in reverse order |
| DataTransfer.NonBlankRows | components/DataTab.tsx:42 | the rows are the lines that are not blank |
| DataTransfer.NoRowsIff | components/DataTab.tsx:42 | no rows iff every line is blank |
| DataTransfer.CleanCell | components/DataTab.tsx:55 | a cleaned cell holds no quote |
| DataTransfer.CleanCells | components/DataTab.tsx:43 | one cleaned cell per comma-separated piece |
| DataTransfer.NumberOrZero | components/DataTab.tsx:57 | a readable number is kept, a missing or unreadable one is 0 |
| DataTransfer.RowRecord | components/DataTab.tsx:51-63 | a row's record has the header's columns and the chosen year |
| DataTransfer.RowRecordFields | components/DataTab.tsx:54-61 | each column holds its cleaned cell, read as a number for the three numeric columns |
| DataTransfer.MapRow | components/DataTab.tsx:51-63 | the method maps one row to its record |
| DataTransfer.AssignColumns | components/DataTab.tsx:54-61 | the loop over the header assigns each column, a later duplicate winning |
| DataTransfer.ImportRecords | components/DataTab.tsx:51-63 | one record per data row |
| DataTransfer.ImportTextSpec | components/DataTab.tsx:39-70 | unreadable iff all lines blank, refused iff a header is missing, otherwise one complete record per data row in the chosen year |
| DataTransfer.ImportedParticipants | components/DataTab.tsx:39-65 | participants iff the import is accepted, one per data row, all of the chosen year |
| DataTransfer.ExportCsvSpec | components/DataTab.tsx:78-89 | nothing is exported iff no participant is of the selected year; otherwise the text opens with the header line |
| DataTransfer.QuoteAll | components/DataTab.tsx:88 | each value becomes one quoted cell |
| Strings.QuoteRoundTrip | components/DataTab.tsx:88 | a quoted cell, read as CSV, gives back its value |
| DataTransfer.ExportLines | components/DataTab.tsx:87-89 | a header line and one line per exported participant |
| DataTransfer.HeaderRoundTrip | components/DataTab.tsx:87 | the exported header reads back as the expected headers |
| DataTransfer.RowRoundTrip | components/DataTab.tsx:88 | an exported row reads back as the participant |
| DataTransfer.ExportImportRoundTrip | components/DataTab.tsx:78-89 | importing the export of a year gives back its participants |
| App.DeleteKeys | App.tsx:326-340 | the loop removes exactly the given keys from a map |
| App.CefsToDelete | App.tsx:318-319 | the CEFs are those of the year's participants |
| App.DeleteYearSpec | App.tsx:314-342 | the year's participants, history, linked accounts, ledgers, payments and the year itself go; all else stays unchanged |
| App.DeleteYearOf | App.tsx:317-342 | the method computes that deletion |
| App.DeleteYearIdempotent | App.tsx:314-342 | deleting a year twice is deleting it once |
| App.DeleteYearValid | App.tsx:322-342 | deletion keeps history ids unique and years distinct |
| App.AddTrainingYearDistinct | App.tsx:308-312 | adding a year keeps the years distinct |
| App.AppState.constructor | App.tsx:27-74 | the state holds what was loaded, with no deletion pending |
| App.AppState.HandleLogin | App.tsx:102-113 | succeeds iff an account matches; then it is the current user without password; nothing else changes |
| App.AppState.HandleLogout | App.tsx:115-119 | no current user; nothing else changes |
| App.AppState.HandleAddUser | App.tsx:122-125 | the accounts gain the new one; nothing else changes |
| App.AppState.HandleDeleteUser | App.tsx:127-129 | the account is removed; nothing else changes |
| App.AppState.HandleResetPassword | App.tsx:131-142 | the linked account's password is regenerated; nothing else changes |
| App.AppState.HandleParticipantsImport | App.tsx:145-171 | participants and accounts as imported; the invariant is kept |
| App.AppState.HandleAttendanceChange | App.tsx:173-181 | the ledger reads the new value; the invariant is kept |
| App.AppState.HandleFinancialsChange | App.tsx:183-218 | the payments are updated; the invariant is kept |
| App.AppState.HandleSave | App.tsx:220-306 | the history is the saved one; ids stay unique |
| App.AppState.HandleAddTrainingYear | App.tsx:308-312 | the year list is updated and stays distinct |
| App.AppState.RequestDeleteYear | App.tsx:381 | the dialog asks about the year; nothing else changes |
| App.AppState.HandleConfirmDeleteYear | App.tsx:314-346 | without a year nothing changes; otherwise the year is deleted in cascade and the dialog closed |

## Left out
- Accounts.FilteredUsersSpec: the name filter folds case only for the capitals of Basic Latin, Latin-1 and Latin Extended-A; `toLowerCase` also folds İ (to two characters) and the capitals of other scripts (Greek, Cyrillic, …), which the model keeps as they are, so such names only match a filter in the same case.
- DataTransfer.ImportedParticipants: a row shorter than the header gives "" for its missing text cells, where the source keeps `undefined`. Two consequences differ: a row without a CEF cell makes the model create a trainee account with id `user-` and user name "", where the source creates none (the administrator account has no `participantCef`, so `undefined` is already among the linked CEFs); a row without a surname cell makes the model build a password starting with `@`, where the source stops with an exception at App.tsx:160 (`split` on `undefined`).
- HistoryTab.NewerFirst: entries are ordered by comparing their `date` texts, where the source compares `new Date(date).getTime()`; the two agree for the `toISOString` stamps the application writes (fixed width, UTC), not for arbitrary date texts.
- Sorting.SortBy: proved sorted and a permutation of its input; that equal elements keep their input order (the stability of `Array.prototype.sort`) holds by construction of the insertion but is not stated as a lemma.
- The React components' rendering, tabs, modals, the Login, ConfirmationModal, Button and Select components, charts, and the PDF and CSV documents and download links: presentation only.
- Loading from and saving to localStorage and sessionStorage: storage I/O; the constructor takes the loaded state.
- The clock (`new Date()`, `Date.now()`, `toISOString()`): the current year and month, the `now` number and the time stamps are parameters.
- `parseFloat` and `String(number)`: parameters; hours and money are exact reals, so floating-point rounding is not modelled.
- `localeCompare`: modelled as plain lexicographic order on characters.
- Time zones: a `yyyy-MM-dd` key is read as a calendar date and its weekday computed from it; the shift of `new Date("yyyy-MM-dd")` (UTC) read back with the local `getDay` is not modelled.
- Keys with a year outside 0000-9999 or in another shape than `yyyy-MM-dd`: they read as no date and cost 0 hours, where a JavaScript `Date` might still accept them.
- `isWithinInterval` is taken with both bounds included and the bounds in either order.
- EntryTab, mock data and the `FileReader` plumbing: not part of this model.
- DataTransfer.ExportLines: the header is the fixed column list, not `Object.keys` of the first participant; the two agree for records built in the column order.
- DataTransfer.ExportImportRoundTrip: holds only for values without a quote, comma or line break, whose numbers read back as themselves, because the import removes every quote and splits on every comma.
- History.SaveHistory: a group value that is not a non-empty string is skipped by the source; in the model group values are strings, so only the empty one is skipped.
- App.AppState.HandleSave: the week stamps of the saved entries are a parameter, not computed from the week's dates.
- App.AppState.HandleLogin: the active tab chosen after login is not modelled.
- App.AppState.Valid: an invariant of the model (unique history ids, distinct years), kept by every handler that touches those fields; the source does not state it.
