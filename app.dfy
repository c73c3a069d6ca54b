/** The application's state and its handlers: the collections the tabs read, and what logging in,
    managing accounts, importing, ticking absences, recording payments, saving a week, adding a
    training year and deleting one do to them. */
module App {
  import opened Wrappers
  import opened Lists
  import opened Sorting
  import opened Ordering
  import opened Types
  import opened Attendance
  import opened History
  import opened Financials
  import opened Accounts
  import opened Settings

  // ---------------------------------------------------------------------------
  // Deleting a training year, on values
  // ---------------------------------------------------------------------------

  function ParticipantNotOf(year: string): Participant -> bool {
    (p: Participant) => p.trainingYear != year
  }

  function EntryNotOf(year: string): HistoryEntry -> bool {
    (h: HistoryEntry) => h.trainingYear != year
  }

  function OtherThan(year: string): string -> bool {
    (y: string) => y != year
  }

  /** `cefsToDelete`: the CEFs of the year's participants. */
  function CefsOfYear(participants: seq<Participant>, year: string): set<string> {
    set p | p in participants && p.trainingYear == year :: p.cef
  }

  /** `!u.participantCef || !cefsToDelete.has(u.participantCef)`. */
  function KeepsUser(cefs: set<string>): User -> bool {
    (u: User) => !Linked(u) || u.participantCef.value !in cefs
  }

  /** The six collections the deletion of a training year goes through. */
  datatype Collections = Collections(participants: seq<Participant>, history: seq<HistoryEntry>,
                                     users: seq<User>, attendance: AttendanceRecord,
                                     financials: FinancialRecord, years: seq<string>)

  /** The cascade of `handleConfirmDeleteYear`: each collection filtered, the ledgers and
      financial records of the year's participants' CEFs deleted. */
  function DeleteYear(c: Collections, year: string): Collections {
    var cefs := CefsOfYear(c.participants, year);
    Collections(Filter(c.participants, ParticipantNotOf(year)), Filter(c.history, EntryNotOf(year)),
                Filter(c.users, KeepsUser(cefs)), c.attendance - cefs, c.financials - cefs,
                Filter(c.years, OtherThan(year)))
  }

  /** The account is linked to a participant of the year. */
  predicate LinksYear(u: User, participants: seq<Participant>, year: string) {
    Linked(u) && exists p :: p in participants && p.trainingYear == year && u.participantCef == Some(p.cef)
  }

  /** The `forEach` of `delete` over a copy of a dictionary. */
  method DeleteKeys<V>(m: map<string, V>, keys: set<string>) returns (r: map<string, V>)
    ensures r == m - keys
  {
    r := m;
    var todo := keys;
    while todo != {}
      invariant todo <= keys
      invariant r.Keys == m.Keys - (keys - todo)
      invariant forall k :: k in r ==> r[k] == m[k]
      decreases |todo|
    {
      var k :| k in todo;
      r := r - {k};
      todo := todo - {k};
    }
    assert r == m - keys;
  }

  /** Deleting a year removes its participants and saved weeks, every account linked to one of
      its participants, those participants' ledgers and financial records, and the year
      itself; everything else stays as it was. */
  lemma DeleteYearSpec(c: Collections, year: string)
    ensures var r := DeleteYear(c, year);
      forall p :: (p in r.participants <==> p in c.participants && p.trainingYear != year)
    ensures var r := DeleteYear(c, year);
      forall h :: (h in r.history <==> h in c.history && h.trainingYear != year)
    ensures var r := DeleteYear(c, year);
      forall u :: (u in r.users <==> u in c.users && !LinksYear(u, c.participants, year))
    ensures var r := DeleteYear(c, year);
      forall y :: (y in r.years <==> y in c.years && y != year)
    ensures var r := DeleteYear(c, year);
      forall cef :: (cef in r.attendance <==> cef in c.attendance && !CefOfYear(cef, c.participants, year))
    ensures var r := DeleteYear(c, year);
      forall cef :: (cef in r.financials <==> cef in c.financials && !CefOfYear(cef, c.participants, year))
    ensures var r := DeleteYear(c, year);
      (forall cef :: cef in r.attendance ==> r.attendance[cef] == c.attendance[cef])
      && (forall cef :: cef in r.financials ==> r.financials[cef] == c.financials[cef])
  {
    FilterAll(c.participants, ParticipantNotOf(year));
    FilterAll(c.history, EntryNotOf(year));
    FilterAll(c.years, OtherThan(year));
    var cefs := CefsOfYear(c.participants, year);
    forall u ensures (u in Filter(c.users, KeepsUser(cefs)) <==> u in c.users && !LinksYear(u, c.participants, year)) {
      FilterMembers(c.users, KeepsUser(cefs), u);
      if Linked(u) && u.participantCef.value in cefs {
        var p :| p in c.participants && p.trainingYear == year && p.cef == u.participantCef.value;
        assert u.participantCef == Some(p.cef);
      }
    }
  }

  /** Some participant of the year has the CEF. */
  predicate CefOfYear(cef: string, participants: seq<Participant>, year: string) {
    exists p :: p in participants && p.trainingYear == year && p.cef == cef
  }

  /** Deleting a year twice is deleting it once. */
  lemma DeleteYearIdempotent(c: Collections, year: string)
    ensures DeleteYear(DeleteYear(c, year), year) == DeleteYear(c, year)
  {
    var once := DeleteYear(c, year);
    FilterAll(c.participants, ParticipantNotOf(year));
    FilterAll(c.history, EntryNotOf(year));
    FilterAll(c.years, OtherThan(year));
    assert CefsOfYear(once.participants, year) == {};
    FilterKeepsAll(once.participants, ParticipantNotOf(year));
    FilterKeepsAll(once.history, EntryNotOf(year));
    FilterKeepsAll(once.years, OtherThan(year));
    FilterKeepsAll(once.users, KeepsUser({}));
    assert once.attendance - {} == once.attendance;
    assert once.financials - {} == once.financials;
  }

  /** Dropping saved weeks keeps the remaining ids unique. */
  lemma {:induction false} FilterUniqueIds(history: seq<HistoryEntry>, keep: HistoryEntry -> bool)
    requires UniqueIds(history)
    ensures UniqueIds(Filter(history, keep))
    decreases |history|
  {
    if history != [] {
      FilterUniqueIds(history[1..], keep);
      var rest := Filter(history[1..], keep);
      forall j | 0 <= j < |rest| ensures rest[j].id != history[0].id {
        FilterMembers(history[1..], keep, rest[j]);
        var k :| 0 <= k < |history[1..]| && history[1..][k] == rest[j];
        assert history[k + 1] == rest[j];
      }
    }
  }

  /** The cascade step by step: the CEFs collected, each collection filtered, and the
      ledgers and financial records of those CEFs deleted one by one. */
  method DeleteYearOf(c: Collections, year: string) returns (r: Collections)
    ensures r == DeleteYear(c, year)
  {
    var cefs := CefsToDelete(c.participants, year);
    var attendance := DeleteKeys(c.attendance, cefs);
    var financials := DeleteKeys(c.financials, cefs);
    r := Collections(Filter(c.participants, ParticipantNotOf(year)), Filter(c.history, EntryNotOf(year)),
                     Filter(c.users, KeepsUser(cefs)), attendance, financials,
                     Filter(c.years, OtherThan(year)));
  }

  /** Deleting a year keeps the history ids unique and the years listed once. */
  lemma DeleteYearValid(history: seq<HistoryEntry>, years: seq<string>, year: string)
    requires UniqueIds(history) && DistinctYears(years)
    ensures UniqueIds(Filter(history, EntryNotOf(year)))
    ensures DistinctYears(Filter(years, OtherThan(year)))
  {
    FilterUniqueIds(history, EntryNotOf(year));
    FilterDistinct(years, OtherThan(year));
  }

  /** `new Set(participantsToDelete.map(p => p.cef))`. */
  method CefsToDelete(participants: seq<Participant>, year: string) returns (cefs: set<string>)
    ensures cefs == CefsOfYear(participants, year)
  {
    var toDelete := Filter(participants, (p: Participant) => p.trainingYear == year);
    cefs := set p | p in toDelete :: p.cef;
    FilterAll(participants, (p: Participant) => p.trainingYear == year);
  }

  /** Every training year is listed once. */
  predicate DistinctYears(years: seq<string>) {
    forall i, j :: 0 <= i < j < |years| ==> years[i] != years[j]
  }

  /** Adding a year that was not listed keeps every year listed once. */
  lemma AddTrainingYearDistinct(years: seq<string>, year: string)
    requires DistinctYears(years)
    ensures DistinctYears(AddTrainingYear(years, year))
  {
    if year !in years {
      var grown := years + [year];
      forall i, j | 0 <= i < j < |grown| ensures grown[i] != grown[j] {
        if j == |years| {
          assert grown[i] == years[i];
        }
      }
      SortedDistinct(grown, AddTrainingYear(years, year));
    }
  }

  // ---------------------------------------------------------------------------
  // The application state
  // ---------------------------------------------------------------------------

  class AppState {
    var participants: seq<Participant>
    var attendance: AttendanceRecord
    var history: seq<HistoryEntry>
    var financials: FinancialRecord
    var trainingYears: seq<string>
    var users: seq<User>
    /** The logged-in account, kept without its password. */
    var currentUser: Option<User>
    /** The year the confirmation dialog asks about. */
    var yearToDelete: Option<string>

    /** History ids are unique and every training year is listed once. */
    predicate Valid()
      reads this
    {
      UniqueIds(history) && DistinctYears(trainingYears)
    }

    /** The state as loaded at start-up; the dialog is closed. */
    constructor(participants: seq<Participant>, attendance: AttendanceRecord, history: seq<HistoryEntry>,
                financials: FinancialRecord, trainingYears: seq<string>, users: seq<User>,
                currentUser: Option<User>)
      ensures this.participants == participants && this.attendance == attendance
      ensures this.history == history && this.financials == financials
      ensures this.trainingYears == trainingYears && this.users == users
      ensures this.currentUser == currentUser && yearToDelete == None
    {
      this.participants := participants;
      this.attendance := attendance;
      this.history := history;
      this.financials := financials;
      this.trainingYears := trainingYears;
      this.users := users;
      this.currentUser := currentUser;
      yearToDelete := None;
    }

    /** `handleLogin`: on a match the account, without its password, becomes the current user;
        otherwise nothing changes. */
    method HandleLogin(username: string, input: string) returns (ok: bool)
      modifies this
      ensures ok <==> exists u :: u in users && u.username == username && u.password == Some(input)
      ensures ok ==> currentUser == Login(users, username, input)
      ensures !ok ==> currentUser == old(currentUser)
      ensures participants == old(participants) && attendance == old(attendance)
      ensures history == old(history) && financials == old(financials)
      ensures trainingYears == old(trainingYears) && users == old(users)
      ensures yearToDelete == old(yearToDelete)
    {
      LoginSpec(users, username, input);
      var found := Login(users, username, input);
      if found.Some? {
        currentUser := found;
        return true;
      }
      return false;
    }

    /** `handleLogout`. */
    method HandleLogout()
      modifies this
      ensures currentUser == None
      ensures participants == old(participants) && attendance == old(attendance)
      ensures history == old(history) && financials == old(financials)
      ensures trainingYears == old(trainingYears) && users == old(users)
      ensures yearToDelete == old(yearToDelete)
    {
      currentUser := None;
    }

    /** `handleAddUser`, with `Date.now()` passed in. */
    method HandleAddUser(account: NewAccount, now: nat)
      modifies this
      ensures users == AddUser(old(users), account, now)
      ensures participants == old(participants) && attendance == old(attendance)
      ensures history == old(history) && financials == old(financials)
      ensures trainingYears == old(trainingYears) && currentUser == old(currentUser)
      ensures yearToDelete == old(yearToDelete)
    {
      users := AddUser(users, account, now);
    }

    /** `handleDeleteUser`. */
    method HandleDeleteUser(id: string)
      modifies this
      ensures users == DeleteUser(old(users), id)
      ensures participants == old(participants) && attendance == old(attendance)
      ensures history == old(history) && financials == old(financials)
      ensures trainingYears == old(trainingYears) && currentUser == old(currentUser)
      ensures yearToDelete == old(yearToDelete)
    {
      users := DeleteUser(users, id);
    }

    /** `handleResetPassword`. */
    method HandleResetPassword(id: string)
      modifies this
      ensures users == ResetPassword(old(users), participants, id)
      ensures participants == old(participants) && attendance == old(attendance)
      ensures history == old(history) && financials == old(financials)
      ensures trainingYears == old(trainingYears) && currentUser == old(currentUser)
      ensures yearToDelete == old(yearToDelete)
    {
      users := ResetPassword(users, participants, id);
    }

    /** `handleParticipantsImport`: the year's participants are replaced by the imported ones,
        and an account is pushed for each imported CEF no account linked. */
    method HandleParticipantsImport(newParticipants: seq<Participant>, year: string)
      modifies this
      ensures participants == ImportParticipants(old(participants), newParticipants, year)
      ensures users == ImportUsers(old(users), newParticipants)
      ensures attendance == old(attendance) && history == old(history) && financials == old(financials)
      ensures trainingYears == old(trainingYears) && currentUser == old(currentUser)
      ensures yearToDelete == old(yearToDelete)
      ensures old(Valid()) ==> Valid()
    {
      participants := Filter(participants, (p: Participant) => p.trainingYear != year) + newParticipants;
      var toAdd := CollectUsersToAdd(users, newParticipants);
      users := users + toAdd;
    }

    /** `handleAttendanceChange`. */
    method HandleAttendanceChange(cef: string, date: string, isAbsent: bool)
      modifies this
      ensures attendance == SetAbsence(old(attendance), cef, date, isAbsent)
      ensures participants == old(participants) && history == old(history) && financials == old(financials)
      ensures trainingYears == old(trainingYears) && users == old(users) && currentUser == old(currentUser)
      ensures yearToDelete == old(yearToDelete)
      ensures old(Valid()) ==> Valid()
    {
      attendance := SetAbsence(attendance, cef, date, isAbsent);
    }

    /** `handleFinancialsChange`. */
    method HandleFinancialsChange(cef: string, action: FinancialUpdateAction)
      modifies this
      ensures financials == ApplyFinancialUpdate(old(financials), participants, cef, action)
      ensures participants == old(participants) && attendance == old(attendance) && history == old(history)
      ensures trainingYears == old(trainingYears) && users == old(users) && currentUser == old(currentUser)
      ensures yearToDelete == old(yearToDelete)
      ensures old(Valid()) ==> Valid()
    {
      financials := ApplyFinancialUpdate(financials, participants, cef, action);
    }

    /** `handleSave`, with the save's timestamp and the week's ISO stamps passed in. */
    method HandleSave(ctx: SaveContext, now: string, stamps: seq<string>)
      modifies this
      ensures history == Saved(old(history), participants, attendance, ctx, now, stamps)
      ensures participants == old(participants) && attendance == old(attendance)
      ensures financials == old(financials) && trainingYears == old(trainingYears)
      ensures users == old(users) && currentUser == old(currentUser) && yearToDelete == old(yearToDelete)
      ensures old(Valid()) ==> Valid()
    {
      if Valid() {
        SaveAllUnique(history, GroupsToSave(participants, ctx), ctx, participants, attendance, now, stamps);
      }
      history := SaveHistory(history, participants, attendance, ctx, now, stamps);
    }

    /** `handleAddTrainingYear`. */
    method HandleAddTrainingYear(year: string)
      modifies this
      ensures trainingYears == AddTrainingYear(old(trainingYears), year)
      ensures participants == old(participants) && attendance == old(attendance) && history == old(history)
      ensures financials == old(financials) && users == old(users) && currentUser == old(currentUser)
      ensures yearToDelete == old(yearToDelete)
      ensures old(Valid()) ==> Valid()
    {
      if Valid() {
        AddTrainingYearDistinct(trainingYears, year);
      }
      if year !in trainingYears {
        trainingYears := SortStringsDescending(trainingYears + [year]);
      }
    }

    /** The Settings tab's delete button: the dialog opens on the year. */
    method RequestDeleteYear(year: string)
      modifies this
      ensures yearToDelete == Some(year)
      ensures participants == old(participants) && attendance == old(attendance) && history == old(history)
      ensures financials == old(financials) && trainingYears == old(trainingYears)
      ensures users == old(users) && currentUser == old(currentUser)
    {
      yearToDelete := Some(year);
    }

    /** `handleConfirmDeleteYear`: nothing happens without a (non-empty) year in the dialog;
        otherwise the cascade over the six collections, and the dialog closes. */
    method HandleConfirmDeleteYear()
      modifies this
      ensures old(yearToDelete).None? || old(yearToDelete).value == "" ==>
        && participants == old(participants) && attendance == old(attendance) && history == old(history)
        && financials == old(financials) && trainingYears == old(trainingYears) && users == old(users)
        && yearToDelete == old(yearToDelete)
      ensures old(yearToDelete).Some? && old(yearToDelete).value != "" ==>
        && Collections(participants, history, users, attendance, financials, trainingYears)
             == DeleteYear(Collections(old(participants), old(history), old(users), old(attendance),
                                       old(financials), old(trainingYears)), old(yearToDelete).value)
        && yearToDelete == None
      ensures currentUser == old(currentUser)
      ensures old(Valid()) ==> Valid()
    {
      if yearToDelete.None? || yearToDelete.value == "" {
        return;
      }
      var year := yearToDelete.value;
      if Valid() {
        DeleteYearValid(history, trainingYears, year);
      }
      var after := DeleteYearOf(Collections(participants, history, users, attendance, financials, trainingYears), year);
      participants := after.participants;
      history := after.history;
      users := after.users;
      attendance := after.attendance;
      financials := after.financials;
      trainingYears := after.years;
      yearToDelete := None;
    }
  }
}
