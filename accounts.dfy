/** The accounts: logging in, adding, deleting and resetting accounts, the accounts created
    when participants are imported, and the account tab's options, filters and form check. */
module Accounts {
  import opened Wrappers
  import opened Lists
  import opened Sorting
  import opened Strings
  import opened Types
  import opened Ordering

  // ---------------------------------------------------------------------------
  // Passwords and logging in
  // ---------------------------------------------------------------------------

  /** `${nom.split(' ')[0]}@${cef.replace(/\D/g, '').substring(0, 4)}`: the first word of the
      surname, '@', and at most the first four digits of the CEF. */
  function GeneratePassword(p: Participant): (pw: string)
    ensures var name := FirstToken(p.nom, ' ');
      && |name| + 1 <= |pw| <= |name| + 5
      && pw[..|name|] == name && pw[|name|] == '@'
      && AllDigits(pw[|name| + 1..])
  {
    var name := FirstToken(p.nom, ' ');
    var digits := Take(KeepDigits(p.cef), 4);
    assert (name + "@" + digits)[|name| + 1..] == digits;
    name + "@" + digits
  }

  /** A one-word `nom` and a CEF made of letters then at least four digits (such as "Dupont"
      and "P123456") give the `nom`, '@' and the first four digits ("Dupont@1234"). */
  lemma GeneratePasswordOfCef(p: Participant, letters: string, digits: string)
    requires ' ' !in p.nom
    requires p.cef == letters + digits
    requires forall i :: 0 <= i < |letters| ==> !IsDigit(letters[i])
    requires AllDigits(digits) && |digits| >= 4
    ensures GeneratePassword(p) == p.nom + "@" + digits[..4]
  {
    var name := FirstToken(p.nom, ' ');
    assert |name| == |p.nom|;
    KeepDigitsSkipsLetters(letters, digits);
    KeepDigitsOfDigits(digits);
  }

  lemma {:induction false} KeepDigitsSkipsLetters(letters: string, rest: string)
    requires forall i :: 0 <= i < |letters| ==> !IsDigit(letters[i])
    ensures KeepDigits(letters + rest) == KeepDigits(rest)
    decreases |letters|
  {
    if letters != [] {
      var whole := letters + rest;
      assert whole[0] == letters[0] && !IsDigit(whole[0]);
      assert whole[1..] == letters[1..] + rest;
      assert KeepDigits(whole) == KeepDigits(whole[1..]);
      KeepDigitsSkipsLetters(letters[1..], rest);
    } else {
      assert letters + rest == rest;
    }
  }

  /** `handleLogin`: the first account with the username and that exact password, kept
      without its password; none when there is no such account. */
  function Login(users: seq<User>, username: string, input: string): Option<User> {
    match Find(users, (u: User) => u.username == username && u.password == Some(input))
    case None => None
    case Some(u) => Some(u.(password := None))
  }

  /** Logging in succeeds exactly when some account has the username and password, and then
      gives the first of those accounts, without its password. */
  lemma LoginSpec(users: seq<User>, username: string, input: string)
    ensures Login(users, username, input).Some?
      <==> exists u :: u in users && u.username == username && u.password == Some(input)
    ensures Login(users, username, input).Some? ==>
      var who := Login(users, username, input).value;
      && who.username == username && who.password.None?
      && who.(password := Some(input)) in users
    ensures Login(users, username, input).Some? ==>
      exists i :: 0 <= i < |users| && Login(users, username, input).value == users[i].(password := None)
        && users[i].username == username && users[i].password == Some(input)
        && forall j :: 0 <= j < i ==> !(users[j].username == username && users[j].password == Some(input))
  {
    var found := Find(users, (u: User) => u.username == username && u.password == Some(input));
    if found.Some? {
      assert found.value.(password := None).(password := Some(input)) == found.value;
    }
  }

  // ---------------------------------------------------------------------------
  // Adding, deleting and resetting accounts
  // ---------------------------------------------------------------------------

  /** `Omit<User, 'id'>`: what the account form hands over. */
  datatype NewAccount = NewAccount(username: string, password: string, role: Role,
                                   participantCef: Option<string>)

  /** `handleAddUser`: the account goes last, with `user-<now>` as its id. */
  function AddUser(users: seq<User>, account: NewAccount, now: nat): (r: seq<User>)
    ensures |r| == |users| + 1 && r[..|users|] == users
    ensures r[|users|].id == "user-" + NatToString(now)
  {
    users + [User("user-" + NatToString(now), account.username, Some(account.password), account.role,
                  account.participantCef)]
  }

  /** Once added, an account can log in with its username and password. */
  lemma LoginAfterAddUser(users: seq<User>, account: NewAccount, now: nat)
    ensures Login(AddUser(users, account, now), account.username, account.password).Some?
  {
    var r := AddUser(users, account, now);
    assert r[|users|] in r;
    LoginSpec(r, account.username, account.password);
  }

  /** `handleDeleteUser`. */
  function DeleteUser(users: seq<User>, id: string): seq<User> {
    Filter(users, (u: User) => u.id != id)
  }

  /** Deleting removes every account with the id and keeps every other one. */
  lemma DeleteUserSpec(users: seq<User>, id: string, u: User)
    ensures u in DeleteUser(users, id) <==> u in users && u.id != id
  {
    FilterMembers(users, (u: User) => u.id != id, u);
  }

  /** The participant an account is linked to: the first with its CEF. */
  function LinkedParticipant(participants: seq<Participant>, u: User): Option<Participant> {
    Find(participants, (p: Participant) => u.participantCef == Some(p.cef))
  }

  /** One account under `handleResetPassword`'s `map`. */
  function ResetOne(u: User, participants: seq<Participant>, id: string): User {
    if u.id == id && Linked(u) then
      match LinkedParticipant(participants, u)
      case None => u
      case Some(p) => u.(password := Some(GeneratePassword(p)))
    else u
  }

  /** `handleResetPassword`. */
  function ResetPassword(users: seq<User>, participants: seq<Participant>, id: string): (r: seq<User>)
    ensures |r| == |users|
  {
    seq(|users|, i requires 0 <= i < |users| => ResetOne(users[i], participants, id))
  }

  /** Only the password of the accounts with the id, linked to an existing participant,
      changes, and it becomes that participant's generated password; everything else stays. */
  lemma ResetPasswordSpec(users: seq<User>, participants: seq<Participant>, id: string, i: nat)
    requires i < |users|
    ensures var u := users[i];
      var r := ResetPassword(users, participants, id)[i];
      && r.(password := u.password) == u
      && (r.password != u.password ==> u.id == id && Linked(u))
      && (u.id == id && Linked(u) && LinkedParticipant(participants, u).Some? ==>
            r.password == Some(GeneratePassword(LinkedParticipant(participants, u).value)))
      && (u.id == id && Linked(u) && (exists p :: p in participants && Some(p.cef) == u.participantCef) ==>
            LinkedParticipant(participants, u).Some?)
  {
  }

  // ---------------------------------------------------------------------------
  // Importing participants
  // ---------------------------------------------------------------------------

  /** The CEFs that some account links. */
  function LinkedCefs(users: seq<User>): set<string> {
    set u | u in users && u.participantCef.Some? :: u.participantCef.value
  }

  /** The account an imported participant gets. */
  function AccountFor(p: Participant): User {
    User("user-" + p.cef, p.cef, Some(GeneratePassword(p)), Trainee, Some(p.cef))
  }

  /** The accounts pushed for the participants of `ps`, in order: one for each whose CEF no
      account linked before the import. */
  function UsersToAdd(existing: set<string>, ps: seq<Participant>): seq<User>
    decreases |ps|
  {
    if ps == [] then []
    else
      var last := ps[|ps| - 1];
      UsersToAdd(existing, ps[..|ps| - 1]) + (if last.cef in existing then [] else [AccountFor(last)])
  }

  /** An account is pushed exactly for each imported participant whose CEF was not linked. */
  lemma {:induction false} UsersToAddMembers(existing: set<string>, ps: seq<Participant>, u: User)
    ensures u in UsersToAdd(existing, ps) <==> exists p :: p in ps && p.cef !in existing && u == AccountFor(p)
    ensures |UsersToAdd(existing, ps)| <= |ps|
    decreases |ps|
  {
    if ps != [] {
      var init, last := ps[..|ps| - 1], ps[|ps| - 1];
      UsersToAddMembers(existing, init, u);
      if u in UsersToAdd(existing, ps) && u !in UsersToAdd(existing, init) {
        MembersSnoc(ps, last);
      }
      if exists p :: p in ps && p.cef !in existing && u == AccountFor(p) {
        var p :| p in ps && p.cef !in existing && u == AccountFor(p);
        MembersSnoc(ps, p);
      }
    }
  }

  /** The `forEach` of `handleParticipantsImport` over the new participants. */
  method CollectUsersToAdd(users: seq<User>, ps: seq<Participant>) returns (toAdd: seq<User>)
    ensures toAdd == UsersToAdd(LinkedCefs(users), ps)
  {
    var existing := LinkedCefs(users);
    toAdd := [];
    var i := 0;
    while i < |ps|
      invariant 0 <= i <= |ps|
      invariant toAdd == UsersToAdd(existing, ps[..i])
    {
      PrefixSnoc(ps, i);
      var p := ps[i];
      if p.cef !in existing {
        toAdd := toAdd + [AccountFor(p)];
      }
      i := i + 1;
    }
    assert ps[..i] == ps;
  }

  /** The participants after an import: the other years' ones, then the imported ones. */
  function ImportParticipants(prev: seq<Participant>, imported: seq<Participant>, year: string)
    : seq<Participant>
  {
    Filter(prev, (p: Participant) => p.trainingYear != year) + imported
  }

  /** An import replaces the year's participants by the imported ones and keeps every other
      year's participants. */
  lemma ImportParticipantsSpec(prev: seq<Participant>, imported: seq<Participant>, year: string,
                               p: Participant)
    requires forall q :: q in imported ==> q.trainingYear == year
    ensures var r := ImportParticipants(prev, imported, year);
      && (p in r && p.trainingYear == year <==> p in imported)
      && (p.trainingYear != year ==> (p in r <==> p in prev))
  {
    FilterMembers(prev, (p: Participant) => p.trainingYear != year, p);
  }

  /** The accounts after an import: the old ones, then the pushed ones. */
  function ImportUsers(users: seq<User>, imported: seq<Participant>): seq<User> {
    users + UsersToAdd(LinkedCefs(users), imported)
  }

  /** After an import the old accounts are kept as they were, every imported participant's
      CEF is linked by some account, and an imported participant whose CEF was not linked
      before can log in with its CEF and generated password. */
  lemma ImportUsersSpec(users: seq<User>, imported: seq<Participant>, p: Participant)
    requires p in imported
    ensures var r := ImportUsers(users, imported);
      && r[..|users|] == users
      && p.cef in LinkedCefs(r)
      && (p.cef !in LinkedCefs(users) ==> Login(r, p.cef, GeneratePassword(p)).Some?)
  {
    var r := ImportUsers(users, imported);
    var added := UsersToAdd(LinkedCefs(users), imported);
    if p.cef in LinkedCefs(users) {
      var u :| u in users && u.participantCef.Some? && u.participantCef.value == p.cef;
      assert u in r;
    } else {
      UsersToAddMembers(LinkedCefs(users), imported, AccountFor(p));
      assert AccountFor(p) in r;
      LoginSpec(r, p.cef, GeneratePassword(p));
    }
  }

  // ---------------------------------------------------------------------------
  // The account tab
  // ---------------------------------------------------------------------------

  /** The `groupe` of each participant of the year, in list order. */
  function YearGroups(participants: seq<Participant>, year: string): (gs: seq<string>)
    ensures forall g :: g in gs <==> exists p :: p in participants && p.trainingYear == year && p.groupe == g
  {
    var keep := (p: Participant) => p.trainingYear == year;
    var ofYear := Filter(participants, keep);
    var gs := seq(|ofYear|, i requires 0 <= i < |ofYear| => ofYear[i].groupe);
    assert forall g :: g in gs <==> exists p :: p in participants && p.trainingYear == year && p.groupe == g by {
      forall g | g in gs ensures exists p :: p in participants && p.trainingYear == year && p.groupe == g {
        var i :| 0 <= i < |ofYear| && gs[i] == g;
        FilterMembers(participants, keep, ofYear[i]);
      }
      forall p | p in participants && p.trainingYear == year ensures p.groupe in gs {
        FilterMembers(participants, keep, p);
        var i :| 0 <= i < |ofYear| && ofYear[i] == p;
        assert gs[i] == p.groupe;
      }
    }
    gs
  }

  /** `groupOptions` (their values): 'all', then for a chosen year its groups once each, in
      order. */
  function GroupOptions(participants: seq<Participant>, yearFilter: string): seq<string> {
    if yearFilter == "all" then ["all"]
    else ["all"] + SortStrings(Distinct(YearGroups(participants, yearFilter)))
  }

  /** Besides 'all', the options are exactly the groups of the chosen year; with every year
      chosen there is no other option. */
  lemma GroupOptionsMembers(participants: seq<Participant>, yearFilter: string, g: string)
    ensures var options := GroupOptions(participants, yearFilter);
      && options != [] && options[0] == "all"
      && (g in options[1..] <==>
            (yearFilter != "all" && exists p :: p in participants && p.trainingYear == yearFilter && p.groupe == g))
  {
    if yearFilter != "all" {
      var groups := YearGroups(participants, yearFilter);
      var distinct := Distinct(groups);
      var sorted := SortStrings(distinct);
      assert GroupOptions(participants, yearFilter)[1..] == sorted;
      SortStringsSpec(distinct);
      DistinctMembers(groups, g);
      assert g in sorted <==> g in multiset(sorted);
      assert g in distinct <==> g in multiset(distinct);
    }
  }

  /** After 'all', each group is listed once, in order. */
  lemma GroupOptionsOrdered(participants: seq<Participant>, yearFilter: string)
    ensures var groups := GroupOptions(participants, yearFilter)[1..];
      forall i, j :: 0 <= i < j < |groups| ==> StrLe(groups[i], groups[j]) && groups[i] != groups[j]
  {
    if yearFilter != "all" {
      var distinct := Distinct(YearGroups(participants, yearFilter));
      var sorted := SortStrings(distinct);
      assert GroupOptions(participants, yearFilter)[1..] == sorted;
      SortStringsSpec(distinct);
      assert |sorted| == |multiset(sorted)| == |distinct|;
      SortedDistinct(distinct, sorted);
    }
  }

  /** `availableParticipants`: those whose CEF no account links. */
  function AvailableParticipants(users: seq<User>, participants: seq<Participant>): seq<Participant> {
    var linkedCefs := seq(|users|, i requires 0 <= i < |users| => users[i].participantCef);
    Filter(participants, (p: Participant) => Some(p.cef) !in linkedCefs)
  }

  /** A participant can be linked exactly when no account links its CEF; after an import no
      imported participant can be. */
  lemma AvailableParticipantsSpec(users: seq<User>, participants: seq<Participant>, p: Participant)
    ensures p in AvailableParticipants(users, participants)
      <==> p in participants && forall u :: u in users ==> u.participantCef != Some(p.cef)
  {
    var linkedCefs := seq(|users|, i requires 0 <= i < |users| => users[i].participantCef);
    FilterMembers(participants, (p: Participant) => Some(p.cef) !in linkedCefs, p);
    if Some(p.cef) in linkedCefs {
      var i :| 0 <= i < |users| && linkedCefs[i] == Some(p.cef);
      assert users[i] in users;
    }
    forall u | u in users && u.participantCef == Some(p.cef) ensures Some(p.cef) in linkedCefs {
      var i :| 0 <= i < |users| && users[i] == u;
      assert linkedCefs[i] == Some(p.cef);
    }
  }

  /** After an import, none of the imported participants is offered for linking. */
  lemma ImportLeavesNoneAvailable(users: seq<User>, imported: seq<Participant>,
                                  participants: seq<Participant>, p: Participant)
    requires p in imported
    ensures p !in AvailableParticipants(ImportUsers(users, imported), participants)
  {
    var r := ImportUsers(users, imported);
    ImportUsersSpec(users, imported, p);
    AvailableParticipantsSpec(r, participants, p);
  }

  /** Whether an account passes the account list's filters: an admin always; any other
      account only with an existing linked participant matching the name, year and group
      filters. */
  function Shown(u: User, participants: seq<Participant>, yearFilter: string, groupFilter: string,
                 nameFilter: string): bool
  {
    if u.role == Admin then true
    else
      match LinkedParticipant(participants, u)
      case None => false
      case Some(p) =>
        && (nameFilter == "" || Contains(ToLower(p.nom + " " + p.prenom), ToLower(nameFilter)))
        && (yearFilter == "all" || p.trainingYear == yearFilter)
        && (groupFilter == "all" || p.groupe == groupFilter)
  }

  /** `filteredAndSortedUsers` (the accounts themselves, without the participant attached). */
  function FilteredUsers(users: seq<User>, participants: seq<Participant>, yearFilter: string,
                         groupFilter: string, nameFilter: string): seq<User>
  {
    SortByUsername(Filter(users, (u: User) => Shown(u, participants, yearFilter, groupFilter, nameFilter)))
  }

  /** The listed accounts are exactly the accounts that pass the filters, in username order:
      every admin, and no account whose participant is missing. */
  lemma FilteredUsersSpec(users: seq<User>, participants: seq<Participant>, yearFilter: string,
                          groupFilter: string, nameFilter: string, u: User)
    ensures var listed := FilteredUsers(users, participants, yearFilter, groupFilter, nameFilter);
      && (u in listed <==> u in users && Shown(u, participants, yearFilter, groupFilter, nameFilter))
      && (u in users && u.role == Admin ==> u in listed)
      && (u.role != Admin && (forall p :: p in participants ==> u.participantCef != Some(p.cef)) ==> u !in listed)
      && forall i, j :: 0 <= i < j < |listed| ==> StrLe(listed[i].username, listed[j].username)
  {
    var keep := (u: User) => Shown(u, participants, yearFilter, groupFilter, nameFilter);
    var kept := Filter(users, keep);
    FilterMembers(users, keep, u);
    SortByUsernameSpec(kept);
    assert u in SortByUsername(kept) <==> u in multiset(SortByUsername(kept));
  }

  /** The account form's outcome. */
  datatype Submission = MissingCredentials | MissingParticipant | Submitted(account: NewAccount)

  /** `handleSubmit`: the username and password are checked first, then that a trainee
      account has a participant; the CEF is passed only for a trainee account. */
  function Submit(username: string, password: string, role: Role, participantCef: string): Submission {
    if username == "" || password == "" then MissingCredentials
    else if role == Trainee && participantCef == "" then MissingParticipant
    else Submitted(NewAccount(username, password, role, if role == Trainee then Some(participantCef) else None))
  }

  /** The form is accepted exactly when username and password are given and a trainee account
      names a participant; an accepted form carries its input, with a CEF exactly for a
      trainee. */
  lemma SubmitSpec(username: string, password: string, role: Role, participantCef: string)
    ensures var s := Submit(username, password, role, participantCef);
      && (s.Submitted? <==> username != "" && password != "" && (role == Admin || participantCef != ""))
      && (s == MissingCredentials <==> username == "" || password == "")
      && (s.Submitted? ==> s.account.username == username && s.account.password == password
                           && s.account.role == role
                           && (s.account.participantCef.Some? <==> role == Trainee)
                           && (role == Trainee ==> s.account.participantCef == Some(participantCef)))
  {
  }
}
