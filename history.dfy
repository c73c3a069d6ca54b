/** `handleSave` of the application: the weekly commit of the absence ledger into the history,
    one entry per group, created at the front of the list or updated where it stands. */
module History {
  import opened Wrappers
  import opened Lists
  import opened Strings
  import opened Calendar
  import opened Types

  /** What the entry tab hands to `handleSave`. */
  datatype SaveContext = SaveContext(
    trainingYear: string,
    monthValue: string,
    monthLabel: string,
    weekIndex: nat,
    weekLabel: string,
    groupValue: string,
    groupLabel: string,
    weekDates: seq<Date>)

  // ---------------------------------------------------------------------------
  // The groups to save
  // ---------------------------------------------------------------------------

  function GroupsOf(ps: seq<Participant>): (gs: seq<string>)
    ensures |gs| == |ps| && forall i :: 0 <= i < |ps| ==> gs[i] == ps[i].groupe
  {
    seq(|ps|, i requires 0 <= i < |ps| => ps[i].groupe)
  }

  function OfYear(ps: seq<Participant>, year: string): seq<Participant> {
    Filter(ps, (p: Participant) => p.trainingYear == year)
  }

  /** The selected group, or for 'all' each group of the year's participants once. */
  function GroupsToSave(participants: seq<Participant>, ctx: SaveContext): (gs: seq<string>)
    ensures forall i, j :: 0 <= i < j < |gs| ==> gs[i] != gs[j]
  {
    if ctx.groupValue == "all" then Distinct(GroupsOf(OfYear(participants, ctx.trainingYear)))
    else [ctx.groupValue]
  }

  /** A group is saved exactly when it is the selected one, or, for 'all', when some
      participant of the year belongs to it. */
  lemma GroupsToSaveMembers(participants: seq<Participant>, ctx: SaveContext, g: string)
    ensures g in GroupsToSave(participants, ctx)
      <==> if ctx.groupValue == "all"
           then exists p :: p in participants && p.trainingYear == ctx.trainingYear && p.groupe == g
           else g == ctx.groupValue
  {
    if ctx.groupValue == "all" {
      var year := OfYear(participants, ctx.trainingYear);
      DistinctMembers(GroupsOf(year), g);
      if g in GroupsOf(year) {
        var i :| 0 <= i < |year| && GroupsOf(year)[i] == g;
        FilterMembers(participants, (p: Participant) => p.trainingYear == ctx.trainingYear, year[i]);
      }
      forall p | p in participants && p.trainingYear == ctx.trainingYear && p.groupe == g
        ensures g in GroupsOf(year)
      {
        FilterMembers(participants, (p: Participant) => p.trainingYear == ctx.trainingYear, p);
        var i :| 0 <= i < |year| && year[i] == p;
        assert GroupsOf(year)[i] == g;
      }
    }
  }

  // ---------------------------------------------------------------------------
  // The snapshot of one group's week
  // ---------------------------------------------------------------------------

  /** The `yyyy-MM-dd` keys of the week's days. */
  function WeekKeys(weekDates: seq<Date>): set<string> {
    set d | d in weekDates :: FormatIso(d)
  }

  /** The participants of the year and group. */
  function Relevant(participants: seq<Participant>, year: string, group: string): seq<Participant> {
    Filter(participants, (p: Participant) => p.trainingYear == year && p.groupe == group)
  }

  /** The days among `visited` that lie in the week and are marked absent. */
  function WeekAbsences(days: DayLedger, weekKeys: set<string>, visited: set<string>): map<string, bool> {
    map k | k in visited && k in days && k in weekKeys && days[k] :: true
  }

  /** The week's absences of one ledger. */
  function WeekOf(days: DayLedger, weekKeys: set<string>): map<string, bool> {
    WeekAbsences(days, weekKeys, days.Keys)
  }

  /** The snapshot after the participants of `relevant`, in order: a participant with a
      ledger and some absence in the week gets the week's part of that ledger. */
  function Snapshot(relevant: seq<Participant>, attendance: AttendanceRecord, weekKeys: set<string>)
    : AttendanceRecord
    decreases |relevant|
  {
    if relevant == [] then map[]
    else
      var week := Snapshot(relevant[..|relevant| - 1], attendance, weekKeys);
      var cef := relevant[|relevant| - 1].cef;
      if cef in attendance && WeekOf(attendance[cef], weekKeys) != map[]
      then week[cef := WeekOf(attendance[cef], weekKeys)]
      else week
  }

  /** A CEF is in the snapshot exactly when one of the participants has it, it has a ledger,
      and the ledger has an absence in the week; its days are then exactly the ledger's absent
      days of the week. */
  lemma {:induction false} SnapshotMembers(relevant: seq<Participant>, attendance: AttendanceRecord,
                                           weekKeys: set<string>, cef: string)
    ensures var week := Snapshot(relevant, attendance, weekKeys);
      && (cef in week <==> (exists p :: p in relevant && p.cef == cef)
                           && cef in attendance && WeekOf(attendance[cef], weekKeys) != map[])
      && (cef in week ==> week[cef] == WeekOf(attendance[cef], weekKeys))
    decreases |relevant|
  {
    if relevant != [] {
      var init := relevant[..|relevant| - 1];
      SnapshotMembers(init, attendance, weekKeys, cef);
      assert relevant == init + [relevant[|relevant| - 1]];
    }
  }

  /** A day is in a participant's week exactly when it is a day of the week marked absent. */
  lemma WeekOfMembers(days: DayLedger, weekDates: seq<Date>, k: string)
    ensures k in WeekOf(days, WeekKeys(weekDates))
      <==> k in days && days[k] && exists d :: d in weekDates && FormatIso(d) == k
    ensures k in WeekOf(days, WeekKeys(weekDates)) ==> WeekOf(days, WeekKeys(weekDates))[k]
  {
  }

  /** The snapshot of a group covers the year's participants of that group with an absence in
      the week, and no one else. */
  lemma SnapshotOfGroup(participants: seq<Participant>, attendance: AttendanceRecord,
                        ctx: SaveContext, group: string, cef: string)
    ensures var week := Snapshot(Relevant(participants, ctx.trainingYear, group), attendance,
                                 WeekKeys(ctx.weekDates));
      cef in week <==> (exists p :: p in participants && p.trainingYear == ctx.trainingYear
                                    && p.groupe == group && p.cef == cef)
                       && cef in attendance && WeekOf(attendance[cef], WeekKeys(ctx.weekDates)) != map[]
  {
    var keep := (p: Participant) => p.trainingYear == ctx.trainingYear && p.groupe == group;
    var relevant := Relevant(participants, ctx.trainingYear, group);
    SnapshotMembers(relevant, attendance, WeekKeys(ctx.weekDates), cef);
    forall p ensures p in relevant <==> p in participants && keep(p) {
      FilterMembers(participants, keep, p);
    }
  }

  /** One more key of the ledger visited. */
  lemma WeekAbsencesStep(days: DayLedger, weekKeys: set<string>, todo: set<string>, k: string)
    requires todo <= days.Keys && k in todo
    ensures var before := WeekAbsences(days, weekKeys, days.Keys - todo);
      WeekAbsences(days, weekKeys, days.Keys - (todo - {k}))
        == if k in weekKeys && days[k] then before[k := true] else before
  {
    assert days.Keys - (todo - {k}) == (days.Keys - todo) + {k};
  }

  /** The `for...in` over one participant's ledger: the week's absent days, and whether
      there is any. */
  method CollectWeek(days: DayLedger, weekKeys: set<string>) returns (absences: map<string, bool>, any: bool)
    ensures absences == WeekOf(days, weekKeys)
    ensures any <==> absences != map[]
  {
    absences, any := map[], false;
    var todo := days.Keys;
    assert WeekAbsences(days, weekKeys, days.Keys - todo) == map[];
    while todo != {}
      invariant todo <= days.Keys
      invariant absences == WeekAbsences(days, weekKeys, days.Keys - todo)
      invariant any <==> absences != map[]
      decreases |todo|
    {
      var k :| k in todo;
      WeekAbsencesStep(days, weekKeys, todo, k);
      if k in weekKeys && days[k] {
        absences := absences[k := true];
        assert k in absences;
        any := true;
      }
      todo := todo - {k};
    }
    assert days.Keys - todo == days.Keys;
  }

  /** The `for...of` over the relevant participants, building the group's snapshot. */
  method BuildSnapshot(relevant: seq<Participant>, attendance: AttendanceRecord, weekKeys: set<string>)
    returns (week: AttendanceRecord)
    ensures week == Snapshot(relevant, attendance, weekKeys)
  {
    week := map[];
    var i := 0;
    while i < |relevant|
      invariant 0 <= i <= |relevant|
      invariant week == Snapshot(relevant[..i], attendance, weekKeys)
    {
      PrefixSnoc(relevant, i);
      var cef := relevant[i].cef;
      if cef in attendance {
        var absences, any := CollectWeek(attendance[cef], weekKeys);
        if any {
          week := week[cef := absences];
        }
      }
      i := i + 1;
    }
    assert relevant[..i] == relevant;
  }

  // ---------------------------------------------------------------------------
  // The upsert of one entry
  // ---------------------------------------------------------------------------

  /** `${trainingYear}-${monthValue}-${weekIndex}-${group}`. */
  function EntryId(ctx: SaveContext, group: string): string {
    ctx.trainingYear + "-" + ctx.monthValue + "-" + NatToString(ctx.weekIndex) + "-" + group
  }

  /** Within one save, two groups never share an id. */
  lemma EntryIdInjective(ctx: SaveContext, g: string, h: string)
    ensures EntryId(ctx, g) == EntryId(ctx, h) ==> g == h
  {
    var prefix := ctx.trainingYear + "-" + ctx.monthValue + "-" + NatToString(ctx.weekIndex) + "-";
    assert EntryId(ctx, g) == prefix + g && EntryId(ctx, h) == prefix + h;
    assert (prefix + g)[|prefix|..] == g;
    assert (prefix + h)[|prefix|..] == h;
  }

  /** The entry created for a group the first time it is saved. */
  function NewEntry(ctx: SaveContext, group: string, week: AttendanceRecord, now: string,
                    stamps: seq<string>): HistoryEntry
  {
    HistoryEntry(EntryId(ctx, group), now, ctx.trainingYear, ctx.monthLabel, ctx.weekLabel, group,
                 week, stamps)
  }

  /** The first entry with the id is given the new date, snapshot and week dates; with none,
      a new entry goes to the front. */
  function Upsert(history: seq<HistoryEntry>, ctx: SaveContext, group: string, week: AttendanceRecord,
                  now: string, stamps: seq<string>): seq<HistoryEntry>
  {
    var id := EntryId(ctx, group);
    match FindIndex(history, (e: HistoryEntry) => e.id == id)
    case Some(i) => history[i := history[i].(date := now, attendance := week, weekDates := stamps)]
    case None => [NewEntry(ctx, group, week, now, stamps)] + history
  }

  function Ids(history: seq<HistoryEntry>): set<string> {
    set e | e in history :: e.id
  }

  predicate UniqueIds(history: seq<HistoryEntry>) {
    forall i, j :: 0 <= i < j < |history| ==> history[i].id != history[j].id
  }

  /** An existing entry is updated where it stands: its id, year, month label, week label and
      group stay, its date, snapshot and week dates are replaced, and every other entry is
      left as it was. */
  lemma UpsertUpdatesInPlace(history: seq<HistoryEntry>, ctx: SaveContext, group: string,
                             week: AttendanceRecord, now: string, stamps: seq<string>, i: nat)
    requires i < |history| && history[i].id == EntryId(ctx, group)
    requires forall j :: 0 <= j < i ==> history[j].id != EntryId(ctx, group)
    ensures var r := Upsert(history, ctx, group, week, now, stamps);
      && |r| == |history|
      && r[i].id == history[i].id && r[i].trainingYear == history[i].trainingYear
      && r[i].month == history[i].month && r[i].weekLabel == history[i].weekLabel
      && r[i].group == history[i].group
      && r[i].date == now && r[i].attendance == week && r[i].weekDates == stamps
      && forall j :: 0 <= j < |history| && j != i ==> r[j] == history[j]
  {
    var id := EntryId(ctx, group);
    var found := FindIndex(history, (e: HistoryEntry) => e.id == id);
    assert found == Some(i);
  }

  /** With no entry of that id, the new entry is put in front of the unchanged list. */
  lemma UpsertPrepends(history: seq<HistoryEntry>, ctx: SaveContext, group: string,
                       week: AttendanceRecord, now: string, stamps: seq<string>)
    requires EntryId(ctx, group) !in Ids(history)
    ensures var r := Upsert(history, ctx, group, week, now, stamps);
      && |r| == |history| + 1
      && r[0].id == EntryId(ctx, group) && r[0].trainingYear == ctx.trainingYear
      && r[0].month == ctx.monthLabel && r[0].weekLabel == ctx.weekLabel && r[0].group == group
      && r[0].date == now && r[0].attendance == week && r[0].weekDates == stamps
      && r[1..] == history
  {
    var id := EntryId(ctx, group);
    var found := FindIndex(history, (e: HistoryEntry) => e.id == id);
    assert forall j :: 0 <= j < |history| ==> history[j] in history;
  }

  /** After an upsert the ids are the old ones and the saved one; the list grows by one
      exactly when the id is new; and entries under other ids are all still there. */
  lemma UpsertIds(history: seq<HistoryEntry>, ctx: SaveContext, group: string,
                  week: AttendanceRecord, now: string, stamps: seq<string>)
    ensures var r := Upsert(history, ctx, group, week, now, stamps);
      && Ids(r) == Ids(history) + {EntryId(ctx, group)}
      && |r| == |history| + (if EntryId(ctx, group) in Ids(history) then 0 else 1)
      && forall e :: e in history && e.id != EntryId(ctx, group) ==> e in r
  {
    var id := EntryId(ctx, group);
    var r := Upsert(history, ctx, group, week, now, stamps);
    var found := FindIndex(history, (e: HistoryEntry) => e.id == id);
    if found.Some? {
      var i := found.value;
      ReplaceSameId(history, i, history[i].(date := now, attendance := week, weekDates := stamps));
    } else {
      UpsertPrepends(history, ctx, group, week, now, stamps);
      PrependIds(history, r[0]);
      assert r == [r[0]] + history;
    }
  }

  /** Replacing an entry by one with the same id keeps the ids and every other entry. */
  lemma ReplaceSameId(history: seq<HistoryEntry>, i: nat, x: HistoryEntry)
    requires i < |history| && x.id == history[i].id
    ensures var r := history[i := x];
      && Ids(r) == Ids(history) && x.id in Ids(history)
      && (forall e :: e in history && e.id != x.id ==> e in r)
      && (UniqueIds(history) ==> UniqueIds(r))
  {
    var r := history[i := x];
    assert history[i] in history;
    forall e | e in history && e.id != x.id ensures e in r {
      var j :| 0 <= j < |history| && history[j] == e;
      assert r[j] == e;
    }
    forall y ensures y in Ids(r) <==> y in Ids(history) {
      if y in Ids(history) {
        var e :| e in history && e.id == y;
        var j :| 0 <= j < |history| && history[j] == e;
        assert r[j].id == y;
      }
      if y in Ids(r) {
        var e :| e in r && e.id == y;
        var j :| 0 <= j < |r| && r[j] == e;
        assert history[j].id == y;
      }
    }
  }

  /** Putting an entry in front adds its id; with a new id, ids stay unique. */
  lemma PrependIds(history: seq<HistoryEntry>, x: HistoryEntry)
    ensures Ids([x] + history) == Ids(history) + {x.id}
    ensures UniqueIds(history) && x.id !in Ids(history) ==> UniqueIds([x] + history)
  {
    var r := [x] + history;
    assert forall e :: e in r <==> e == x || e in history;
    if UniqueIds(history) && x.id !in Ids(history) {
      forall i, j | 0 <= i < j < |r| ensures r[i].id != r[j].id {
        assert r[j] == history[j - 1];
        if i == 0 {
          assert history[j - 1] in history;
        } else {
          assert r[i] == history[i - 1];
        }
      }
    }
  }

  /** Upserting keeps ids unique. */
  lemma UpsertUnique(history: seq<HistoryEntry>, ctx: SaveContext, group: string,
                     week: AttendanceRecord, now: string, stamps: seq<string>)
    requires UniqueIds(history)
    ensures UniqueIds(Upsert(history, ctx, group, week, now, stamps))
  {
    var id := EntryId(ctx, group);
    var r := Upsert(history, ctx, group, week, now, stamps);
    var found := FindIndex(history, (e: HistoryEntry) => e.id == id);
    if found.Some? {
      var i := found.value;
      ReplaceSameId(history, i, history[i].(date := now, attendance := week, weekDates := stamps));
    } else {
      UpsertPrepends(history, ctx, group, week, now, stamps);
      PrependIds(history, r[0]);
      assert r == [r[0]] + history;
    }
  }

  // ---------------------------------------------------------------------------
  // The save over all groups
  // ---------------------------------------------------------------------------

  /** The ids a save of these groups writes: the non-empty groups' ids. */
  function SavedIds(ctx: SaveContext, groups: seq<string>): set<string> {
    set g | g in groups && g != "" :: EntryId(ctx, g)
  }

  /** The history after the groups of `groups`, in order; an empty group is skipped. */
  function SaveAll(history: seq<HistoryEntry>, groups: seq<string>, ctx: SaveContext,
                   participants: seq<Participant>, attendance: AttendanceRecord, now: string,
                   stamps: seq<string>): seq<HistoryEntry>
    decreases |groups|
  {
    if groups == [] then history
    else
      var prev := SaveAll(history, groups[..|groups| - 1], ctx, participants, attendance, now, stamps);
      var g := groups[|groups| - 1];
      if g == "" then prev
      else
        Upsert(prev, ctx, g, Snapshot(Relevant(participants, ctx.trainingYear, g), attendance,
                                      WeekKeys(ctx.weekDates)), now, stamps)
  }

  /** `handleSave`'s new history: every group of the save upserted in turn. */
  function Saved(history: seq<HistoryEntry>, participants: seq<Participant>, attendance: AttendanceRecord,
                 ctx: SaveContext, now: string, stamps: seq<string>): seq<HistoryEntry>
  {
    SaveAll(history, GroupsToSave(participants, ctx), ctx, participants, attendance, now, stamps)
  }

  /** A save adds exactly the saved ids, keeps every entry under another id, and keeps ids
      unique; an entry is written for every group, even when its snapshot is empty. */
  lemma {:induction false} SaveAllIds(history: seq<HistoryEntry>, groups: seq<string>, ctx: SaveContext,
                                      participants: seq<Participant>, attendance: AttendanceRecord,
                                      now: string, stamps: seq<string>)
    ensures var r := SaveAll(history, groups, ctx, participants, attendance, now, stamps);
      && Ids(r) == Ids(history) + SavedIds(ctx, groups)
      && (forall e :: e in history && e.id !in SavedIds(ctx, groups) ==> e in r)
    decreases |groups|
  {
    if groups != [] {
      var init := groups[..|groups| - 1];
      var g := groups[|groups| - 1];
      var prev := SaveAll(history, init, ctx, participants, attendance, now, stamps);
      SaveAllIds(history, init, ctx, participants, attendance, now, stamps);
      SavedIdsStep(ctx, groups);
      if g != "" {
        var week := Snapshot(Relevant(participants, ctx.trainingYear, g), attendance, WeekKeys(ctx.weekDates));
        UpsertIds(prev, ctx, g, week, now, stamps);
      }
    }
  }

  /** A save keeps the ids of the history unique. */
  lemma {:induction false} SaveAllUnique(history: seq<HistoryEntry>, groups: seq<string>, ctx: SaveContext,
                                         participants: seq<Participant>, attendance: AttendanceRecord,
                                         now: string, stamps: seq<string>)
    requires UniqueIds(history)
    ensures UniqueIds(SaveAll(history, groups, ctx, participants, attendance, now, stamps))
    decreases |groups|
  {
    if groups != [] {
      var init := groups[..|groups| - 1];
      var g := groups[|groups| - 1];
      var prev := SaveAll(history, init, ctx, participants, attendance, now, stamps);
      SaveAllUnique(history, init, ctx, participants, attendance, now, stamps);
      if g != "" {
        var week := Snapshot(Relevant(participants, ctx.trainingYear, g), attendance, WeekKeys(ctx.weekDates));
        UpsertUnique(prev, ctx, g, week, now, stamps);
      }
    }
  }

  lemma SavedIdsStep(ctx: SaveContext, groups: seq<string>)
    requires groups != []
    ensures var g := groups[|groups| - 1];
      SavedIds(ctx, groups)
        == SavedIds(ctx, groups[..|groups| - 1]) + (if g == "" then {} else {EntryId(ctx, g)})
  {
    assert groups == groups[..|groups| - 1] + [groups[|groups| - 1]];
  }

  /** Saving groups whose entries all exist already leaves the length of the history as it
      is: saving the same scope a second time only updates entries. */
  lemma {:induction false} ResaveKeepsLength(history: seq<HistoryEntry>, groups: seq<string>,
                                             ctx: SaveContext, participants: seq<Participant>,
                                             attendance: AttendanceRecord, now: string,
                                             stamps: seq<string>)
    requires SavedIds(ctx, groups) <= Ids(history)
    ensures |SaveAll(history, groups, ctx, participants, attendance, now, stamps)| == |history|
    decreases |groups|
  {
    if groups != [] {
      var init := groups[..|groups| - 1];
      var g := groups[|groups| - 1];
      var prev := SaveAll(history, init, ctx, participants, attendance, now, stamps);
      SavedIdsStep(ctx, groups);
      ResaveKeepsLength(history, init, ctx, participants, attendance, now, stamps);
      SaveAllIds(history, init, ctx, participants, attendance, now, stamps);
      if g != "" {
        var week := Snapshot(Relevant(participants, ctx.trainingYear, g), attendance, WeekKeys(ctx.weekDates));
        UpsertIds(prev, ctx, g, week, now, stamps);
      }
    }
  }

  /** Saving the same scope twice, whatever the ledger and time of the second save, gives a
      history as long as after the first. */
  lemma ResaveSameScope(history: seq<HistoryEntry>, participants: seq<Participant>,
                        attendance: AttendanceRecord, attendance2: AttendanceRecord,
                        ctx: SaveContext, now: string, now2: string, stamps: seq<string>)
    ensures var once := Saved(history, participants, attendance, ctx, now, stamps);
      |Saved(once, participants, attendance2, ctx, now2, stamps)| == |once|
  {
    var groups := GroupsToSave(participants, ctx);
    SaveAllIds(history, groups, ctx, participants, attendance, now, stamps);
    var once := Saved(history, participants, attendance, ctx, now, stamps);
    ResaveKeepsLength(once, groups, ctx, participants, attendance2, now2, stamps);
  }

  lemma SaveAllStep(history: seq<HistoryEntry>, groups: seq<string>, ctx: SaveContext,
                    participants: seq<Participant>, attendance: AttendanceRecord, now: string,
                    stamps: seq<string>, i: nat)
    requires i < |groups|
    ensures var prev := SaveAll(history, groups[..i], ctx, participants, attendance, now, stamps);
      var g := groups[i];
      SaveAll(history, groups[..i + 1], ctx, participants, attendance, now, stamps)
        == if g == "" then prev
           else Upsert(prev, ctx, g, Snapshot(Relevant(participants, ctx.trainingYear, g), attendance,
                                              WeekKeys(ctx.weekDates)), now, stamps)
  {
    PrefixSnoc(groups, i);
  }

  /** `handleSave`: the `forEach` over the groups, building each group's snapshot and then
      updating its entry in place or putting a new one in front. */
  method SaveHistory(history: seq<HistoryEntry>, participants: seq<Participant>,
                     attendance: AttendanceRecord, ctx: SaveContext, now: string, stamps: seq<string>)
    returns (updated: seq<HistoryEntry>)
    ensures updated == Saved(history, participants, attendance, ctx, now, stamps)
  {
    var groups := GroupsToSave(participants, ctx);
    var weekKeys := WeekKeys(ctx.weekDates);
    updated := history;
    var i := 0;
    while i < |groups|
      invariant 0 <= i <= |groups|
      invariant updated == SaveAll(history, groups[..i], ctx, participants, attendance, now, stamps)
    {
      SaveAllStep(history, groups, ctx, participants, attendance, now, stamps, i);
      var g := groups[i];
      if g != "" {
        var id := EntryId(ctx, g);
        var week := BuildSnapshot(Relevant(participants, ctx.trainingYear, g), attendance, weekKeys);
        var existing := FindIndex(updated, (e: HistoryEntry) => e.id == id);
        if existing.Some? {
          var j := existing.value;
          updated := updated[j := updated[j].(date := now, attendance := week, weekDates := stamps)];
        } else {
          updated := [NewEntry(ctx, g, week, now, stamps)] + updated;
        }
      }
      i := i + 1;
    }
    assert groups[..i] == groups;
  }
}
