/** The payments of the participants: `handleFinancialsChange` of the application, and the
    financial tab's defaults, totals, balance, edit rule and footer totals. */
module Financials {
  import opened Wrappers
  import opened Lists
  import opened Sums
  import opened Sorting
  import opened Strings
  import opened Types
  import opened Ordering

  // ---------------------------------------------------------------------------
  // handleFinancialsChange
  // ---------------------------------------------------------------------------

  /** The record a participant without one starts from. */
  function DefaultRecord(): ParticipantFinancials {
    ParticipantFinancials(Pending, map[], Some(0.0))
  }

  function RecordOf(financials: FinancialRecord, cef: string): ParticipantFinancials {
    if cef in financials then financials[cef] else DefaultRecord()
  }

  /** A monthly change sets the month's payment when positive and deletes it otherwise; a
      registration change stores the amount and the status it earns against the fee of the
      first participant with the CEF, and changes nothing when there is none. */
  function ApplyFinancialUpdate(financials: FinancialRecord, participants: seq<Participant>,
                                cef: string, action: FinancialUpdateAction): FinancialRecord
  {
    var existing := RecordOf(financials, cef);
    match action
    case Monthly(month, amount) =>
      var payments := if amount > 0.0 then existing.monthlyPayments[month := amount]
                      else existing.monthlyPayments - {month};
      financials[cef := existing.(monthlyPayments := payments)]
    case Inscription(amount) =>
      match Find(participants, (p: Participant) => p.cef == cef)
      case None => financials
      case Some(p) =>
        financials[cef := existing.(inscriptionPayment := Some(amount),
                                    inscriptionStatus := if amount >= p.fraisInscription then Paid else Pending)]
  }

  /** Every other participant's record is left as it was. */
  lemma UpdateTouchesOneRecord(financials: FinancialRecord, participants: seq<Participant>,
                               cef: string, action: FinancialUpdateAction, other: string)
    requires other != cef
    ensures var r := ApplyFinancialUpdate(financials, participants, cef, action);
      (other in r <==> other in financials) && (other in r ==> r[other] == financials[other])
  {
  }

  /** A monthly change: a positive amount is the month's payment afterwards, any other amount
      leaves the month unpaid; the other months, the registration payment and the status of
      the record (the default one when there was none) stay. */
  lemma MonthlyUpdate(financials: FinancialRecord, participants: seq<Participant>, cef: string,
                      month: string, amount: real)
    ensures var r := ApplyFinancialUpdate(financials, participants, cef, Monthly(month, amount));
      var before := RecordOf(financials, cef);
      && cef in r
      && (amount > 0.0 ==> month in r[cef].monthlyPayments && r[cef].monthlyPayments[month] == amount)
      && (amount <= 0.0 ==> month !in r[cef].monthlyPayments)
      && (forall m :: m != month ==>
            (m in r[cef].monthlyPayments <==> m in before.monthlyPayments)
            && (m in before.monthlyPayments ==> r[cef].monthlyPayments[m] == before.monthlyPayments[m]))
      && r[cef].inscriptionPayment == before.inscriptionPayment
      && r[cef].inscriptionStatus == before.inscriptionStatus
  {
  }

  /** A registration change for a CEF no participant has changes nothing. */
  lemma InscriptionUnknownCef(financials: FinancialRecord, participants: seq<Participant>,
                              cef: string, amount: real)
    requires forall p :: p in participants ==> p.cef != cef
    ensures ApplyFinancialUpdate(financials, participants, cef, Inscription(amount)) == financials
  {
  }

  /** A registration change for a known CEF stores the amount, marks it paid exactly when it
      covers the fee, and keeps the monthly payments. */
  lemma InscriptionUpdate(financials: FinancialRecord, participants: seq<Participant>,
                          cef: string, amount: real, i: nat)
    requires i < |participants| && participants[i].cef == cef
    requires forall j :: 0 <= j < i ==> participants[j].cef != cef
    ensures var r := ApplyFinancialUpdate(financials, participants, cef, Inscription(amount));
      && cef in r
      && r[cef].inscriptionPayment == Some(amount)
      && (r[cef].inscriptionStatus == Paid <==> amount >= participants[i].fraisInscription)
      && r[cef].monthlyPayments == RecordOf(financials, cef).monthlyPayments
  {
    var found := FindIndex(participants, (p: Participant) => p.cef == cef);
    assert found == Some(i);
  }

  // ---------------------------------------------------------------------------
  // The financial tab's view of a record
  // ---------------------------------------------------------------------------

  /** `Required<ParticipantFinancials>`: a record with every field filled in. */
  datatype Filled = Filled(inscriptionStatus: InscriptionStatus, monthlyPayments: map<string, real>,
                           inscriptionPayment: real)

  /** `getParticipantFinancials`: a missing record reads as pending, no payment, nothing paid
      at registration; a record without a registration payment reads as 0 paid. */
  function GetParticipantFinancials(financials: FinancialRecord, cef: string): (r: Filled)
    ensures cef !in financials ==> r == Filled(Pending, map[], 0.0)
    ensures cef in financials ==>
      && r.inscriptionStatus == financials[cef].inscriptionStatus
      && r.monthlyPayments == financials[cef].monthlyPayments
      && r.inscriptionPayment == financials[cef].inscriptionPayment.GetOr(0.0)
  {
    if cef !in financials then Filled(Pending, map[], 0.0)
    else
      var f := financials[cef];
      Filled(f.inscriptionStatus, f.monthlyPayments, f.inscriptionPayment.GetOr(0.0))
  }

  /** What the monthly payments add up to. */
  ghost function MonthlyTotal(f: Filled): real {
    SumValues(f.monthlyPayments)
  }

  /** `calculateTotalPaid`: the registration payment and every monthly payment. */
  ghost function TotalPaid(f: Filled): real {
    f.inscriptionPayment + MonthlyTotal(f)
  }

  /** `calculateBalance`: the monthly payments less the training fee; the registration
      payment does not count. */
  ghost function Balance(p: Participant, f: Filled): real {
    MonthlyTotal(f) - p.fraisFormation
  }

  method CalculateTotalPaid(p: Participant, f: Filled) returns (total: real)
    ensures total == TotalPaid(f)
  {
    var monthly := SumOfValues(f.monthlyPayments);
    total := f.inscriptionPayment + monthly;
  }

  method CalculateBalance(p: Participant, f: Filled) returns (balance: real)
    ensures balance == Balance(p, f)
  {
    var monthly := SumOfValues(f.monthlyPayments);
    balance := monthly - p.fraisFormation;
  }

  /** The status shown: paid exactly when the registration payment covers the fee. */
  function DisplayedStatus(p: Participant, f: Filled): (s: InscriptionStatus)
    ensures s == Paid <==> f.inscriptionPayment >= p.fraisInscription
  {
    if f.inscriptionPayment >= p.fraisInscription then Paid else Pending
  }

  /** After a registration change, the stored status is the one the tab would show. */
  lemma StoredStatusIsDisplayed(financials: FinancialRecord, participants: seq<Participant>,
                                cef: string, amount: real, i: nat)
    requires i < |participants| && participants[i].cef == cef
    requires forall j :: 0 <= j < i ==> participants[j].cef != cef
    ensures var r := ApplyFinancialUpdate(financials, participants, cef, Inscription(amount));
      var f := GetParticipantFinancials(r, cef);
      f.inscriptionStatus == DisplayedStatus(participants[i], f)
  {
    InscriptionUpdate(financials, participants, cef, amount, i);
  }

  /** A positive monthly payment moves the balance and the total paid by the difference with
      what the month held before. */
  lemma MonthlyPaymentMovesBalance(financials: FinancialRecord, participants: seq<Participant>,
                                   cef: string, month: string, amount: real, p: Participant)
    requires amount > 0.0
    ensures var before := GetParticipantFinancials(financials, cef);
      var after := GetParticipantFinancials(ApplyFinancialUpdate(financials, participants, cef, Monthly(month, amount)), cef);
      var held := if month in before.monthlyPayments then before.monthlyPayments[month] else 0.0;
      && Balance(p, after) == Balance(p, before) - held + amount
      && TotalPaid(after) == TotalPaid(before) - held + amount
  {
    var before := GetParticipantFinancials(financials, cef);
    var after := GetParticipantFinancials(ApplyFinancialUpdate(financials, participants, cef, Monthly(month, amount)), cef);
    MonthlyUpdate(financials, participants, cef, month, amount);
    var rest := before.monthlyPayments - {month};
    assert after.monthlyPayments == rest[month := amount];
    SumValuesInsert(rest, month, amount);
    if month in before.monthlyPayments {
      SumValuesRemove(before.monthlyPayments, month);
    } else {
      assert rest == before.monthlyPayments;
    }
  }

  /** A registration change leaves the balance as it was. */
  lemma InscriptionKeepsBalance(financials: FinancialRecord, participants: seq<Participant>,
                                cef: string, amount: real, p: Participant)
    ensures var after := ApplyFinancialUpdate(financials, participants, cef, Inscription(amount));
      Balance(p, GetParticipantFinancials(after, cef)) == Balance(p, GetParticipantFinancials(financials, cef))
  {
  }

  // ---------------------------------------------------------------------------
  // Editing a cell
  // ---------------------------------------------------------------------------

  /** The cell being edited: the registration payment, shown with its current value, or a
      month's payment. */
  datatype Cell = InscriptionCell(current: real) | MonthCell(month: string)

  /** The typed text with commas made dots, trimmed and parsed; no number or a negative one
      is 0. `parse` stands for `parseFloat`, `None` for NaN. */
  function NormalizeAmount(raw: string, parse: string -> Option<real>): (a: real)
    ensures a >= 0.0
    ensures var v := parse(Trim(ReplaceChar(raw, ',', '.')));
      a == if v.Some? && v.value >= 0.0 then v.value else 0.0
  {
    var v := parse(Trim(ReplaceChar(raw, ',', '.')));
    if v.None? || v.value < 0.0 then 0.0 else v.value
  }

  /** The value the cell held: the given one, or the month's payment, 0 when missing. */
  function CellValue(f: Filled, cell: Cell): real {
    match cell
    case InscriptionCell(current) => current
    case MonthCell(month) => if month in f.monthlyPayments then f.monthlyPayments[month] else 0.0
  }

  /** The change the tab's `handleSave` dispatches, if any: only when the new amount differs
      from the cell's value. */
  function EditAction(f: Filled, cell: Cell, raw: string, parse: string -> Option<real>)
    : (r: Option<FinancialUpdateAction>)
    ensures r.Some? <==> NormalizeAmount(raw, parse) != CellValue(f, cell)
    ensures r.Some? ==> r.value.amount == NormalizeAmount(raw, parse)
  {
    var amount := NormalizeAmount(raw, parse);
    if amount == CellValue(f, cell) then None
    else
      match cell
      case InscriptionCell(_) => Some(Inscription(amount))
      case MonthCell(month) => Some(Monthly(month, amount))
  }

  function ApplyEdit(financials: FinancialRecord, participants: seq<Participant>, cef: string,
                     action: Option<FinancialUpdateAction>): FinancialRecord
  {
    if action.None? then financials else ApplyFinancialUpdate(financials, participants, cef, action.value)
  }

  /** Editing a month's cell and saving leaves the cell showing the normalised amount. */
  lemma MonthEditReadsBack(financials: FinancialRecord, participants: seq<Participant>, cef: string,
                           month: string, raw: string, parse: string -> Option<real>)
    ensures var f := GetParticipantFinancials(financials, cef);
      var after := ApplyEdit(financials, participants, cef, EditAction(f, MonthCell(month), raw, parse));
      CellValue(GetParticipantFinancials(after, cef), MonthCell(month)) == NormalizeAmount(raw, parse)
  {
    var amount := NormalizeAmount(raw, parse);
    var f := GetParticipantFinancials(financials, cef);
    if amount != CellValue(f, MonthCell(month)) {
      MonthlyUpdate(financials, participants, cef, month, amount);
    }
  }

  /** Editing the registration cell of a participant, shown with its stored value, leaves it
      showing the normalised amount. */
  lemma InscriptionEditReadsBack(financials: FinancialRecord, participants: seq<Participant>,
                                 cef: string, raw: string, parse: string -> Option<real>, i: nat)
    requires i < |participants| && participants[i].cef == cef
    requires forall j :: 0 <= j < i ==> participants[j].cef != cef
    ensures var f := GetParticipantFinancials(financials, cef);
      var cell := InscriptionCell(f.inscriptionPayment);
      var after := ApplyEdit(financials, participants, cef, EditAction(f, cell, raw, parse));
      GetParticipantFinancials(after, cef).inscriptionPayment == NormalizeAmount(raw, parse)
  {
    var amount := NormalizeAmount(raw, parse);
    var f := GetParticipantFinancials(financials, cef);
    if amount != f.inscriptionPayment {
      InscriptionUpdate(financials, participants, cef, amount, i);
    }
  }

  // ---------------------------------------------------------------------------
  // The listed participants and the footer totals
  // ---------------------------------------------------------------------------

  /** The year's participants; for an admin also filtered by group unless 'all', and sorted
      by `nom`. */
  function ListedParticipants(ps: seq<Participant>, year: string, isAdmin: bool, group: string)
    : seq<Participant>
  {
    var ofYear := Filter(ps, (p: Participant) => p.trainingYear == year);
    if !isAdmin then ofYear
    else SortByNom(Filter(ofYear, (p: Participant) => group == "all" || p.groupe == group))
  }

  /** A participant is listed exactly when of the year and, for an admin, of the group
      chosen; an admin's list is in `nom` order. */
  lemma ListedParticipantsSpec(ps: seq<Participant>, year: string, isAdmin: bool, group: string,
                               x: Participant)
    ensures var listed := ListedParticipants(ps, year, isAdmin, group);
      x in listed <==> x in ps && x.trainingYear == year && (!isAdmin || group == "all" || x.groupe == group)
    ensures isAdmin ==> var listed := ListedParticipants(ps, year, isAdmin, group);
      forall i, j :: 0 <= i < j < |listed| ==> StrLe(listed[i].nom, listed[j].nom)
  {
    var byYear := (p: Participant) => p.trainingYear == year;
    var byGroup := (p: Participant) => group == "all" || p.groupe == group;
    var ofYear := Filter(ps, byYear);
    FilterMembers(ps, byYear, x);
    if isAdmin {
      var chosen := Filter(ofYear, byGroup);
      FilterMembers(ofYear, byGroup, x);
      SortByNomSpec(chosen);
      assert x in SortByNom(chosen) <==> x in multiset(SortByNom(chosen));
    }
  }

  /** The payment of one participant for one month, 0 when there is none. */
  function PaymentIn(financials: FinancialRecord, cef: string, month: string): real {
    CellValue(GetParticipantFinancials(financials, cef), MonthCell(month))
  }

  /** The inner `forEach` over the months: each month's total grows by the payment. */
  function AddMonths(totals: map<string, real>, months: seq<string>, payments: map<string, real>)
    : map<string, real>
    decreases |months|
  {
    if months == [] then totals
    else
      AddPayment(AddMonths(totals, months[..|months| - 1], payments), months[|months| - 1], payments)
  }

  /** `acc.monthlyTotals[m] = (acc.monthlyTotals[m] || 0) + payment`. */
  function AddPayment(totals: map<string, real>, m: string, payments: map<string, real>): map<string, real> {
    totals[m := (if m in totals then totals[m] else 0.0) + (if m in payments then payments[m] else 0.0)]
  }

  /** The month totals after the participants of `ps`, in order. */
  function MonthTotals(ps: seq<Participant>, financials: FinancialRecord, months: seq<string>)
    : map<string, real>
    decreases |ps|
  {
    if ps == [] then map[]
    else
      AddMonths(MonthTotals(ps[..|ps| - 1], financials, months), months,
                GetParticipantFinancials(financials, ps[|ps| - 1].cef).monthlyPayments)
  }

  predicate DistinctStrings(xs: seq<string>) {
    forall i, j :: 0 <= i < j < |xs| ==> xs[i] != xs[j]
  }

  /** With distinct months, one pass adds each month's payment once, keeps the other totals,
      and adds exactly the months as keys. */
  lemma {:induction false} AddMonthsSpec(totals: map<string, real>, months: seq<string>,
                                         payments: map<string, real>, k: string)
    requires DistinctStrings(months)
    ensures var r := AddMonths(totals, months, payments);
      && (k in r <==> k in totals || k in months)
      && (k in months ==> r[k] == (if k in totals then totals[k] else 0.0)
                                  + (if k in payments then payments[k] else 0.0))
      && (k !in months && k in totals ==> r[k] == totals[k])
    decreases |months|
  {
    if months != [] {
      var init := months[..|months| - 1];
      AddMonthsSpec(totals, init, payments, k);
      assert months == init + [months[|months| - 1]];
    }
  }

  function PaymentFor(financials: FinancialRecord, month: string): Participant -> real {
    (p: Participant) => PaymentIn(financials, p.cef, month)
  }

  /** With distinct months and some participant, the month totals have exactly the months as
      keys, and each is the sum of the participants' payments for that month. */
  lemma {:induction false} MonthTotalsSpec(ps: seq<Participant>, financials: FinancialRecord,
                                           months: seq<string>, k: string)
    requires DistinctStrings(months)
    ensures var r := MonthTotals(ps, financials, months);
      && (k in r <==> ps != [] && k in months)
      && (k in r ==> r[k] == SumBy(ps, PaymentFor(financials, k)))
    decreases |ps|
  {
    if ps != [] {
      var init := ps[..|ps| - 1];
      var last := ps[|ps| - 1];
      MonthTotalsSpec(init, financials, months, k);
      var payments := GetParticipantFinancials(financials, last.cef).monthlyPayments;
      AddMonthsSpec(MonthTotals(init, financials, months), months, payments, k);
      assert ps == init + [last];
      SumByAppend(init, [last], PaymentFor(financials, k));
    }
  }

  /** The footer of the table. */
  datatype Totals = Totals(
    totalInscriptionFees: real,
    totalInscriptionPaid: real,
    totalFormationFees: real,
    monthlyTotals: map<string, real>,
    grandTotalPaid: real,
    totalBalance: real)

  function InscriptionFee(p: Participant): real { p.fraisInscription }
  function FormationFee(p: Participant): real { p.fraisFormation }

  function InscriptionPaidBy(financials: FinancialRecord): Participant -> real {
    (p: Participant) => GetParticipantFinancials(financials, p.cef).inscriptionPayment
  }

  ghost function TotalPaidBy(financials: FinancialRecord): Participant -> real {
    (p: Participant) => TotalPaid(GetParticipantFinancials(financials, p.cef))
  }

  ghost function BalanceBy(financials: FinancialRecord): Participant -> real {
    (p: Participant) => Balance(p, GetParticipantFinancials(financials, p.cef))
  }

  /** The `forEach` over the months for one participant. */
  method AddMonthPayments(totals: map<string, real>, months: seq<string>, payments: map<string, real>)
    returns (out: map<string, real>)
    ensures out == AddMonths(totals, months, payments)
  {
    out := totals;
    var j := 0;
    while j < |months|
      invariant 0 <= j <= |months|
      invariant out == AddMonths(totals, months[..j], payments)
    {
      AddMonthsStep(totals, months, payments, j);
      out := AddPayment(out, months[j], payments);
      j := j + 1;
    }
    assert months[..j] == months;
  }

  lemma AddMonthsStep(totals: map<string, real>, months: seq<string>, payments: map<string, real>, j: nat)
    requires j < |months|
    ensures AddMonths(totals, months[..j + 1], payments)
         == AddPayment(AddMonths(totals, months[..j], payments), months[j], payments)
  {
    PrefixSnoc(months, j);
  }

  lemma MonthTotalsStep(ps: seq<Participant>, financials: FinancialRecord, months: seq<string>, i: nat)
    requires i < |ps|
    ensures MonthTotals(ps[..i + 1], financials, months)
         == AddMonths(MonthTotals(ps[..i], financials, months), months,
                      GetParticipantFinancials(financials, ps[i].cef).monthlyPayments)
  {
    PrefixSnoc(ps, i);
  }

  /** `tableTotals`: each footer figure is the sum over the listed participants of that
      participant's figure. */
  method TableTotals(ps: seq<Participant>, financials: FinancialRecord, months: seq<string>)
    returns (t: Totals)
    ensures t.totalInscriptionFees == SumBy(ps, InscriptionFee)
    ensures t.totalInscriptionPaid == SumBy(ps, InscriptionPaidBy(financials))
    ensures t.totalFormationFees == SumBy(ps, FormationFee)
    ensures t.monthlyTotals == MonthTotals(ps, financials, months)
    ensures t.grandTotalPaid == SumBy(ps, TotalPaidBy(financials))
    ensures t.totalBalance == SumBy(ps, BalanceBy(financials))
  {
    t := Totals(0.0, 0.0, 0.0, map[], 0.0, 0.0);
    var i := 0;
    while i < |ps|
      invariant 0 <= i <= |ps|
      invariant t.totalInscriptionFees == SumBy(ps[..i], InscriptionFee)
      invariant t.totalInscriptionPaid == SumBy(ps[..i], InscriptionPaidBy(financials))
      invariant t.totalFormationFees == SumBy(ps[..i], FormationFee)
      invariant t.monthlyTotals == MonthTotals(ps[..i], financials, months)
      invariant t.grandTotalPaid == SumBy(ps[..i], TotalPaidBy(financials))
      invariant t.totalBalance == SumBy(ps[..i], BalanceBy(financials))
    {
      var p := ps[i];
      PrefixSnoc(ps, i);
      TotalsStep(ps[..i], p, financials);
      MonthTotalsStep(ps, financials, months, i);
      var f := GetParticipantFinancials(financials, p.cef);
      var monthly := AddMonthPayments(t.monthlyTotals, months, f.monthlyPayments);
      var paid := CalculateTotalPaid(p, f);
      var balance := CalculateBalance(p, f);
      t := Totals(t.totalInscriptionFees + p.fraisInscription,
                  t.totalInscriptionPaid + f.inscriptionPayment,
                  t.totalFormationFees + p.fraisFormation,
                  monthly,
                  t.grandTotalPaid + paid,
                  t.totalBalance + balance);
      i := i + 1;
    }
    assert ps[..i] == ps;
  }

  /** One more participant adds that participant's figures. */
  lemma TotalsStep(done: seq<Participant>, p: Participant, financials: FinancialRecord)
    ensures SumBy(done + [p], InscriptionFee) == SumBy(done, InscriptionFee) + p.fraisInscription
    ensures SumBy(done + [p], InscriptionPaidBy(financials))
         == SumBy(done, InscriptionPaidBy(financials)) + GetParticipantFinancials(financials, p.cef).inscriptionPayment
    ensures SumBy(done + [p], FormationFee) == SumBy(done, FormationFee) + p.fraisFormation
    ensures SumBy(done + [p], TotalPaidBy(financials))
         == SumBy(done, TotalPaidBy(financials)) + TotalPaid(GetParticipantFinancials(financials, p.cef))
    ensures SumBy(done + [p], BalanceBy(financials))
         == SumBy(done, BalanceBy(financials)) + Balance(p, GetParticipantFinancials(financials, p.cef))
  {
    SumByAppend(done, [p], InscriptionFee);
    SumByAppend(done, [p], InscriptionPaidBy(financials));
    SumByAppend(done, [p], FormationFee);
    SumByAppend(done, [p], TotalPaidBy(financials));
    SumByAppend(done, [p], BalanceBy(financials));
  }

  /** The grand total is the registration payments plus the balances plus the training
      fees. */
  lemma {:induction false} GrandTotalSplits(ps: seq<Participant>, financials: FinancialRecord)
    ensures SumBy(ps, TotalPaidBy(financials))
         == SumBy(ps, InscriptionPaidBy(financials)) + SumBy(ps, BalanceBy(financials)) + SumBy(ps, FormationFee)
    decreases |ps|
  {
    if ps != [] {
      GrandTotalSplits(ps[1..], financials);
    }
  }
}
