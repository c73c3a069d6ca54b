/** The records the application keeps: participants, the absence ledger, the weekly history,
    the financial records and the user accounts. */
module Types {
  import opened Wrappers

  /** A trainee of one training year. Hours and fees are exact decimals. */
  datatype Participant = Participant(
    cef: string,
    nom: string,
    prenom: string,
    groupe: string,
    mhAnnuelleAffectee: real,
    fraisInscription: real,
    fraisFormation: real,
    trainingYear: string)

  /** One participant's ledger: `yyyy-MM-dd` key to "absent". */
  type DayLedger = map<string, bool>

  /** The absence ledger: CEF to that participant's days. */
  type AttendanceRecord = map<string, DayLedger>

  /** One saved week of one group. `date` and `weekDates` are timestamps in ISO form. */
  datatype HistoryEntry = HistoryEntry(
    id: string,
    date: string,
    trainingYear: string,
    month: string,
    weekLabel: string,
    group: string,
    attendance: AttendanceRecord,
    weekDates: seq<string>)

  /** 'Payé' or 'En attente'. */
  datatype InscriptionStatus = Paid | Pending

  /** The payments of one participant: month key to amount, and the registration payment,
      which older records may lack. */
  datatype ParticipantFinancials = ParticipantFinancials(
    inscriptionStatus: InscriptionStatus,
    monthlyPayments: map<string, real>,
    inscriptionPayment: Option<real>)

  /** CEF to financial record. */
  type FinancialRecord = map<string, ParticipantFinancials>

  /** A change of one monthly payment, or of the registration payment. */
  datatype FinancialUpdateAction =
    | Monthly(month: string, amount: real)
    | Inscription(amount: real)

  datatype Role = Admin | Trainee

  /** An account; a trainee account is linked to a participant by CEF. */
  datatype User = User(
    id: string,
    username: string,
    password: Option<string>,
    role: Role,
    participantCef: Option<string>)

  /** `u.participantCef` is truthy: present and not the empty string. */
  predicate Linked(u: User) {
    u.participantCef.Some? && u.participantCef.value != ""
  }

  /** `attendance[cef] || {}`: the ledger of one participant, empty when there is none. */
  function LedgerOf(attendance: AttendanceRecord, cef: string): DayLedger {
    if cef in attendance then attendance[cef] else map[]
  }
}
