/** The Data tab: reading a CSV text into participants of the selected training year, and
    writing the participants of a year back out as CSV. `parseFloat` is a parameter: it gives
    the number a text starts with, or `None` where JavaScript gives `NaN`; the text of a number
    (`String(value)`) is a parameter too. */
module DataTransfer {
  import opened Wrappers
  import opened Strings
  import opened Lists
  import opened Types

  /** The property names of a participant. */
  const CefKey: string := "cef"
  const NomKey: string := "nom"
  const PrenomKey: string := "prenom"
  const GroupeKey: string := "groupe"
  const HoursKey: string := "mhAnnuelleAffectee"
  const InscriptionKey: string := "fraisInscription"
  const FormationKey: string := "fraisFormation"
  const YearKey: string := "trainingYear"

  /** The columns an import must have, in the order an export writes them. */
  const ExpectedHeaders: seq<string> :=
    [CefKey, NomKey, PrenomKey, GroupeKey, HoursKey, InscriptionKey, FormationKey]

  /** The columns read as numbers. */
  const NumericHeaders: seq<string> := [HoursKey, InscriptionKey, FormationKey]

  /** A property of the object built for one row: a text, a missing cell (`undefined`), or a
      number. */
  datatype FieldValue = Text(text: string) | Missing | Number(number: real)

  /** The object built for one row, property name to value. */
  type RawRecord = map<string, FieldValue>

  // ---------------------------------------------------------------------------
  // Import
  // ---------------------------------------------------------------------------

  /** The lines of the text that are not blank once trimmed. */
  function NonBlankRows(text: string): (rows: seq<string>)
    ensures forall r :: r in rows <==> r in Split(text, '\n') && Trim(r) != ""
  {
    var rows := Filter(Split(text, '\n'), (row: string) => Trim(row) != "");
    FilterAll(Split(text, '\n'), (row: string) => Trim(row) != "");
    rows
  }

  /** A cell as the import reads it: trimmed, then stripped of every '"'. */
  function CleanCell(cell: string): (r: string)
    ensures '"' !in r
  {
    RemoveChar(Trim(cell), '"')
  }

  /** The cells of a line, each cleaned: for the first line, the column names. */
  function CleanCells(row: string): (cells: seq<string>)
    ensures |cells| == |Split(row, ',')|
    ensures forall j :: 0 <= j < |cells| ==> cells[j] == CleanCell(Split(row, ',')[j])
  {
    var raw := Split(row, ',');
    seq(|raw|, j requires 0 <= j < |raw| => CleanCell(raw[j]))
  }

  /** `values[index]?.trim().replace(/"/g, '')`, with the cells already cleaned: nothing past
      the end of the row. */
  function CellAt(cells: seq<string>, index: nat): Option<string> {
    if index < |cells| then Some(cells[index]) else None
  }

  /** `parseFloat(value) || 0`: `NaN` (also for a missing cell) and zero give zero. */
  function NumberOrZero(parse: string -> Option<real>, cell: Option<string>): (n: real)
    ensures cell.None? ==> n == 0.0
    ensures cell.Some? && parse(cell.value).Some? ==> n == parse(cell.value).value
    ensures cell.Some? && parse(cell.value).None? ==> n == 0.0
  {
    match cell
    case None => 0.0
    case Some(s) =>
      match parse(s)
      case None => 0.0
      case Some(x) => x
  }

  /** The value one column puts in the object: a number for the numeric columns, otherwise
      the cleaned text, or nothing when the row is too short. */
  function FieldOf(key: string, cell: Option<string>, parse: string -> Option<real>): FieldValue {
    if key in NumericHeaders then Number(NumberOrZero(parse, cell))
    else if cell.Some? then Text(cell.value)
    else Missing
  }

  /** One step of `header.forEach`: column `i` sets its property. */
  function Assign(record: RawRecord, header: seq<string>, cells: seq<string>, parse: string -> Option<real>, i: nat): RawRecord
    requires i < |header|
  {
    record[header[i] := FieldOf(header[i], CellAt(cells, i), parse)]
  }

  /** The object after the first `n` columns of `header.forEach`: a later column of the same
      name overwrites an earlier one. */
  function Assigned(header: seq<string>, cells: seq<string>, parse: string -> Option<real>, n: nat): RawRecord
    requires n <= |header|
  {
    if n == 0 then map[] else Assign(Assigned(header, cells, parse, n - 1), header, cells, parse, n - 1)
  }

  /** Every column seen so far is a property of the object. */
  lemma {:induction false} AssignedKeys(header: seq<string>, cells: seq<string>, parse: string -> Option<real>, n: nat)
    requires n <= |header|
    ensures forall j :: 0 <= j < n ==> header[j] in Assigned(header, cells, parse, n)
    decreases n
  {
    if n > 0 {
      AssignedKeys(header, cells, parse, n - 1);
    }
  }

  /** The object built for one data row, with the selected year added last. */
  function RowRecord(header: seq<string>, row: string, parse: string -> Option<real>, year: string): (r: RawRecord)
    ensures forall j :: 0 <= j < |header| ==> header[j] in r
    ensures YearKey in r && r[YearKey] == Text(year)
  {
    AssignedKeys(header, CleanCells(row), parse, |header|);
    Assigned(header, CleanCells(row), parse, |header|)[YearKey := Text(year)]
  }

  /** Each column holds the value of the LAST cell under its name. */
  lemma {:induction false} AssignedLast(header: seq<string>, cells: seq<string>, parse: string -> Option<real>,
                                        n: nat, j: nat)
    requires j < n <= |header|
    requires forall l :: j < l < n ==> header[l] != header[j]
    ensures header[j] in Assigned(header, cells, parse, n)
    ensures Assigned(header, cells, parse, n)[header[j]] == FieldOf(header[j], CellAt(cells, j), parse)
    decreases n
  {
    if j < n - 1 {
      AssignedLast(header, cells, parse, n - 1, j);
    }
  }

  /** The numeric columns always hold numbers; the others hold the cleaned cell, or are
      missing when the row has fewer cells than the header. */
  lemma RowRecordFields(header: seq<string>, row: string, parse: string -> Option<real>, year: string, j: nat)
    requires j < |header| && header[j] != YearKey
    requires forall l :: j < l < |header| ==> header[l] != header[j]
    ensures var v := RowRecord(header, row, parse, year)[header[j]];
      var values := Split(row, ',');
      && (header[j] in NumericHeaders ==> v.Number?)
      && (header[j] !in NumericHeaders && j < |values| ==> v == Text(CleanCell(values[j])))
      && (header[j] !in NumericHeaders && j >= |values| ==> v == Missing)
  {
    AssignedLast(header, CleanCells(row), parse, |header|, j);
  }

  /** `header.forEach` building one row's object, then the selected year added. */
  method MapRow(header: seq<string>, row: string, parse: string -> Option<real>, year: string)
    returns (record: RawRecord)
    ensures record == RowRecord(header, row, parse, year)
  {
    record := AssignColumns(header, CleanCells(row), parse);
    record := record[YearKey := Text(year)];
  }

  /** The loop of `header.forEach` over the cleaned cells of a row. */
  method AssignColumns(header: seq<string>, cells: seq<string>, parse: string -> Option<real>)
    returns (record: RawRecord)
    ensures record == Assigned(header, cells, parse, |header|)
  {
    record := map[];
    var i := 0;
    while i < |header|
      invariant i <= |header|
      invariant record == Assigned(header, cells, parse, i)
    {
      record := Assign(record, header, cells, parse, i);
      i := i + 1;
    }
  }

  /** Some expected column is absent from the header. */
  predicate MissingHeader(header: seq<string>) {
    exists h :: h in ExpectedHeaders && h !in header
  }

  /** What the import does with a text: it fails to read it, it reports missing columns, or
      it passes on one object per data row. */
  datatype ImportOutcome = Unreadable | MissingHeaders | Imported(records: seq<RawRecord>)

  /** A row object whose expected columns are all present. */
  predicate Complete(r: RawRecord) {
    forall h :: h in ExpectedHeaders ==> h in r
  }

  /** One object per data row, each with the header's columns and the selected year. */
  function ImportRecords(header: seq<string>, dataRows: seq<string>, parse: string -> Option<real>, year: string)
    : (records: seq<RawRecord>)
    ensures |records| == |dataRows|
    ensures forall i :: 0 <= i < |records| ==>
      && (forall j :: 0 <= j < |header| ==> header[j] in records[i])
      && YearKey in records[i] && records[i][YearKey] == Text(year)
  {
    seq(|dataRows|, i requires 0 <= i < |dataRows| => RowRecord(header, dataRows[i], parse, year))
  }

  /** The body of `reader.onload`. A text with no non-blank line fails on `rows[0]`, which
      the `catch` turns into the read error. */
  function ImportText(text: string, parse: string -> Option<real>, year: string): ImportOutcome {
    var rows := NonBlankRows(text);
    if rows == [] then Unreadable
    else
      var header := CleanCells(rows[0]);
      if MissingHeader(header) then MissingHeaders
      else Imported(ImportRecords(header, rows[1..], parse, year))
  }

  /** No line survives exactly when every line is blank. */
  lemma NoRowsIff(text: string)
    ensures NonBlankRows(text) == [] <==> forall line :: line in Split(text, '\n') ==> Trim(line) == ""
  {
    var rows := NonBlankRows(text);
    if rows != [] {
      assert rows[0] in rows;
    }
  }

  /** An expected column present in the header is a property of every row object. */
  lemma HeaderColumns(header: seq<string>, records: seq<RawRecord>, h: string)
    requires h in header
    requires forall i :: 0 <= i < |records| ==> forall j :: 0 <= j < |header| ==> header[j] in records[i]
    ensures forall i :: 0 <= i < |records| ==> h in records[i]
  {
    var j :| 0 <= j < |header| && header[j] == h;
  }

  /** The import fails to read exactly the texts made only of white space; it reports missing
      columns exactly when the first non-blank line lacks one; otherwise it gives one object
      per non-blank line after the first, each with every expected column and the selected
      year. */
  lemma ImportTextSpec(text: string, parse: string -> Option<real>, year: string)
    ensures ImportText(text, parse, year).Unreadable?
      <==> forall line :: line in Split(text, '\n') ==> Trim(line) == ""
    ensures ImportText(text, parse, year).MissingHeaders?
      <==> NonBlankRows(text) != [] && MissingHeader(CleanCells(NonBlankRows(text)[0]))
    ensures ImportText(text, parse, year).Imported? ==>
      var records := ImportText(text, parse, year).records;
      && |records| == |NonBlankRows(text)| - 1
      && forall i :: 0 <= i < |records| ==> Complete(records[i]) && records[i][YearKey] == Text(year)
  {
    NoRowsIff(text);
    var rows := NonBlankRows(text);
    if rows != [] && !MissingHeader(CleanCells(rows[0])) {
      var header := CleanCells(rows[0]);
      var records := ImportRecords(header, rows[1..], parse, year);
      forall h | h in ExpectedHeaders ensures forall i :: 0 <= i < |records| ==> h in records[i] {
        HeaderColumns(header, records, h);
      }
    }
  }

  function TextField(v: FieldValue): string {
    match v
    case Text(s) => s
    case _ => ""
  }

  function NumberField(v: FieldValue): real {
    match v
    case Number(n) => n
    case _ => 0.0
  }

  /** The object read as a participant (`as Participant`). */
  function AsParticipant(r: RawRecord): Participant
    requires Complete(r) && YearKey in r
  {
    Participant(
      TextField(r[CefKey]), TextField(r[NomKey]), TextField(r[PrenomKey]), TextField(r[GroupeKey]),
      NumberField(r[HoursKey]), NumberField(r[InscriptionKey]), NumberField(r[FormationKey]),
      TextField(r[YearKey]))
  }

  /** Each object read as a participant. */
  function AsParticipants(records: seq<RawRecord>): (ps: seq<Participant>)
    requires forall i :: 0 <= i < |records| ==> Complete(records[i]) && YearKey in records[i]
    ensures |ps| == |records|
    ensures forall i :: 0 <= i < |ps| ==> ps[i] == AsParticipant(records[i])
  {
    seq(|records|, i requires 0 <= i < |records| => AsParticipant(records[i]))
  }

  /** The participants an import passes to the application, or nothing on either error. */
  function ImportedParticipants(text: string, parse: string -> Option<real>, year: string): (r: Option<seq<Participant>>)
    ensures r.Some? <==> ImportText(text, parse, year).Imported?
    ensures r.Some? ==> |r.value| == |NonBlankRows(text)| - 1
    ensures r.Some? ==> forall p :: p in r.value ==> p.trainingYear == year
  {
    ImportTextSpec(text, parse, year);
    match ImportText(text, parse, year)
    case Imported(records) => Some(AsParticipants(records))
    case _ => None
  }

  // ---------------------------------------------------------------------------
  // Export
  // ---------------------------------------------------------------------------

  /** The values of a participant in export order, `trainingYear` left out. */
  function ExportValues(p: Participant, show: real -> string): seq<string> {
    [p.cef, p.nom, p.prenom, p.groupe, show(p.mhAnnuelleAffectee), show(p.fraisInscription), show(p.fraisFormation)]
  }

  /** Each value quoted. */
  function QuoteAll(values: seq<string>): (cells: seq<string>)
    ensures |cells| == |values|
    ensures forall j :: 0 <= j < |values| ==> cells[j] == Quote(values[j])
  {
    if values == [] then [] else [Quote(values[0])] + QuoteAll(values[1..])
  }

  /** One exported line: each value quoted, joined by ','. */
  function ExportRow(p: Participant, show: real -> string): string {
    var values := ExportValues(p, show);
    Join(QuoteAll(values), ',')
  }

  function OfYear(participants: seq<Participant>, year: string): seq<Participant> {
    Filter(participants, (p: Participant) => p.trainingYear == year)
  }

  /** `handleExport`: the header line, then one line per participant of the selected year;
      nothing at all when the year has no participant. */
  function ExportCsv(participants: seq<Participant>, year: string, show: real -> string): Option<string> {
    var ps := OfYear(participants, year);
    if ps == [] then None else Some(Join(ExportLines(ps, show), '\n'))
  }

  /** Export gives nothing exactly when no participant is of the year, and otherwise a text
      that opens with the header line. */
  lemma ExportCsvSpec(participants: seq<Participant>, year: string, show: real -> string)
    ensures ExportCsv(participants, year, show).None? <==>
      forall p :: p in participants ==> p.trainingYear != year
    ensures ExportCsv(participants, year, show).Some? ==>
      HeaderLine() + "\n" <= ExportCsv(participants, year, show).value
  {
    var ps := OfYear(participants, year);
    FilterAll(participants, (p: Participant) => p.trainingYear == year);
    if ps != [] {
      var lines := ExportLines(ps, show);
      assert Join(lines, '\n') == lines[0] + ['\n'] + Join(lines[1..], '\n');
      assert ps[0] in ps;
    }
  }

  /** The exported header: the expected columns joined by ','. */
  function HeaderLine(): string {
    Join(ExpectedHeaders, ',')
  }

  /** The header line then the participants' lines. */
  function ExportLines(ps: seq<Participant>, show: real -> string): (lines: seq<string>)
    ensures |lines| == |ps| + 1
    ensures lines[0] == HeaderLine()
    ensures forall i :: 0 <= i < |ps| ==> lines[i + 1] == ExportRow(ps[i], show)
  {
    [HeaderLine()] + seq(|ps|, i requires 0 <= i < |ps| => ExportRow(ps[i], show))
  }

  /** A value the CSV carries unchanged: no quote, no comma, no line break. */
  predicate Plain(s: string) {
    '"' !in s && ',' !in s && '\n' !in s
  }

  /** A participant the export then the import give back unchanged: plain texts, and numbers
      whose text is plain and reads back as the same number. */
  predicate Exportable(p: Participant, show: real -> string, parse: string -> Option<real>) {
    && (forall j :: 0 <= j < 7 ==> Plain(ExportValues(p, show)[j]))
    && parse(show(p.mhAnnuelleAffectee)) == Some(p.mhAnnuelleAffectee)
    && parse(show(p.fraisInscription)) == Some(p.fraisInscription)
    && parse(show(p.fraisFormation)) == Some(p.fraisFormation)
  }

  /** A quoted plain value is read back as itself. */
  lemma CleanQuoted(s: string)
    requires '"' !in s
    ensures CleanCell(Quote(s)) == s
  {
    QuotePlain(s);
    var q := Quote(s);
    TrimUnpadded(q);
    RemoveCharConcat("\"" + s, "\"", '"');
    RemoveCharConcat("\"", s, '"');
    RemoveCharAbsent(s, '"');
  }

  /** Text made of ASCII letters only (the range 'A'..'z'). */
  predicate Word(s: string) {
    forall i :: 0 <= i < |s| ==> 'A' <= s[i] <= 'z'
  }

  /** A non-empty word is read back as itself. */
  lemma CleanWord(s: string)
    requires s != [] && Word(s)
    ensures CleanCell(s) == s
  {
    TrimUnpadded(s);
    RemoveCharAbsent(s, '"');
  }

  /** The expected columns are non-empty words. */
  lemma ExpectedHeadersWords()
    ensures forall j :: 0 <= j < |ExpectedHeaders| ==> ExpectedHeaders[j] != [] && Word(ExpectedHeaders[j])
  {
  }

  /** A line of words joined by ',' reads back as those words. */
  lemma WordsRoundTrip(words: seq<string>)
    requires words != []
    requires forall j :: 0 <= j < |words| ==> words[j] != [] && Word(words[j])
    ensures CleanCells(Join(words, ',')) == words
  {
    forall j | 0 <= j < |words| ensures ',' !in words[j] {
      assert Word(words[j]);
    }
    JoinSplit(words, ',');
    forall j | 0 <= j < |words| ensures CleanCell(words[j]) == words[j] {
      CleanWord(words[j]);
    }
  }

  /** The header line reads back as the expected columns. */
  lemma HeaderRoundTrip()
    ensures CleanCells(HeaderLine()) == ExpectedHeaders
  {
    ExpectedHeadersWords();
    WordsRoundTrip(ExpectedHeaders);
  }

  /** The cells of an exported line, split back on ',', are the quoted values. */
  lemma RowCells(p: Participant, show: real -> string, parse: string -> Option<real>)
    requires Exportable(p, show, parse)
    ensures var values := ExportValues(p, show);
      Split(ExportRow(p, show), ',') == QuoteAll(values)
  {
    var values := ExportValues(p, show);
    var cells := QuoteAll(values);
    forall j | 0 <= j < |cells| ensures ',' !in cells[j] {
      QuotePlain(values[j]);
    }
    JoinSplit(cells, ',');
  }

  /** The expected columns are seven different names, none of them "trainingYear". */
  lemma ExpectedHeadersDistinct()
    ensures forall j, l :: 0 <= j < l < |ExpectedHeaders| ==> ExpectedHeaders[j] != ExpectedHeaders[l]
    ensures YearKey !in ExpectedHeaders
  {
  }

  /** Each expected column of an exported line holds what its cell carried. */
  lemma RowFields(p: Participant, show: real -> string, parse: string -> Option<real>, j: nat)
    requires Exportable(p, show, parse) && j < 7
    ensures var r := RowRecord(ExpectedHeaders, ExportRow(p, show), parse, p.trainingYear);
      && (j < 4 ==> r[ExpectedHeaders[j]] == Text(ExportValues(p, show)[j]))
      && (j >= 4 ==> r[ExpectedHeaders[j]] == Number(NumberOrZero(parse, Some(ExportValues(p, show)[j]))))
  {
    var values := ExportValues(p, show);
    var cells := CleanCells(ExportRow(p, show));
    RowCells(p, show, parse);
    ExpectedHeadersDistinct();
    CleanQuoted(values[j]);
    assert cells[j] == values[j];
    AssignedLast(ExpectedHeaders, cells, parse, 7, j);
    NumericColumns(j);
  }

  /** The last three expected columns, and only they, are numeric. */
  lemma NumericColumns(j: nat)
    requires j < 7
    ensures ExpectedHeaders[j] in NumericHeaders <==> j >= 4
  {
    if j < 4 {
      assert ExpectedHeaders[j][0] != NumericHeaders[0][0];
      assert ExpectedHeaders[j][0] != NumericHeaders[1][0];
      assert ExpectedHeaders[j][0] != NumericHeaders[2][0];
    } else {
      assert ExpectedHeaders[j] == NumericHeaders[j - 4];
    }
  }

  /** An exported line of a participant of the selected year is imported as that participant. */
  lemma RowRoundTrip(p: Participant, show: real -> string, parse: string -> Option<real>)
    requires Exportable(p, show, parse)
    ensures AsParticipant(RowRecord(ExpectedHeaders, ExportRow(p, show), parse, p.trainingYear)) == p
  {
    RowTextFields(p, show, parse);
    RowNumberFields(p, show, parse);
  }

  lemma RowTextFields(p: Participant, show: real -> string, parse: string -> Option<real>)
    requires Exportable(p, show, parse)
    ensures var r := RowRecord(ExpectedHeaders, ExportRow(p, show), parse, p.trainingYear);
      && r[ExpectedHeaders[0]] == Text(p.cef) && r[ExpectedHeaders[1]] == Text(p.nom)
      && r[ExpectedHeaders[2]] == Text(p.prenom) && r[ExpectedHeaders[3]] == Text(p.groupe)
  {
    RowFields(p, show, parse, 0);
    RowFields(p, show, parse, 1);
    RowFields(p, show, parse, 2);
    RowFields(p, show, parse, 3);
  }

  lemma RowNumberFields(p: Participant, show: real -> string, parse: string -> Option<real>)
    requires Exportable(p, show, parse)
    ensures var r := RowRecord(ExpectedHeaders, ExportRow(p, show), parse, p.trainingYear);
      && r[ExpectedHeaders[4]] == Number(p.mhAnnuelleAffectee)
      && r[ExpectedHeaders[5]] == Number(p.fraisInscription)
      && r[ExpectedHeaders[6]] == Number(p.fraisFormation)
  {
    RowFields(p, show, parse, 4);
    RowFields(p, show, parse, 5);
    RowFields(p, show, parse, 6);
  }

  /** A line of words joined by ',' is one non-blank line. */
  lemma WordsLineShape(words: seq<string>)
    requires words != []
    requires forall j :: 0 <= j < |words| ==> words[j] != [] && Word(words[j])
    ensures '\n' !in Join(words, ',') && Trim(Join(words, ',')) != ""
  {
    forall j | 0 <= j < |words| ensures '\n' !in words[j] {
      assert Word(words[j]);
    }
    JoinAvoids(words, ',', '\n');
    JoinHead(words, ',');
    TrimEmptyIff(Join(words, ','));
  }

  /** An exported participant's line is one non-blank line. */
  lemma RowLineShape(p: Participant, show: real -> string, parse: string -> Option<real>)
    requires Exportable(p, show, parse)
    ensures '\n' !in ExportRow(p, show) && Trim(ExportRow(p, show)) != ""
  {
    var values := ExportValues(p, show);
    var cells := QuoteAll(values);
    forall j | 0 <= j < |cells| ensures '\n' !in cells[j] {
      QuotePlain(values[j]);
    }
    JoinAvoids(cells, ',', '\n');
    JoinHead(cells, ',');
    TrimEmptyIff(ExportRow(p, show));
  }

  /** Reading the exported text back gives its lines, none dropped. */
  lemma ExportedRows(ps: seq<Participant>, show: real -> string, parse: string -> Option<real>)
    requires forall p :: p in ps ==> Exportable(p, show, parse)
    ensures NonBlankRows(Join(ExportLines(ps, show), '\n')) == ExportLines(ps, show)
  {
    var lines := ExportLines(ps, show);
    forall i | 0 <= i < |lines| ensures '\n' !in lines[i] && Trim(lines[i]) != "" {
      if i == 0 {
        ExpectedHeadersWords();
        WordsLineShape(ExpectedHeaders);
      } else {
        assert ps[i - 1] in ps;
        RowLineShape(ps[i - 1], show, parse);
      }
    }
    JoinSplit(lines, '\n');
    FilterKeepsAll(lines, (row: string) => Trim(row) != "");
  }

  /** Importing the exported text passes on one object per exported participant. */
  lemma ExportedRecords(ps: seq<Participant>, show: real -> string, parse: string -> Option<real>, year: string)
    requires ps != []
    requires forall p :: p in ps ==> Exportable(p, show, parse)
    ensures ImportText(Join(ExportLines(ps, show), '\n'), parse, year)
      == Imported(ImportRecords(ExpectedHeaders, ExportLines(ps, show)[1..], parse, year))
  {
    ExportedRows(ps, show, parse);
    HeaderRoundTrip();
    assert !MissingHeader(ExpectedHeaders);
  }

  /** The participant read from the object of an exported participant's line. */
  lemma RecordRoundTrip(ps: seq<Participant>, show: real -> string, parse: string -> Option<real>, year: string, i: nat)
    requires forall p :: p in ps ==> Exportable(p, show, parse) && p.trainingYear == year
    requires i < |ps|
    ensures var records := ImportRecords(ExpectedHeaders, ExportLines(ps, show)[1..], parse, year);
      && |records| == |ps| && Complete(records[i])
      && AsParticipant(records[i]) == ps[i]
  {
    var lines := ExportLines(ps, show);
    var records := ImportRecords(ExpectedHeaders, lines[1..], parse, year);
    assert ps[i] in ps;
    assert lines[1..][i] == ExportRow(ps[i], show);
    assert records[i] == RowRecord(ExpectedHeaders, ExportRow(ps[i], show), parse, ps[i].trainingYear);
    RowRoundTrip(ps[i], show, parse);
  }

  /** Exporting the participants of a year and importing the file for that same year gives
      back those participants, in order, when their values are plain. */
  lemma ExportImportRoundTrip(participants: seq<Participant>, year: string, show: real -> string,
                              parse: string -> Option<real>)
    requires forall p :: p in participants && p.trainingYear == year ==> Exportable(p, show, parse)
    requires ExportCsv(participants, year, show).Some?
    ensures ImportedParticipants(ExportCsv(participants, year, show).value, parse, year)
      == Some(OfYear(participants, year))
  {
    var ps := OfYear(participants, year);
    FilterAll(participants, (p: Participant) => p.trainingYear == year);
    var lines := ExportLines(ps, show);
    ExportedRecords(ps, show, parse, year);
    var records := ImportRecords(ExpectedHeaders, lines[1..], parse, year);
    var got := AsParticipants(records);
    forall i | 0 <= i < |ps| ensures got[i] == ps[i] {
      RecordRoundTrip(ps, show, parse, year, i);
    }
    assert got == ps;
  }
}
