/** From two matrices to the diff, its text, the lines of one status, and the entries read back from them. */
module DiffCsv {
  import opened Csv
  import opened DiffText
  import opened MatrixDiff
  import opened PortText
  import opened Seqs
  import opened Text
  import opened Types

  // ----- Comma records -----

  function ReadBool(s: string): Option<bool>
  {
    if s == "true" then Some(true) else if s == "false" then Some(false) else None
  }

  /** A record without quotes, of the nine columns in their order. Quoted records, and other ways to write
      a boolean, are not part of this model. */
  function ReadRow(line: string): Option<CsvRow>
  {
    var f := Split(line, ',');
    if '"' in line || |f| != 9 then None
    else
      match ReadBool(f[8])
      case None => None
      case Some(optional) => Some(CsvRow(f[0], f[1], f[2], f[3], f[4], f[5], f[6], f[7], optional))
  }

  /** The records of the lines, empty lines skipped; None if a line is none. */
  function ReadRows<T>(lines: seq<string>, read: string -> Option<T>): Option<seq<T>>
  {
    if lines == [] then Some([])
    else
      var front, line := ReadRows(lines[..|lines| - 1], read), lines[|lines| - 1];
      if front.None? || line == "" then front
      else
        match read(line)
        case None => None
        case Some(row) => Some(front.value + [row])
  }

  /** `parseCSVToComMatrix` on a text: the header, then the records. */
  function ParseText(text: string): Option<Parsed>
  {
    match ReadRows(Split(text, '\n')[1..], ReadRow)
    case None => None
    case Some(rows) => ParseRows(rows)
  }

  // ----- The round trip -----

  predicate Unquoted(cd: ComDetails)
  {
    && Clean(cd.direction) && Clean(cd.protocol) && Clean(cd.namespace) && Clean(cd.service) && Clean(cd.pod)
    && Clean(cd.container) && Clean(cd.nodeGroup)
  }

  predicate Clean(field: string) { ',' !in field && '"' !in field }

  lemma SplitField(field: string, rest: string)
    requires Clean(field)
    ensures Split(field + "," + rest, ',') == [field] + Split(rest, ',')
    ensures '"' in field + "," + rest <==> '"' in rest
  {
    SplitAtFirst(field, ',', rest);
  }

  /** Three fields and what follows them. */
  function Fields(a: string, b: string, c: string, rest: string): string
  {
    a + "," + (b + "," + (c + "," + rest))
  }

  lemma SplitFields(a: string, b: string, c: string, rest: string)
    requires Clean(a) && Clean(b) && Clean(c)
    ensures Split(Fields(a, b, c, rest), ',') == [a, b, c] + Split(rest, ',')
    ensures '"' in Fields(a, b, c, rest) <==> '"' in rest
  {
    SplitField(c, rest);
    SplitField(b, c + "," + rest);
    SplitField(a, b + "," + (c + "," + rest));
  }

  lemma RestIsFields(cd: ComDetails)
    ensures Rest(cd) == Fields(cd.namespace, cd.service, cd.pod,
                               cd.container + "," + (cd.nodeGroup + "," + FormatBool(cd.optional)))
  {
    var x := cd.namespace + "," + cd.service + "," + cd.pod + ",";
    var y := cd.container + "," + cd.nodeGroup + "," + FormatBool(cd.optional);
    assert Rest(cd) == x + y;
    assert y == cd.container + "," + (cd.nodeGroup + "," + FormatBool(cd.optional));
    assert x + y == Fields(cd.namespace, cd.service, cd.pod, y);
  }

  /** A printed line of fields without commas and quotes is the record of its entry. */
  lemma LineIsRead(cd: ComDetails)
    requires Unquoted(cd)
    ensures ReadRow(Line(cd)) == Some(PortRow(cd))
  {
    var optional := FormatBool(cd.optional);
    var last := cd.container + "," + (cd.nodeGroup + "," + optional);
    ItoaShape(cd.port);
    SplitAtFirst(optional, ',', "");
    SplitField(cd.nodeGroup, optional);
    SplitField(cd.container, cd.nodeGroup + "," + optional);
    RestIsFields(cd);
    SplitFields(cd.namespace, cd.service, cd.pod, last);
    SplitFields(cd.direction, cd.protocol, Itoa(cd.port), Rest(cd));
    NineFieldsAreRead(Line(cd), cd);
  }

  lemma NineFieldsAreRead(line: string, cd: ComDetails)
    requires '"' !in line
    requires Split(line, ',') == [cd.direction, cd.protocol, Itoa(cd.port)]
      + ([cd.namespace, cd.service, cd.pod] + ([cd.container] + ([cd.nodeGroup] + [FormatBool(cd.optional)])))
    ensures ReadRow(line) == Some(PortRow(cd))
  {}

  lemma {:induction false} LinesAreRead<T>(ports: seq<ComDetails>, line: ComDetails -> string,
                                           read: string -> Option<T>, row: ComDetails -> T)
    requires forall cd :: cd in ports ==> line(cd) != "" && read(line(cd)) == Some(row(cd))
    ensures ReadRows(Map(ports, line), read) == Some(Map(ports, row))
  {
    if ports == [] {
      assert Map(ports, line) == [] && Map(ports, row) == [];
    } else {
      var front, last := ports[..|ports| - 1], ports[|ports| - 1];
      assert ports == front + [last];
      LinesAreRead(front, line, read, row);
      MapNext(front, last, line);
      MapNext(front, last, row);
      ReadNext(Map(front, line), line(last), read);
    }
  }

  lemma ReadNext<T>(lines: seq<string>, line: string, read: string -> Option<T>)
    requires ReadRows(lines, read).Some? && line != "" && read(line).Some?
    ensures ReadRows(lines + [line], read) == Some(ReadRows(lines, read).value + [read(line).value])
  {
    assert (lines + [line])[..|lines|] == lines;
  }

  /** What is printed can be parsed back: a header and one line for each entry. */
  lemma PrintedEntriesParse(ports: seq<ComDetails>, colNames: string)
    requires '\n' !in colNames && NaturalPorts(ports)
    requires forall cd :: cd in ports ==> Printable(cd) && Unquoted(cd)
    ensures ParseText(Join([colNames] + Map(ports, Line), "\n")) == Some((ports, []))
  {
    var body := Map(ports, Line);
    forall cd | cd in ports ensures Line(cd) != "" && ReadRow(Line(cd)) == Some(PortRow(cd)) {
      LineIsTrimmed(cd);
      LineIsRead(cd);
    }
    forall l | l in body ensures '\n' !in l {
      var i :| 0 <= i < |body| && body[i] == l;
      assert ports[i] in ports;
      LineIsTrimmed(ports[i]);
    }
    SplitInvertsJoin([colNames] + body, '\n');
    assert ([colNames] + body)[1..] == body;
    LinesAreRead(ports, Line, ReadRow, PortRow);
    AddRowReadsBack();
    PortRowsAreRead(ports, AddRow);
  }

  /** Diff two matrices, line, extract the lines of a status, parse: exactly the entries unique to the
      primary ("+") or the secondary ("-"), in order. */
  lemma DiffRoundTrip(d: Diff, colNames: string, status: string)
    requires (status == "+" || status == "-") && '\n' !in colNames && NaturalPorts(d.ports)
    requires forall cd :: cd in d.ports ==> Printable(cd) && Unquoted(cd)
    ensures var text := Extracted(DiffString(d, colNames), status);
      text.Some? && ParseText(text.value) == Some((Entries(d, Marked(status)), []))
  {
    ExtractInvertsString(d, colNames, status);
    FilterHas(d.ports, HasStatus(d.cdToStatus, Marked(status)));
    PrintedEntriesParse(Entries(d, Marked(status)), colNames);
  }

  // ----- The whole diff -----

  /** A line of the diff: its mark says the status, and no mark that both matrices have the entry. */
  function ReadMarked(line: string): Option<(Status, CsvRow)>
  {
    var (status, rest) :=
      if "+ " <= line then (UniquePrimary, line[2..])
      else if "- " <= line then (UniqueSecondary, line[2..])
      else (Both, line);
    match ReadRow(rest)
    case None => None
    case Some(row) => Some((status, row))
  }

  function ReadDiff(text: string): Option<seq<(Status, CsvRow)>> { ReadRows(Split(text, '\n')[1..], ReadMarked) }

  function StatusAndRow(cdToStatus: map<string, Status>): ComDetails -> (Status, CsvRow)
  {
    (cd: ComDetails) => (StatusOf(cdToStatus, cd), PortRow(cd))
  }

  lemma MarkedLineIsRead(cdToStatus: map<string, Status>, cd: ComDetails)
    requires Printable(cd) && Unquoted(cd)
    ensures '\n' !in MarkedLine(cdToStatus, cd) && MarkedLine(cdToStatus, cd) != ""
    ensures ReadMarked(MarkedLine(cdToStatus, cd)) == Some((StatusOf(cdToStatus, cd), PortRow(cd)))
  {
    LineIsTrimmed(cd);
    LineIsRead(cd);
    MarksAreRead(Line(cd), PortRow(cd));
  }

  lemma MarksAreRead(line: string, row: CsvRow)
    requires ReadRow(line) == Some(row) && line != "" && line[0] != '+' && line[0] != '-'
    ensures ReadMarked("+ " + line) == Some((UniquePrimary, row))
    ensures ReadMarked("- " + line) == Some((UniqueSecondary, row))
    ensures ReadMarked(line) == Some((Both, row))
  {
    assert ("+ " + line)[2..] == line && ("- " + line)[2..] == line;
    assert ("- " + line)[0] == '-' && "+ "[0] == '+';
  }

  /** The printed diff reads back as every combined entry with its status, in order. */
  lemma DiffReadsBack(d: Diff, colNames: string)
    requires '\n' !in colNames && forall cd :: cd in d.ports ==> Printable(cd) && Unquoted(cd)
    ensures ReadDiff(DiffString(d, colNames)) == Some(Map(d.ports, StatusAndRow(d.cdToStatus)))
  {
    var mark, row := Marker(d.cdToStatus), StatusAndRow(d.cdToStatus);
    forall cd | cd in d.ports
      ensures mark(cd) != "" && '\n' !in mark(cd) && ReadMarked(mark(cd)) == Some(row(cd))
    {
      MarkedLineIsRead(d.cdToStatus, cd);
    }
    LinesReadBack(d.ports, colNames, mark, ReadMarked, row);
  }

  lemma LinesReadBack<T>(ports: seq<ComDetails>, colNames: string, line: ComDetails -> string,
                         read: string -> Option<T>, row: ComDetails -> T)
    requires '\n' !in colNames
    requires forall cd :: cd in ports ==> line(cd) != "" && '\n' !in line(cd) && read(line(cd)) == Some(row(cd))
    ensures ReadRows(Split(Lines([colNames] + Map(ports, line)), '\n')[1..], read) == Some(Map(ports, row))
  {
    var body := Map(ports, line);
    forall l | l in body ensures '\n' !in l { MapHas(ports, line, l); }
    SplitLines([colNames] + body);
    assert ([colNames] + body + [""])[1..] == body + [""];
    LinesAreRead(ports, line, read, row);
    assert (body + [""])[..|body|] == body;
  }
}
