/** The diff as text, and the reader that picks the lines of one status out of it. */
module DiffText {
  import opened MatrixDiff
  import opened PortText
  import opened Seqs
  import opened Text
  import opened Types

  function MarkedLine(cdToStatus: map<string, Status>, cd: ComDetails): string
  {
    match StatusOf(cdToStatus, cd)
    case Both => Line(cd)
    case UniquePrimary => "+ " + Line(cd)
    case UniqueSecondary => "- " + Line(cd)
  }

  function Marker(cdToStatus: map<string, Status>): ComDetails -> string
  {
    (cd: ComDetails) => MarkedLine(cdToStatus, cd)
  }

  function DiffString(d: Diff, colNames: string): string
  {
    Lines([colNames] + Map(d.ports, Marker(d.cdToStatus)))
  }

  /** `MatrixDiff.String`, given the CSV column names. */
  method String(d: Diff, colNames: string) returns (diff: string)
    ensures diff == DiffString(d, colNames)
  {
    var ports := d.ports;
    ghost var mark := Marker(d.cdToStatus);
    diff := colNames + "\n";
    LinesOfHeader(colNames, mark);
    for i := 0 to |ports|
      invariant diff == Lines([colNames] + Map(ports[..i], mark))
    {
      LinesNextMarked(colNames, ports, i, mark);
      var line := StatusLine(d.cdToStatus, ports[i]);
      diff := diff + line;
    }
    assert ports[..|ports|] == ports;
  }

  /** The switch on the status, as the text it appends. */
  method StatusLine(cdToStatus: map<string, Status>, cd: ComDetails) returns (line: string)
    ensures line == Marker(cdToStatus)(cd) + "\n"
  {
    match StatusOf(cdToStatus, cd) {
      case Both => line := Line(cd) + "\n";
      case UniquePrimary => line := "+ " + Line(cd) + "\n";
      case UniqueSecondary => line := "- " + Line(cd) + "\n";
    }
  }

  lemma LinesOfHeader(colNames: string, mark: ComDetails -> string)
    ensures Lines([colNames] + Map([], mark)) == colNames + "\n"
  {
    assert [colNames] + Map([], mark) == [colNames] && [colNames][..0] == [] && Lines([]) == "";
    assert "" + colNames + "\n" == colNames + "\n";
  }

  lemma LinesNextMarked(colNames: string, ports: seq<ComDetails>, i: nat, mark: ComDetails -> string)
    requires i < |ports|
    ensures Lines([colNames] + Map(ports[..i + 1], mark))
         == Lines([colNames] + Map(ports[..i], mark)) + (mark(ports[i]) + "\n")
  {
    assert ports[..i + 1] == ports[..i] + [ports[i]];
    AppendMapNext([colNames], ports[..i], ports[i], mark);
    LinesNext([colNames] + Map(ports[..i], mark), mark(ports[i]));
  }

  // ----- The reader -----

  /** The lines that start with the status once trimmed, without their first two characters; None where
      the slice expression of the program would be out of range. */
  function Kept(lines: seq<string>, status: string): Option<seq<string>>
  {
    if lines == [] then Some([])
    else
      var front, line := Kept(lines[..|lines| - 1], status), TrimSpace(lines[|lines| - 1]);
      if front.None? || !(status <= line) then front
      else if |line| < 2 then None
      else Some(front.value + [line[2..]])
  }

  /** The header and the lines kept, as a text again. */
  function Extracted(content: string, status: string): Option<string>
  {
    var lines := Split(content, '\n');
    match Kept(lines[1..], status)
    case None => None
    case Some(kept) => Some(Join([lines[0]] + kept, "\n"))
  }

  method ExtractDiffByStatus(content: string, status: string) returns (result: Option<string>)
    ensures result == Extracted(content, status)
  {
    var lines := Split(content, '\n');
    var filteredLines := [lines[0]];
    var rest := lines[1..];
    for i := 0 to |rest|
      invariant Kept(rest[..i], status).Some?
      invariant filteredLines == [lines[0]] + Kept(rest[..i], status).value
    {
      assert rest[..i + 1][..i] == rest[..i];
      var line := TrimSpace(rest[i]);
      if status <= line {
        if |line| < 2 {
          KeptStaysNone(rest, status, i + 1);
          return None;
        }
        filteredLines := filteredLines + [line[2..]];
      }
    }
    assert rest[..|rest|] == rest;
    result := Some(Join(filteredLines, "\n"));
  }

  lemma {:induction false} KeptStaysNone(lines: seq<string>, status: string, i: nat)
    requires i <= |lines| && Kept(lines[..i], status).None?
    ensures Kept(lines, status).None?
  {
    if i < |lines| {
      assert lines[..|lines| - 1][..i] == lines[..i];
      KeptStaysNone(lines[..|lines| - 1], status, i);
    } else {
      assert lines[..i] == lines;
    }
  }

  // ----- The round trip -----

  /** No field holds a line break, and the direction starts a line of its own kind. */
  predicate Printable(cd: ComDetails)
  {
    && '\n' !in cd.direction && '\n' !in cd.protocol && '\n' !in cd.namespace && '\n' !in cd.service
    && '\n' !in cd.pod && '\n' !in cd.container && '\n' !in cd.nodeGroup
    && cd.direction != "" && !IsSpace(cd.direction[0]) && cd.direction[0] != '+' && cd.direction[0] != '-'
  }

  lemma LineIsTrimmed(cd: ComDetails)
    requires Printable(cd)
    ensures |Line(cd)| >= 2 && Line(cd)[0] == cd.direction[0] && !IsSpace(Line(cd)[|Line(cd)| - 1])
    ensures '\n' !in Line(cd)
  {
    ItoaShape(cd.port);
    assert '\n' !in Itoa(cd.port);
    assert '\n' !in Rest(cd);
    assert Line(cd)[|Line(cd)| - 1] == 'e';
  }

  lemma MarkIsTrimmed(mark: char, line: string)
    requires line != "" && !IsSpace(line[|line| - 1]) && !IsSpace(mark)
    ensures TrimSpace([mark] + " " + line) == [mark] + " " + line && ([mark] + " " + line)[2..] == line
  {
    TrimSpaceKeeps([mark] + " " + line);
  }

  /** Which status a mark asks for. */
  function Marked(status: string): Status
    requires status == "+" || status == "-"
  {
    if status == "+" then UniquePrimary else UniqueSecondary
  }

  /** A printed line keeps its shape when trimmed, and carries the status exactly when it is kept. */
  ghost predicate Readable(line: string, status: string, kept: bool, text: string)
  {
    && '\n' !in line && TrimSpace(line) == line && |line| >= 2
    && (status <= line <==> kept)
    && (kept ==> line[2..] == text)
  }

  lemma {:induction false} KeptLines(ports: seq<ComDetails>, status: string, mark: ComDetails -> string,
                                     keep: ComDetails -> bool, text: ComDetails -> string)
    requires forall cd :: cd in ports ==> Readable(mark(cd), status, keep(cd), text(cd))
    ensures Kept(Map(ports, mark), status) == Some(Map(Filter(ports, keep), text))
  {
    if ports == [] {
      assert Map(ports, mark) == [] && Map(ports, text) == [];
    } else {
      var front, cd := ports[..|ports| - 1], ports[|ports| - 1];
      assert ports == front + [cd] && cd in ports;
      KeptLines(front, status, mark, keep, text);
      MapNext(front, cd, mark);
      KeptNext(Map(front, mark), mark(cd), status);
      MapNext(Filter(front, keep), cd, text);
      assert Filter(ports, keep) == Filter(front, keep) + if keep(cd) then [cd] else [];
      assert Map(ports, mark) == Map(front, mark) + [mark(cd)];
      assert Kept(Map(ports, mark), status) == Kept(Map(front, mark) + [mark(cd)], status);
      if keep(cd) {
        assert mark(cd)[2..] == text(cd);
        assert Map(Filter(ports, keep), text) == Map(Filter(front, keep), text) + [text(cd)];
      } else {
        assert Filter(ports, keep) == Filter(front, keep);
      }
    }
  }

  lemma KeptNext(lines: seq<string>, line: string, status: string)
    requires Kept(lines, status).Some? && TrimSpace(line) == line && |line| >= 2
    ensures Kept(lines + [line], status) ==
      if status <= line then Some(Kept(lines, status).value + [line[2..]]) else Kept(lines, status)
  {
    assert (lines + [line])[..|lines|] == lines;
  }

  lemma MarkedLineIsReadable(cdToStatus: map<string, Status>, cd: ComDetails, status: string)
    requires (status == "+" || status == "-") && Printable(cd)
    ensures Readable(MarkedLine(cdToStatus, cd), status, StatusOf(cdToStatus, cd) == Marked(status), Line(cd))
  {
    LineIsTrimmed(cd);
    match StatusOf(cdToStatus, cd)
    case Both => SharedIsReadable(Line(cd), status);
    case UniquePrimary => MarkIsReadable('+', Line(cd), status);
    case UniqueSecondary => MarkIsReadable('-', Line(cd), status);
  }

  lemma SharedIsReadable(line: string, status: string)
    requires (status == "+" || status == "-") && |line| >= 2 && '\n' !in line && line[0] != '+' && line[0] != '-'
    requires !IsSpace(line[0]) && !IsSpace(line[|line| - 1])
    ensures Readable(line, status, false, line)
  {
    TrimSpaceKeeps(line);
  }

  lemma MarkIsReadable(mark: char, line: string, status: string)
    requires (mark == '+' || mark == '-') && (status == "+" || status == "-")
    requires line != "" && '\n' !in line && !IsSpace(line[|line| - 1])
    ensures Readable([mark, ' '] + line, status, status == [mark], line)
  {
    MarkIsTrimmed(mark, line);
    assert [mark] + " " + line == [mark, ' '] + line;
    assert status <= [mark, ' '] + line <==> status == [mark];
  }

  /** Reading the "+" ("-") lines of a printed diff gives back, without marks, the header and exactly the
      printed entries unique to the primary (secondary), in their order. */
  lemma ExtractInvertsString(d: Diff, colNames: string, status: string)
    requires status == "+" || status == "-"
    requires '\n' !in colNames && forall cd :: cd in d.ports ==> Printable(cd)
    ensures Extracted(DiffString(d, colNames), status)
         == Some(Join([colNames] + Map(Entries(d, Marked(status)), Line), "\n"))
  {
    var mark, keep := Marker(d.cdToStatus), HasStatus(d.cdToStatus, Marked(status));
    forall cd | cd in d.ports ensures Readable(mark(cd), status, keep(cd), Line(cd)) {
      MarkedLineIsReadable(d.cdToStatus, cd, status);
    }
    TextIsReadable(d.ports, colNames, status, mark, keep, Line);
  }

  lemma TextIsReadable(ports: seq<ComDetails>, colNames: string, status: string, mark: ComDetails -> string,
                       keep: ComDetails -> bool, text: ComDetails -> string)
    requires '\n' !in colNames && status != ""
    requires forall cd :: cd in ports ==> Readable(mark(cd), status, keep(cd), text(cd))
    ensures var lines := Split(Lines([colNames] + Map(ports, mark)), '\n');
      lines[0] == colNames && Kept(lines[1..], status) == Some(Map(Filter(ports, keep), text))
  {
    var body := Map(ports, mark);
    KeptLines(ports, status, mark, keep, text);
    forall l | l in body ensures '\n' !in l {
      var i :| 0 <= i < |body| && body[i] == l;
      assert ports[i] in ports;
    }
    SplitLines([colNames] + body);
    var lines := Split(Lines([colNames] + body), '\n');
    assert lines[1..] == body + [""];
    assert (body + [""])[..|body|] == body;
  }
}
