/** The CSV form of a matrix, as records: ports first, then ranges under the same headers. */
module Csv {
  import opened PortText
  import opened Seqs
  import opened Text
  import opened Types

  datatype CsvRow = CsvRow(
    direction: string, protocol: string, port: string, namespace: string, service: string,
    pod: string, container: string, nodeGroup: string, optional: bool)

  type Parsed = (seq<ComDetails>, seq<DynamicRange>)

  function PortRow(cd: ComDetails): CsvRow
  {
    CsvRow(cd.direction, cd.protocol, Itoa(cd.port), cd.namespace, cd.service, cd.pod, cd.container, cd.nodeGroup,
           cd.optional)
  }

  function RangeRow(dr: DynamicRange): CsvRow
  {
    CsvRow(dr.direction, dr.protocol, PortRangeString(dr), "", dr.description, "", "", "", dr.optional)
  }

  /** The columns of an entry. */
  predicate IsPortRow(cd: ComDetails, r: CsvRow)
  {
    && r.direction == cd.direction && r.protocol == cd.protocol && r.port == Itoa(cd.port)
    && r.namespace == cd.namespace && r.service == cd.service && r.pod == cd.pod && r.container == cd.container
    && r.nodeGroup == cd.nodeGroup && r.optional == cd.optional
  }

  /** The columns of a range: the bounds as its port, the description as its service, and no others. */
  predicate IsRangeRow(dr: DynamicRange, r: CsvRow)
  {
    && r.direction == dr.direction && r.protocol == dr.protocol && r.port == Itoa(dr.minPort) + "-" + Itoa(dr.maxPort)
    && r.service == dr.description && r.optional == dr.optional
    && r.namespace == r.pod == r.container == r.nodeGroup == ""
  }

  method ToCSV(ports: seq<ComDetails>, ranges: seq<DynamicRange>) returns (rows: seq<CsvRow>)
    ensures rows == Map(ports, PortRow) + Map(ranges, RangeRow)
    ensures |rows| == |ports| + |ranges|
    ensures forall i :: 0 <= i < |ports| ==> IsPortRow(ports[i], rows[i])
    ensures forall i :: 0 <= i < |ranges| ==> IsRangeRow(ranges[i], rows[|ports| + i])
  {
    rows := Map(ports, PortRow);
    ghost var portRows := rows;
    for i := 0 to |ranges|
      invariant rows == portRows + Map(ranges[..i], RangeRow)
    {
      assert ranges[..i + 1] == ranges[..i] + [ranges[i]];
      MapNext(ranges[..i], ranges[i], RangeRow);
      rows := rows + [RangeRow(ranges[i])];
    }
    assert ranges[..|ranges|] == ranges;
  }

  /** What one row adds to what has been parsed; None is the error. */
  function AddRow(parsed: Option<Parsed>, r: CsvRow): Option<Parsed>
  {
    var portStr := TrimSpace(r.port);
    if parsed.None? || portStr == "" then parsed
    else
      var (details, ranges) := parsed.value;
      if '-' in portStr then
        match ParsePortRangeHyphen(portStr)
        case None => None
        case Some((minPort, maxPort)) =>
          Some((details, ranges + [DynamicRange(r.direction, r.protocol, minPort, maxPort, r.service, r.optional)]))
      else
        match Atoi(portStr)
        case None => None
        case Some(port) =>
          Some((details + [ComDetails(r.direction, r.protocol, port, r.namespace, r.service, r.pod, r.container,
                                      r.nodeGroup, r.optional)], ranges))
  }

  /** Rows taken one after another, starting from an empty matrix. */
  function TakeRows(rows: seq<CsvRow>, add: (Option<Parsed>, CsvRow) -> Option<Parsed>): Option<Parsed>
  {
    if rows == [] then Some(([], [])) else add(TakeRows(rows[..|rows| - 1], add), rows[|rows| - 1])
  }

  function ParseRows(rows: seq<CsvRow>): Option<Parsed> { TakeRows(rows, AddRow) }

  method ParseCSVToComMatrix(rows: seq<CsvRow>) returns (result: Option<Parsed>)
    ensures result == ParseRows(rows)
  {
    var details: seq<ComDetails>, ranges: seq<DynamicRange> := [], [];
    for i := 0 to |rows|
      invariant ParseRows(rows[..i]) == Some((details, ranges))
    {
      assert rows[..i + 1][..i] == rows[..i];
      var r := rows[i];
      var portStr := TrimSpace(r.port);
      if portStr == "" {
        continue;
      }
      if '-' in portStr {
        var bounds := ParsePortRangeHyphen(portStr);
        if bounds.None? {
          ParseStaysFailed(rows, i + 1);
          return None;
        }
        var (minPort, maxPort) := bounds.value;
        ranges := ranges + [DynamicRange(r.direction, r.protocol, minPort, maxPort, r.service, r.optional)];
        continue;
      }
      var port := Atoi(portStr);
      if port.None? {
        ParseStaysFailed(rows, i + 1);
        return None;
      }
      details := details + [ComDetails(r.direction, r.protocol, port.value, r.namespace, r.service, r.pod,
                                       r.container, r.nodeGroup, r.optional)];
    }
    assert rows[..|rows|] == rows;
    result := Some((details, ranges));
  }

  lemma {:induction false} ParseStaysFailed(rows: seq<CsvRow>, i: nat)
    requires i <= |rows| && ParseRows(rows[..i]).None?
    ensures ParseRows(rows).None?
  {
    if i < |rows| {
      assert rows[..|rows| - 1][..i] == rows[..i];
      ParseStaysFailed(rows[..|rows| - 1], i);
    } else {
      assert rows[..i] == rows;
    }
  }

  // ----- What a row says -----

  predicate IsBlank(r: CsvRow) { AllSpaces(r.port) }

  /** The port column is a number, perhaps with white space around it. */
  predicate SaysPort(r: CsvRow, port: int) { '-' !in r.port && Atoi(TrimSpace(r.port)) == Some(port) }

  /** It is two numbers around its only hyphen, perhaps with white space around each. */
  ghost predicate SaysRange(r: CsvRow, minPort: int, maxPort: int)
  {
    exists lo, hi :: IsRangeText(r.port, lo, hi, minPort, maxPort)
  }

  predicate IsRangeText(s: string, lo: string, hi: string, minPort: int, maxPort: int)
  {
    && s == lo + "-" + hi && '-' !in lo && '-' !in hi
    && Atoi(TrimSpace(lo)) == Some(minPort) && Atoi(TrimSpace(hi)) == Some(maxPort)
  }

  /** The entry of a row, column by column. */
  predicate IsEntryOf(r: CsvRow, port: int, cd: ComDetails)
  {
    && cd.direction == r.direction && cd.protocol == r.protocol && cd.port == port
    && cd.namespace == r.namespace && cd.service == r.service && cd.pod == r.pod && cd.container == r.container
    && cd.nodeGroup == r.nodeGroup && cd.optional == r.optional
  }

  predicate IsRangeOf(r: CsvRow, minPort: int, maxPort: int, dr: DynamicRange)
  {
    && dr.direction == r.direction && dr.protocol == r.protocol && dr.minPort == minPort && dr.maxPort == maxPort
    && dr.description == r.service && dr.optional == r.optional
  }

  /** A blank port is skipped, a number adds an entry and a range of numbers a range, and anything else is
      an error. */
  lemma RowIsTaken(parsed: Parsed, r: CsvRow)
    ensures IsBlank(r) ==> AddRow(Some(parsed), r) == Some(parsed)
    ensures forall port, cd :: SaysPort(r, port) && IsEntryOf(r, port, cd) ==>
      AddRow(Some(parsed), r) == Some((parsed.0 + [cd], parsed.1))
    ensures forall lo, hi, dr :: SaysRange(r, lo, hi) && IsRangeOf(r, lo, hi, dr) ==>
      AddRow(Some(parsed), r) == Some((parsed.0, parsed.1 + [dr]))
    ensures AddRow(Some(parsed), r).None? <==>
      !IsBlank(r) && (forall n :: !SaysPort(r, n)) && (forall lo, hi :: !SaysRange(r, lo, hi))
  {
    var t := TrimSpace(r.port);
    BlankIsTrimmedAway(r);
    TrimKeepsHyphens(r.port);
    assert Atoi("").None?;
    forall lo, hi ensures SaysRange(r, lo, hi) <==> '-' in t && ParsePortRangeHyphen(t) == Some((lo, hi)) {
      RangeTextExactly(r.port, lo, hi);
    }
    if '-' in t && ParsePortRangeHyphen(t).Some? {
      assert SaysRange(r, ParsePortRangeHyphen(t).value.0, ParsePortRangeHyphen(t).value.1);
    }
    if '-' !in t && Atoi(t).Some? { assert SaysPort(r, Atoi(t).value); }
  }

  lemma BlankIsTrimmedAway(r: CsvRow)
    ensures IsBlank(r) <==> TrimSpace(r.port) == ""
  {
    TrimSpaceIsExact(r.port, "");
    if IsBlank(r) {
      assert Surrounds(r.port, "", "", r.port) by { assert r.port + "" + "" == r.port; }
    }
  }

  lemma TrimKeepsHyphens(s: string)
    ensures '-' in s <==> '-' in TrimSpace(s)
  {
    var a, b := TrimSpaceCuts(s);
  }

  lemma RangeTextExactly(s: string, minPort: int, maxPort: int)
    ensures (exists lo, hi :: IsRangeText(s, lo, hi, minPort, maxPort))
      <==> '-' in TrimSpace(s) && ParsePortRangeHyphen(TrimSpace(s)) == Some((minPort, maxPort))
  {
    if lo, hi :| IsRangeText(s, lo, hi, minPort, maxPort) { RangeTextIsRead(s, lo, hi, minPort, maxPort); }
    if '-' in TrimSpace(s) && ParsePortRangeHyphen(TrimSpace(s)) == Some((minPort, maxPort)) {
      var lo, hi := ReadRangeIsText(s, minPort, maxPort);
    }
  }

  lemma TrimTwice(s: string)
    ensures TrimSpace(TrimSpace(s)) == TrimSpace(s)
  {
    var a, b := TrimSpaceCuts(s);
    TrimSpaceTakes("", TrimSpace(s), "");
    assert "" + TrimSpace(s) + "" == TrimSpace(s);
  }

  lemma RangeTextIsRead(s: string, lo: string, hi: string, minPort: int, maxPort: int)
    requires IsRangeText(s, lo, hi, minPort, maxPort)
    ensures '-' in TrimSpace(s) && ParsePortRangeHyphen(TrimSpace(s)) == Some((minPort, maxPort))
  {
    var t := TrimSpace(s);
    var a, b := TrimSpaceCuts(s);
    var lo', hi' := HyphenIsInside(s, a, t, b, lo, hi);
    TrimTwice(s);
    SplitAtFirst(lo', '-', hi');
    SplitAtFirst(hi', '-', "");
    assert t[|lo'|] == '-';
  }

  lemma ReadRangeIsText(s: string, minPort: int, maxPort: int) returns (lo: string, hi: string)
    requires '-' in TrimSpace(s) && ParsePortRangeHyphen(TrimSpace(s)) == Some((minPort, maxPort))
    ensures IsRangeText(s, lo, hi, minPort, maxPort)
  {
    var t := TrimSpace(s);
    var a, b := TrimSpaceCuts(s);
    TrimTwice(s);
    var parts := Split(t, '-');
    JoinInvertsSplit(t, '-');
    SplitPartsHaveNoSeparator(t, '-');
    JoinOfTwo(parts, "-");
    OuterSpaces(a, parts[0], parts[1], b);
    lo, hi := a + parts[0], parts[1] + b;
  }

  lemma JoinOfTwo(parts: seq<string>, sep: string)
    requires |parts| == 2
    ensures Join(parts, sep) == parts[0] + sep + parts[1]
  {
    assert parts[1..] == [parts[1]];
  }

  lemma OuterSpaces(a: string, lo: string, hi: string, b: string)
    requires AllSpaces(a) && AllSpaces(b)
    ensures TrimSpace(a + lo) == TrimSpace(lo) && TrimSpace(hi + b) == TrimSpace(hi)
    ensures a + (lo + "-" + hi) + b == (a + lo) + "-" + (hi + b)
    ensures '-' !in lo ==> '-' !in a + lo
    ensures '-' !in hi ==> '-' !in hi + b
  {
    TrimSpaceIgnores(a, lo, "");
    TrimSpaceIgnores("", hi, b);
    assert a + lo + "" == a + lo && "" + hi + b == hi + b;
  }

  lemma HyphenIsInside(s: string, a: string, t: string, b: string, lo: string, hi: string)
    returns (lo': string, hi': string)
    requires Surrounds(a, t, b, s) && s == lo + "-" + hi && '-' !in lo && '-' !in hi
    ensures t == lo' + "-" + hi' && '-' !in lo' && '-' !in hi'
    ensures TrimSpace(lo') == TrimSpace(lo) && TrimSpace(hi') == TrimSpace(hi)
  {
    assert s[|lo|] == '-';
    forall k | 0 <= k < |a| ensures s[k] != '-' { assert s[k] == a[k] && a[k] in a; }
    forall k | |a| + |t| <= k < |s| ensures s[k] != '-' {
      assert s[k] == b[k - |a| - |t|] && b[k - |a| - |t|] in b;
    }
    lo' := lo[|a|..];
    hi' := hi[..|hi| - |b|];
    assert lo == a + lo' by { assert s[..|a|] == a && s[..|lo|] == lo; }
    assert hi == hi' + b by { assert s[|s| - |b|..] == b && s[|lo| + 1..] == hi; }
    assert t == s[|a|..|s| - |b|];
    OuterSpaces(a, lo', hi', b);
  }

  // ----- The round trip -----

  lemma PortRowIsRead(parsed: Parsed, cd: ComDetails)
    ensures AddRow(Some(parsed), PortRow(cd)) == if cd.port >= 0 then Some((parsed.0 + [cd], parsed.1)) else None
  {
    var s := Itoa(cd.port);
    NumbersAreNotSpaced(cd.port);
    ItoaShape(cd.port);
    if cd.port >= 0 {
      AtoiInvertsItoa(cd.port);
    } else {
      SplitAtFirst("", '-', s[1..]);
      SplitAtFirst(s[1..], '-', "");
      assert s == "" + "-" + s[1..];
    }
  }

  lemma RangeRowIsRead(parsed: Parsed, dr: DynamicRange)
    ensures AddRow(Some(parsed), RangeRow(dr)) ==
      if dr.minPort >= 0 && dr.maxPort >= 0 then Some((parsed.0, parsed.1 + [dr])) else None
  {
    var s := PortRangeString(dr);
    NumbersAreNotSpaced(dr.minPort);
    NumbersAreNotSpaced(dr.maxPort);
    ItoaShape(dr.minPort);
    ItoaShape(dr.maxPort);
    assert s[|Itoa(dr.minPort)|] == '-';
    TrimSpaceKeeps(s);
    RangeRoundTrip(dr);
  }

  /** `add` reads a printed row as the entry it was printed from, unless a number is negative. */
  ghost predicate ReadsPort(add: (Option<Parsed>, CsvRow) -> Option<Parsed>, parsed: Parsed, cd: ComDetails)
  {
    add(Some(parsed), PortRow(cd)) == if cd.port >= 0 then Some((parsed.0 + [cd], parsed.1)) else None
  }

  ghost predicate ReadsRange(add: (Option<Parsed>, CsvRow) -> Option<Parsed>, parsed: Parsed, dr: DynamicRange)
  {
    add(Some(parsed), RangeRow(dr)) ==
      if dr.minPort >= 0 && dr.maxPort >= 0 then Some((parsed.0, parsed.1 + [dr])) else None
  }

  ghost predicate ReadsBack(add: (Option<Parsed>, CsvRow) -> Option<Parsed>)
  {
    && (forall r :: add(None, r) == None)
    && (forall parsed, cd :: ReadsPort(add, parsed, cd))
    && (forall parsed, dr :: ReadsRange(add, parsed, dr))
  }

  lemma TakeNext(rows: seq<CsvRow>, r: CsvRow, add: (Option<Parsed>, CsvRow) -> Option<Parsed>)
    ensures TakeRows(rows + [r], add) == add(TakeRows(rows, add), r)
  {
    assert (rows + [r])[..|rows|] == rows;
  }

  lemma {:induction false} PortRowsAreRead(ports: seq<ComDetails>, add: (Option<Parsed>, CsvRow) -> Option<Parsed>)
    requires ReadsBack(add)
    ensures TakeRows(Map(ports, PortRow), add) == if NaturalPorts(ports) then Some((ports, [])) else None
  {
    if ports == [] {
      assert Map(ports, PortRow) == [];
    } else {
      var front, last := ports[..|ports| - 1], ports[|ports| - 1];
      assert ports == front + [last];
      PortRowsAreRead(front, add);
      MapNext(front, last, PortRow);
      TakeNext(Map(front, PortRow), PortRow(last), add);
      assert ReadsPort(add, (front, []), last);
    }
  }

  lemma {:induction false} RangeRowsAreRead(rows: seq<CsvRow>, details: seq<ComDetails>, ranges: seq<DynamicRange>,
                                            add: (Option<Parsed>, CsvRow) -> Option<Parsed>)
    requires ReadsBack(add) && TakeRows(rows, add) == Some((details, []))
    ensures TakeRows(rows + Map(ranges, RangeRow), add) == if NonNegative(ranges) then Some((details, ranges)) else None
  {
    if ranges == [] {
      assert rows + Map(ranges, RangeRow) == rows;
    } else {
      var front, last := ranges[..|ranges| - 1], ranges[|ranges| - 1];
      assert ranges == front + [last];
      RangeRowsAreRead(rows, details, front, add);
      AppendMapNext(rows, front, last, RangeRow);
      TakeNext(rows + Map(front, RangeRow), RangeRow(last), add);
      assert ReadsRange(add, (details, front), last);
    }
  }

  lemma AddRowReadsBack()
    ensures ReadsBack(AddRow)
  {
    forall parsed, cd ensures ReadsPort(AddRow, parsed, cd) { PortRowIsRead(parsed, cd); }
    forall parsed, dr ensures ReadsRange(AddRow, parsed, dr) { RangeRowIsRead(parsed, dr); }
  }

  /** The rows of a matrix parse back to it, in order, exactly when no port and no bound is negative;
      a single negative number makes the whole file unreadable. */
  lemma CsvRoundTrip(ports: seq<ComDetails>, ranges: seq<DynamicRange>)
    ensures ParseRows(Map(ports, PortRow) + Map(ranges, RangeRow)) ==
      if NaturalPorts(ports) && NonNegative(ranges) then Some((ports, ranges)) else None
  {
    var rows := Map(ports, PortRow) + Map(ranges, RangeRow);
    AddRowReadsBack();
    PortRowsAreRead(ports, AddRow);
    assert rows[..|ports|] == Map(ports, PortRow);
    if NaturalPorts(ports) {
      RangeRowsAreRead(Map(ports, PortRow), ports, ranges, AddRow);
    } else {
      ParseStaysFailed(rows, |ports|);
    }
  }
}
