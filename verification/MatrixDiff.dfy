/** The diff of two matrices: a status looked up by printed line, against presence decided by key. */
module MatrixDiff {
  import opened Matrix
  import opened NormalForm
  import opened Seqs
  import opened Sorting
  import opened Text
  import opened Types

  datatype Status = Both | UniquePrimary | UniqueSecondary

  datatype Diff = Diff(ports: seq<ComDetails>, cdToStatus: map<string, Status>)

  /** `ComDetails.String`: the nine fields separated by commas. */
  function Line(cd: ComDetails): string
  {
    cd.direction + "," + (cd.protocol + "," + (Itoa(cd.port) + "," + Rest(cd)))
  }

  function Rest(cd: ComDetails): string
  {
    cd.namespace + "," + cd.service + "," + cd.pod + "," + cd.container + "," + cd.nodeGroup + ","
    + FormatBool(cd.optional)
  }

  /** A lookup in the status map; Go gives a missing line the zero value, `both`. */
  function StatusOf(cdToStatus: map<string, Status>, cd: ComDetails): Status
  {
    if Line(cd) in cdToStatus then cdToStatus[Line(cd)] else Both
  }

  /** One loop of Generate: later entries overwrite the status of earlier ones that print alike. */
  function Mark(init: map<string, Status>, ports: seq<ComDetails>, other: seq<ComDetails>,
                unique: Status): map<string, Status>
  {
    if ports == [] then init
    else MarkEntry(Mark(init, ports[..|ports| - 1], other, unique), ports[|ports| - 1], other, unique)
  }

  function MarkEntry(m: map<string, Status>, cd: ComDetails, other: seq<ComDetails>,
                     unique: Status): map<string, Status>
  {
    m[Line(cd) := if HasKey(other, Key(cd)) then Both else unique]
  }

  function Statuses(primary: seq<ComDetails>, secondary: seq<ComDetails>): map<string, Status>
  {
    Mark(Mark(map[], primary, secondary, UniquePrimary), secondary, primary, UniqueSecondary)
  }

  ghost predicate IsDiff(d: Diff, primary: seq<ComDetails>, secondary: seq<ComDetails>)
  {
    d.ports == Normalise(primary + secondary) && d.cdToStatus == Statuses(primary, secondary)
  }

  method Generate(primary: ComMatrix, secondary: ComMatrix) returns (d: Diff)
    ensures IsDiff(d, primary.Ports, secondary.Ports)
  {
    var matrix := new ComMatrix([], []);
    var epsStatus := Collect(matrix, primary, secondary, UniquePrimary, map[]);
    epsStatus := Collect(matrix, secondary, primary, UniqueSecondary, epsStatus);
    assert [] + primary.Ports == primary.Ports;
    matrix.SortAndRemoveDuplicates();
    d := Diff(matrix.Ports, epsStatus);
  }

  /** One of the two loops of Generate. */
  method Collect(matrix: ComMatrix, from: ComMatrix, other: ComMatrix, unique: Status, init: map<string, Status>)
    returns (epsStatus: map<string, Status>)
    requires matrix != from && matrix != other
    modifies matrix`Ports
    ensures matrix.Ports == old(matrix.Ports) + from.Ports
    ensures epsStatus == Mark(init, from.Ports, other.Ports, unique)
  {
    epsStatus := init;
    var ports := from.Ports;
    for i := 0 to |ports|
      invariant matrix.Ports == old(matrix.Ports) + ports[..i]
      invariant epsStatus == Mark(init, ports[..i], other.Ports, unique)
    {
      MarkNext(init, ports[..i], ports[i], other.Ports, unique);
      assert ports[..i + 1] == ports[..i] + [ports[i]];
      matrix.Ports := matrix.Ports + [ports[i]];
      epsStatus := MarkOne(epsStatus, ports[i], other, unique);
    }
    assert ports[..|ports|] == ports;
  }

  /** The body of the loop: shared, unless the other matrix does not contain the entry. */
  method MarkOne(init: map<string, Status>, cd: ComDetails, other: ComMatrix,
                 unique: Status) returns (epsStatus: map<string, Status>)
    ensures epsStatus == MarkEntry(init, cd, other.Ports, unique)
  {
    epsStatus := init[Line(cd) := Both];
    var found := other.Contains(cd);
    if !found {
      epsStatus := epsStatus[Line(cd) := unique];
    }
  }

  lemma MarkNext(init: map<string, Status>, ports: seq<ComDetails>, cd: ComDetails, other: seq<ComDetails>,
                 unique: Status)
    ensures Mark(init, ports + [cd], other, unique) == MarkEntry(Mark(init, ports, other, unique), cd, other, unique)
  {
    assert (ports + [cd])[..|ports|] == ports;
  }

  /** GetUniquePrimary, GetUniqueSecondary and GetSharedEntries, by the status they ask for. */
  method EntriesWith(d: Diff, status: Status) returns (res: seq<ComDetails>)
    ensures res == Entries(d, status)
  {
    res := [];
    ghost var keep := HasStatus(d.cdToStatus, status);
    for i := 0 to |d.ports|
      invariant res == Filter(d.ports[..i], keep)
    {
      FilterNext(d.ports, i, keep);
      if StatusOf(d.cdToStatus, d.ports[i]) == status {
        res := res + [d.ports[i]];
      }
    }
    assert d.ports[..|d.ports|] == d.ports;
  }

  function HasStatus(cdToStatus: map<string, Status>, status: Status): ComDetails -> bool
  {
    (cd: ComDetails) => StatusOf(cdToStatus, cd) == status
  }

  function Entries(d: Diff, status: Status): seq<ComDetails>
  {
    Filter(d.ports, HasStatus(d.cdToStatus, status))
  }

  // ----- Lines against keys -----

  predicate CommaFree(s: seq<ComDetails>)
  {
    forall cd :: cd in s ==> ',' !in cd.direction && ',' !in cd.protocol && ',' !in cd.nodeGroup
  }

  /** Entries that print alike share a key: the commas that may hide in the middle fields cannot reach
      the fields of the key. */
  lemma LineDeterminesKey(a: ComDetails, b: ComDetails)
    requires CommaFree([a, b]) && Line(a) == Line(b)
    ensures Key(a) == Key(b)
  {
    assert a in [a, b] && b in [a, b];
    ItoaShape(a.port);
    ItoaShape(b.port);
    FirstSeparatorIsUnique(',', a.direction, a.protocol + "," + (Itoa(a.port) + "," + Rest(a)),
                           b.direction, b.protocol + "," + (Itoa(b.port) + "," + Rest(b)));
    FirstSeparatorIsUnique(',', a.protocol, Itoa(a.port) + "," + Rest(a), b.protocol, Itoa(b.port) + "," + Rest(b));
    FirstSeparatorIsUnique(',', Itoa(a.port), Rest(a), Itoa(b.port), Rest(b));
    RestDeterminesGroup(a, b);
  }

  lemma RestDeterminesGroup(a: ComDetails, b: ComDetails)
    requires ',' !in a.nodeGroup && ',' !in b.nodeGroup && Rest(a) == Rest(b)
    ensures a.nodeGroup == b.nodeGroup
  {
    var x := a.namespace + "," + a.service + "," + a.pod + "," + a.container;
    var y := b.namespace + "," + b.service + "," + b.pod + "," + b.container;
    LastSeparatorIsUnique(',', x + "," + a.nodeGroup, FormatBool(a.optional), y + "," + b.nodeGroup,
                          FormatBool(b.optional));
    LastSeparatorIsUnique(',', x, a.nodeGroup, y, b.nodeGroup);
  }

  predicate Printed(s: seq<ComDetails>, cd: ComDetails)
  {
    exists x :: x in s && Line(x) == Line(cd)
  }

  lemma {:induction false} MarkDecides(init: map<string, Status>, ports: seq<ComDetails>, other: seq<ComDetails>,
                                       unique: Status, cd: ComDetails)
    requires CommaFree(ports) && CommaFree([cd])
    ensures StatusOf(Mark(init, ports, other, unique), cd) ==
      if !Printed(ports, cd) then StatusOf(init, cd) else if HasKey(other, Key(cd)) then Both else unique
  {
    if ports != [] {
      var front, last := ports[..|ports| - 1], ports[|ports| - 1];
      MarkDecides(init, front, other, unique, cd);
      EntryDecides(Mark(init, front, other, unique), front, last, other, unique, cd);
      assert ports == front + [last];
    }
  }

  lemma EntryDecides(m: map<string, Status>, front: seq<ComDetails>, last: ComDetails, other: seq<ComDetails>,
                     unique: Status, cd: ComDetails)
    requires CommaFree(front + [last]) && CommaFree([cd])
    ensures Printed(front + [last], cd) <==> Printed(front, cd) || Line(last) == Line(cd)
    ensures StatusOf(MarkEntry(m, last, other, unique), cd) ==
      if Line(last) != Line(cd) then StatusOf(m, cd) else if HasKey(other, Key(cd)) then Both else unique
  {
    assert cd in [cd] && last in front + [last];
    if x :| x in front && Line(x) == Line(cd) { assert x in front + [last]; }
    if Line(last) == Line(cd) { LineDeterminesKey(last, cd); }
  }

  /** The status of a combined entry says in which of the matrices its key occurs. */
  function StatusByKey(primary: seq<ComDetails>, secondary: seq<ComDetails>, k: string): Status
  {
    if !HasKey(secondary, k) then UniquePrimary else if !HasKey(primary, k) then UniqueSecondary else Both
  }

  lemma StatusIsByKey(primary: seq<ComDetails>, secondary: seq<ComDetails>, cd: ComDetails)
    requires CommaFree(primary) && CommaFree(secondary)
    requires cd in Normalise(primary + secondary)
    ensures StatusOf(Statuses(primary, secondary), cd) == StatusByKey(primary, secondary, Key(cd))
  {
    NormaliseIsNormalForm(primary + secondary);
    FirstOfFinds(primary + secondary, Key(cd));
    assert cd in primary || cd in secondary;
    assert CommaFree([cd]);
    MarkDecides(map[], primary, secondary, UniquePrimary, cd);
    MarkDecides(Mark(map[], primary, secondary, UniquePrimary), secondary, primary, UniqueSecondary, cd);
    PrintedHasKey(primary, cd);
    PrintedHasKey(secondary, cd);
  }

  lemma PrintedHasKey(s: seq<ComDetails>, cd: ComDetails)
    requires CommaFree(s) && CommaFree([cd])
    ensures cd in s ==> Printed(s, cd)
    ensures Printed(s, cd) ==> HasKey(s, Key(cd))
  {
    assert cd in [cd];
    if x :| x in s && Line(x) == Line(cd) { LineDeterminesKey(x, cd); }
  }

  // ----- The diff is set difference -----

  /** What each projection holds, entry for entry; shared entries carry the primary's details. */
  lemma ProjectionsAreSetDifferences(d: Diff, p: seq<ComDetails>, s: seq<ComDetails>, x: ComDetails)
    requires IsDiff(d, p, s) && CommaFree(p) && CommaFree(s)
    ensures x in Entries(d, UniquePrimary) <==> FirstOf(p, Key(x)) == Some(x) && !HasKey(s, Key(x))
    ensures x in Entries(d, UniqueSecondary) <==> FirstOf(s, Key(x)) == Some(x) && !HasKey(p, Key(x))
    ensures x in Entries(d, Both) <==> FirstOf(p, Key(x)) == Some(x) && HasKey(s, Key(x))
  {
    forall status ensures x in Entries(d, status) <==> x in d.ports && StatusOf(d.cdToStatus, x) == status {
      FilterHas(d.ports, HasStatus(d.cdToStatus, status));
    }
    NormaliseIsNormalForm(p + s);
    FirstOfAppend(p, s, Key(x));
    FirstOfFinds(p, Key(x));
    FirstOfFinds(s, Key(x));
    if x in d.ports { StatusIsByKey(p, s, x); }
  }

  /** The keys of the projections are primary minus secondary, secondary minus primary, and both. */
  lemma ProjectionKeys(d: Diff, p: seq<ComDetails>, s: seq<ComDetails>, k: string)
    requires IsDiff(d, p, s) && CommaFree(p) && CommaFree(s)
    ensures HasKey(Entries(d, UniquePrimary), k) <==> HasKey(p, k) && !HasKey(s, k)
    ensures HasKey(Entries(d, UniqueSecondary), k) <==> HasKey(s, k) && !HasKey(p, k)
    ensures HasKey(Entries(d, Both), k) <==> HasKey(p, k) && HasKey(s, k)
  {
    forall x
      ensures x in Entries(d, UniquePrimary) <==> FirstOf(p, Key(x)) == Some(x) && !HasKey(s, Key(x))
      ensures x in Entries(d, UniqueSecondary) <==> FirstOf(s, Key(x)) == Some(x) && !HasKey(p, Key(x))
      ensures x in Entries(d, Both) <==> FirstOf(p, Key(x)) == Some(x) && HasKey(s, Key(x))
    {
      ProjectionsAreSetDifferences(d, p, s, x);
      FirstOfFinds(p, Key(x));
      FirstOfFinds(s, Key(x));
    }
    FirstOfFinds(p, k);
    FirstOfFinds(s, k);
    if HasKey(p, k) { assert Key(FirstOf(p, k).value) == k; }
    if HasKey(s, k) { assert Key(FirstOf(s, k).value) == k; }
    forall x | Key(x) == k ensures FirstOf(p, Key(x)) == Some(x) ==> HasKey(p, k) {}
    forall x | Key(x) == k ensures FirstOf(s, Key(x)) == Some(x) ==> HasKey(s, k) {}
  }

  /** The projections share the combined entries out, each as often as it is combined: by keys, into those of
      the primary alone, of the secondary alone, and of both. */
  lemma ProjectionsPartition(d: Diff, p: seq<ComDetails>, s: seq<ComDetails>)
    requires IsDiff(d, p, s) && CommaFree(p) && CommaFree(s)
    ensures multiset(Entries(d, UniquePrimary)) + multiset(Entries(d, UniqueSecondary)) + multiset(Entries(d, Both))
         == multiset(Normalise(p + s))
    ensures forall x :: x in Entries(d, UniquePrimary) ==> HasKey(p, Key(x)) && !HasKey(s, Key(x))
    ensures forall x :: x in Entries(d, UniqueSecondary) ==> HasKey(s, Key(x)) && !HasKey(p, Key(x))
    ensures forall x :: x in Entries(d, Both) ==> HasKey(p, Key(x)) && HasKey(s, Key(x))
  {
    FilterPartition(d.ports, HasStatus(d.cdToStatus, UniquePrimary), HasStatus(d.cdToStatus, UniqueSecondary),
                    HasStatus(d.cdToStatus, Both));
    forall x
      ensures x in Entries(d, UniquePrimary) ==> HasKey(p, Key(x)) && !HasKey(s, Key(x))
      ensures x in Entries(d, UniqueSecondary) ==> HasKey(s, Key(x)) && !HasKey(p, Key(x))
      ensures x in Entries(d, Both) ==> HasKey(p, Key(x)) && HasKey(s, Key(x))
    {
      ProjectionKeys(d, p, s, Key(x));
    }
  }

  lemma {:induction false} FilterKeepsOrder(s: seq<ComDetails>, keep: ComDetails -> bool)
    requires StrictlySorted(CompareDetails, s)
    ensures StrictlySorted(CompareDetails, Filter(s, keep))
  {
    if s != [] {
      var front, last := s[..|s| - 1], s[|s| - 1];
      FilterKeepsOrder(front, keep);
      FilterHas(front, keep);
      forall x | x in Filter(front, keep) ensures CompareDetails(x, last) < 0 {
        var i :| 0 <= i < |front| && front[i] == x;
        assert s[i] == x;
      }
    }
  }

  lemma EntriesAreSorted(d: Diff, p: seq<ComDetails>, s: seq<ComDetails>, status: Status)
    requires IsDiff(d, p, s)
    ensures StrictlySorted(CompareDetails, Entries(d, status))
  {
    NormaliseIsNormalForm(p + s);
    FilterKeepsOrder(d.ports, HasStatus(d.cdToStatus, status));
  }

  /** Swapping the matrices swaps the unique entries, as exact sequences. */
  lemma DiffSwaps(d: Diff, e: Diff, p: seq<ComDetails>, s: seq<ComDetails>)
    requires IsDiff(d, p, s) && IsDiff(e, s, p) && CommaFree(p) && CommaFree(s)
    ensures Entries(d, UniqueSecondary) == Entries(e, UniquePrimary)
  {
    EntriesAreSorted(d, p, s, UniqueSecondary);
    EntriesAreSorted(e, s, p, UniquePrimary);
    CompareDetailsIsComparator();
    forall x ensures x in Entries(d, UniqueSecondary) <==> x in Entries(e, UniquePrimary) {
      ProjectionsAreSetDifferences(d, p, s, x);
      ProjectionsAreSetDifferences(e, s, p, x);
    }
    StrictSortIsUnique(CompareDetails, Entries(d, UniqueSecondary), Entries(e, UniquePrimary));
  }

  /** The unique entries of the primary and the shared ones, merged, are the normalised primary. */
  lemma DiffRebuildsPrimary(d: Diff, p: seq<ComDetails>, s: seq<ComDetails>)
    requires IsDiff(d, p, s) && CommaFree(p) && CommaFree(s)
    ensures Normalise(Entries(d, UniquePrimary) + Entries(d, Both)) == Normalise(p)
  {
    var u, b := Entries(d, UniquePrimary), Entries(d, Both);
    forall k ensures FirstOf(u + b, k) == FirstOf(p, k) {
      FirstOfAppend(u, b, k);
      FirstOfFinds(u, k);
      FirstOfFinds(b, k);
      FirstOfFinds(p, k);
      ProjectionKeys(d, p, s, k);
      if FirstOf(u, k).Some? { ProjectionsAreSetDifferences(d, p, s, FirstOf(u, k).value); }
      if FirstOf(b, k).Some? { ProjectionsAreSetDifferences(d, p, s, FirstOf(b, k).value); }
    }
    SameFirstsSameNormalForm(u + b, p);
  }
}
