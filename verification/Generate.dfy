/** From two matrices to firewall rules: merge, squash, split by node group, print. */
module Generate {
  import opened Matrix
  import opened NormalForm
  import opened PortText
  import opened Seqs
  import opened Sorting
  import opened Squash
  import opened Text
  import opened Types

  /** The files written, by node group, or the error for a nil matrix. */
  datatype Outcome = Files(rules: map<string, NFTables>) | Failed

  function RulesFor(ports: seq<ComDetails>, ranges: seq<DynamicRange>, g: string): NFTables
  {
    NFTables(PortList(GroupEntries(ports, g), ranges, "TCP"), PortList(GroupEntries(ports, g), ranges, "UDP"))
  }

  predicate HasGroup(ports: seq<ComDetails>, g: string)
  {
    exists cd :: cd in ports && cd.nodeGroup == g
  }

  /** One rule set for each node group; groups without entries are skipped. */
  method WriteMatrixToFileByType(m: ComMatrix) returns (files: map<string, NFTables>)
    ensures forall g :: g in files <==> g != "" && HasGroup(m.Ports, g)
    ensures forall g :: g in files ==> files[g] == RulesFor(m.Ports, m.Ranges(), g)
  {
    var pools := m.SeparateMatrixByGroup();
    files := map[];
    var remaining := pools.Keys;
    while remaining != {}
      invariant remaining <= pools.Keys
      invariant files.Keys == pools.Keys - remaining
      invariant forall g :: g in files ==> files[g] == RulesFor(m.Ports, m.Ranges(), g)
    {
      var pool :| pool in remaining;
      var mat := pools[pool];
      FilterHas(m.Ports, (cd: ComDetails) => cd.nodeGroup == pool);
      if |mat.ports| != 0 {
        var rules := ToNFTables(mat.ports, mat.ranges);
        files := files[pool := rules];
      }
      remaining := remaining - {pool};
    }
  }

  // ----- What the inputs say -----

  ghost function InputPorts(matrix: ComMatrix, ss: ComMatrix?): seq<ComDetails>
    reads matrix, ss
  {
    if ss == null then matrix.Ports else matrix.Ports + ss.Ports
  }

  ghost function InputRanges(matrix: ComMatrix, ss: ComMatrix?): seq<DynamicRange>
    reads matrix, matrix.RangeStorage(), ss, if ss == null then {} else ss.RangeStorage()
  {
    if ss == null then matrix.Ranges() else matrix.Ranges() + ss.Ranges()
  }

  /** Some entry of the group and protocol has the port, or some range of the protocol holds it. */
  ghost predicate Flow(ports: seq<ComDetails>, ranges: seq<DynamicRange>, g: string, protocol: string, port: int)
  {
    || (exists cd :: cd in ports && cd.nodeGroup == g && cd.protocol == protocol && cd.port == port)
    || InSomeRange(ranges, protocol, port)
  }

  /** The rules of every group with an entry, and of no other, admit exactly the flows of the inputs. */
  ghost predicate Denotes(rules: map<string, NFTables>, ports: seq<ComDetails>, ranges: seq<DynamicRange>)
  {
    && (forall g :: g in rules <==> g != "" && HasGroup(ports, g))
    && (forall g, port :: g in rules ==>
      && (Admits(rules[g].tcp, port) <==> Flow(ports, ranges, g, "TCP", port))
      && (Admits(rules[g].udp, port) <==> Flow(ports, ranges, g, "UDP", port)))
  }

  // ----- What the files hold -----

  /** The ports of both matrices after the merge: as they are, or the normal form of both. */
  ghost function MergedPorts(matrix: ComMatrix, ss: ComMatrix?): seq<ComDetails>
    reads matrix, ss
  {
    if ss == null then matrix.Ports else Normalise(matrix.Ports + ss.Ports)
  }

  /** The rules print, for every group with an entry, its ports and then all of the ranges, in order. */
  ghost predicate Prints(rules: map<string, NFTables>, ports: seq<ComDetails>, ranges: seq<DynamicRange>)
  {
    && (forall g :: g in rules <==> g != "" && HasGroup(ports, g))
    && (forall g :: g in rules ==>
      && rules[g].tcp == PortList(GroupEntries(ports, g), ranges, "TCP")
      && rules[g].udp == PortList(GroupEntries(ports, g), ranges, "UDP"))
  }

  /** Read back as numbers, that is what every file holds. */
  ghost predicate ReadsBack(rules: map<string, NFTables>, ports: seq<ComDetails>, ranges: seq<DynamicRange>)
  {
    forall g :: g in rules ==>
      && ReadPortList(rules[g].tcp)
           == Some(PortElements(GroupEntries(ports, g), "TCP") + RangeElements(ranges, "TCP"))
      && ReadPortList(rules[g].udp)
           == Some(PortElements(GroupEntries(ports, g), "UDP") + RangeElements(ranges, "UDP"))
  }

  /** One squashed list of the ranges is printed in every file. Of two printed ranges of one flow the first
      ends, and a port is left out, before the second starts. */
  ghost predicate PrintsSquashed(rules: map<string, NFTables>, ports: seq<ComDetails>, ranges: seq<DynamicRange>)
  {
    exists r :: PrintsAs(rules, ports, ranges, r)
  }

  ghost predicate PrintsAs(rules: map<string, NFTables>, ports: seq<ComDetails>, ranges: seq<DynamicRange>,
                           r: seq<DynamicRange>)
  {
    && SquashesTo(ranges, r) && Prints(rules, ports, r)
    && (forall i, j :: 0 <= i < j < |r| && SameFlow(r[i], r[j]) ==> r[i].maxPort + 1 < r[j].minPort)
    && (NaturalPorts(ports) && NonNegative(ranges) ==> ReadsBack(rules, ports, r))
  }

  lemma PrintedIsSquashed(rules: map<string, NFTables>, ports: seq<ComDetails>, ranges: seq<DynamicRange>,
                          r: seq<DynamicRange>)
    requires SquashesTo(ranges, r) && Prints(rules, ports, r)
    ensures PrintsSquashed(rules, ports, ranges)
  {
    SquashSeparates(ranges, r);
    forall i, j | 0 <= i < j < |r| && SameFlow(r[i], r[j]) ensures r[i].maxPort + 1 < r[j].minPort {
      assert Before(r[i], r[j]);
    }
    if NaturalPorts(ports) && NonNegative(ranges) {
      SquashKeepsBounds(ranges, r);
      forall g ensures NaturalPorts(GroupEntries(ports, g)) {
        FilterHas(ports, (cd: ComDetails) => cd.nodeGroup == g);
      }
      forall g | g in rules
        ensures ReadPortList(rules[g].tcp)
             == Some(PortElements(GroupEntries(ports, g), "TCP") + RangeElements(r, "TCP"))
        ensures ReadPortList(rules[g].udp)
             == Some(PortElements(GroupEntries(ports, g), "UDP") + RangeElements(r, "UDP"))
      {
        PortListRoundTrip(GroupEntries(ports, g), r, "TCP");
        PortListRoundTrip(GroupEntries(ports, g), r, "UDP");
      }
    }
    assert PrintsAs(rules, ports, ranges, r);
  }

  /** No number is negative and, unless the ports come from a single matrix, no two flows share a key. */
  ghost predicate ArePrintable(ports: seq<ComDetails>, single: bool, ranges: seq<DynamicRange>)
  {
    (single || KeysDecide(ports)) && NaturalPorts(ports) && NonNegative(ranges)
  }

  /** `ss` is the listening-sockets matrix, null when there is none. With one, neither input matrix is
      touched; without one, the ranges of `matrix` itself are squashed. */
  method WriteMergedMatrix(matrix: ComMatrix?, ss: ComMatrix?) returns (result: Outcome)
    modifies if matrix == null || ss != null then {} else matrix.RangeStorage()
    ensures result.Failed? <==> matrix == null
    ensures matrix != null ==> matrix.Ports == old(matrix.Ports)
    ensures matrix != null ==> PrintsSquashed(result.rules, MergedPorts(matrix, ss), old(InputRanges(matrix, ss)))
    ensures matrix != null && ArePrintable(InputPorts(matrix, ss), ss == null, old(InputRanges(matrix, ss))) ==>
      Denotes(result.rules, InputPorts(matrix, ss), old(InputRanges(matrix, ss)))
  {
    if matrix == null {
      return Failed;
    }
    ghost var ports := InputPorts(matrix, ss);
    var merged := matrix;
    if ss != null {
      merged := ComMatrix.Merge(matrix, ss);
    }
    assert merged.Ports == MergedPorts(matrix, ss) && merged.Ranges() == InputRanges(matrix, ss);
    var files := SquashAndWrite(merged, ports);
    result := Files(files);
  }

  method SquashAndWrite(m: ComMatrix, ghost ports: seq<ComDetails>) returns (files: map<string, NFTables>)
    requires m.Ports == ports || m.Ports == Normalise(ports)
    modifies m.RangeStorage()
    ensures PrintsSquashed(files, m.Ports, old(m.Ranges()))
    ensures ArePrintable(ports, m.Ports == ports, old(m.Ranges())) ==>
      Denotes(files, ports, old(m.Ranges()))
  {
    ghost var ranges := m.Ranges();
    m.DynamicRanges.Squash();
    files := WriteMatrixToFileByType(m);
    PrintedIsSquashed(files, m.Ports, ranges, m.Ranges());
    if ArePrintable(ports, m.Ports == ports, ranges) {
      RulesDenote(ports, m.Ports, ranges, m.Ranges(), files);
    }
  }

  // ----- Proof -----

  /** The ports of the merge: those of the one matrix, or the normal form of both with every flow kept. */
  ghost predicate IsMergeOf(merged: seq<ComDetails>, ports: seq<ComDetails>)
  {
    merged == ports || (merged == Normalise(ports) && KeysDecide(ports))
  }

  lemma MergeKeepsFlows(merged: seq<ComDetails>, ports: seq<ComDetails>, x: ComDetails)
    requires IsMergeOf(merged, ports)
    ensures HasFlow(merged, x) <==> HasFlow(ports, x)
    ensures NaturalPorts(ports) ==> NaturalPorts(merged)
  {
    if merged != ports {
      NormaliseKeepsFlows(ports, x);
      NormaliseIsNormalForm(ports);
      forall y | y in merged ensures y in ports { FirstOfFinds(ports, Key(y)); }
    }
  }

  lemma RulesDenote(ports: seq<ComDetails>, merged: seq<ComDetails>, ranges: seq<DynamicRange>,
                    squashed: seq<DynamicRange>, rules: map<string, NFTables>)
    requires IsMergeOf(merged, ports) && NaturalPorts(ports) && NonNegative(ranges)
    requires SquashesTo(ranges, squashed)
    requires forall g :: g in rules <==> g != "" && HasGroup(merged, g)
    requires forall g :: g in rules ==> rules[g] == RulesFor(merged, squashed, g)
    ensures Denotes(rules, ports, ranges)
  {
    forall g ensures HasGroup(merged, g) <==> HasGroup(ports, g) {
      SameGroups(ports, merged, g);
    }
    forall g, port | g in rules
      ensures Admits(rules[g].tcp, port) <==> Flow(ports, ranges, g, "TCP", port)
      ensures Admits(rules[g].udp, port) <==> Flow(ports, ranges, g, "UDP", port)
    {
      PrintedFlows(ports, merged, ranges, squashed, g, "TCP", port);
      PrintedFlows(ports, merged, ranges, squashed, g, "UDP", port);
    }
  }

  lemma SameGroups(ports: seq<ComDetails>, merged: seq<ComDetails>, g: string)
    requires IsMergeOf(merged, ports)
    ensures HasGroup(merged, g) <==> HasGroup(ports, g)
  {
    if cd :| (cd in ports || cd in merged) && cd.nodeGroup == g {
      MergeKeepsFlows(merged, ports, cd);
      assert SameTriple(cd, cd);
    }
  }

  lemma PrintedFlows(ports: seq<ComDetails>, merged: seq<ComDetails>, ranges: seq<DynamicRange>,
                     squashed: seq<DynamicRange>, g: string, protocol: string, port: int)
    requires IsMergeOf(merged, ports) && NaturalPorts(ports) && NonNegative(ranges)
    requires SquashesTo(ranges, squashed)
    ensures Admits(PortList(GroupEntries(merged, g), squashed, protocol), port)
      <==> Flow(ports, ranges, g, protocol, port)
  {
    var entries := GroupEntries(merged, g);
    FilterHas(merged, (cd: ComDetails) => cd.nodeGroup == g);
    var flow := ComDetails("", protocol, port, "", "", "", "", g, false);
    MergeKeepsFlows(merged, ports, flow);
    SquashKeepsBounds(ranges, squashed);
    PortListAdmits(entries, squashed, protocol, port);
    assert OpenPort(entries, protocol, port)
      <==> exists cd :: cd in ports && cd.nodeGroup == g && cd.protocol == protocol && cd.port == port by {
      if cd :| cd in entries && cd.protocol == protocol && cd.port == port {
        assert HasFlow(merged, flow);
      }
      if cd :| cd in ports && cd.nodeGroup == g && cd.protocol == protocol && cd.port == port {
        assert HasFlow(ports, flow);
        var kept :| kept in merged && SameTriple(flow, kept);
        assert kept in entries;
      }
    }
    SquashKeepsCover(ranges, squashed);
    CoverDecidesRanges(ranges, squashed, protocol, port);
    CoverDecidesRanges(squashed, ranges, protocol, port);
  }

  lemma CoverDecidesRanges(s: seq<DynamicRange>, t: seq<DynamicRange>, protocol: string, port: int)
    requires SameCover(s, t)
    ensures InSomeRange(s, protocol, port) ==> InSomeRange(t, protocol, port)
  {
    if r :| r in s && r.protocol == protocol && r.minPort <= port <= r.maxPort {
      assert Holds(r, r.direction, protocol, port);
      assert Covers(s, r.direction, protocol, port) <==> Covers(t, r.direction, protocol, port);
    }
  }

  lemma SquashKeepsBounds(ranges: seq<DynamicRange>, squashed: seq<DynamicRange>)
    requires SquashesTo(ranges, squashed) && NonNegative(ranges)
    ensures NonNegative(squashed)
  {
    var t :| IsSortOf(CompareRanges, t, ranges) && squashed == Sweep(t);
    SameElements(t, ranges);
    SweepKeepsBounds(t);
  }

  lemma {:induction false} SweepKeepsBounds(s: seq<DynamicRange>)
    requires NonNegative(s)
    ensures NonNegative(Sweep(s))
  {
    if s != [] { SweepKeepsBounds(s[..|s| - 1]); }
  }
}
