/** The whole program for the firewall formats: from services, nodes, static and custom entries and the
    sockets found on the nodes to the rules of each node group. */
module Pipeline {
  import opened CustomGroups
  import opened EndpointMatrix
  import opened EndpointSlices
  import opened Generate
  import ListeningSockets
  import opened Matrix
  import opened NodeMap
  import opened Nodes
  import opened NormalForm
  import opened PortText
  import opened Text
  import opened Types

  /** A socket of some node asks for `x`. */
  ghost predicate FoundOn(c: ListeningSockets.Cluster, x: ComDetails)
  {
    exists n, y :: n in c && ListeningSockets.IsSocketOf(c[n], y, x)
  }

  /** Everything that asks for a port to be open. */
  ghost predicate Supplied(i: Inputs, c: ListeningSockets.Cluster, x: ComDetails)
  {
    IsEndpointEntry(i, x) || ExpandedFrom(i, x) || IsCustomEntry(i, x) || FoundOn(c, x)
  }

  /** No port is negative, and no two flows print one key. */
  ghost predicate Decided(i: Inputs, c: ListeningSockets.Cluster)
  {
    && (forall x :: Supplied(i, c, x) ==> x.port >= 0)
    && (forall x, y :: Supplied(i, c, x) && Supplied(i, c, y) && Key(x) == Key(y) ==> SameTriple(x, y))
  }

  ghost predicate SuppliesFlow(i: Inputs, c: ListeningSockets.Cluster, g: string, protocol: string, port: int)
  {
    exists x :: Supplied(i, c, x) && x.nodeGroup == g && x.protocol == protocol && x.port == port
  }

  ghost predicate SuppliesGroup(i: Inputs, c: ListeningSockets.Cluster, g: string)
  {
    exists x :: Supplied(i, c, x) && x.nodeGroup == g
  }

  /** The rules of a group admit a port exactly when something supplied for the group or a range asks for it. */
  ghost predicate AdmitsExactly(rules: map<string, NFTables>, i: Inputs, c: ListeningSockets.Cluster)
  {
    var ranges := i.dynamicRanges + if i.custom.Some? then i.custom.value.ranges else [];
    && (forall g :: g in rules <==> g != "" && SuppliesGroup(i, c, g))
    && (forall g, port :: g in rules ==>
      && (Admits(rules[g].tcp, port) <==> SuppliesFlow(i, c, g, "TCP", port) || InSomeRange(ranges, "TCP", port))
      && (Admits(rules[g].udp, port) <==> SuppliesFlow(i, c, g, "UDP", port) || InSomeRange(ranges, "UDP", port)))
  }

  /** The rules print, group by group, the normal form of an endpoint matrix and the sockets, and a squashed
      list of the ranges. */
  ghost predicate AreFilesOf(rules: map<string, NFTables>, i: Inputs, sockets: seq<ComDetails>)
  {
    exists ports :: IsEndpointMatrix(i, ports) && PrintsSquashed(rules, Normalise(ports + sockets), AllRanges(i))
  }

  /** `run` is a finished run of the collection; `sockets` are its details, None when a node failed. */
  ghost predicate Collects(c: ListeningSockets.Cluster, run: seq<ListeningSockets.State>,
                           sockets: Option<seq<ComDetails>>)
  {
    && ListeningSockets.IsRun(c, run) && ListeningSockets.Finished(run[|run| - 1])
    && sockets == if ListeningSockets.Succeeded(run[|run| - 1]) then Some(run[|run| - 1].details) else None
  }

  /** The rules for a cluster, `c` being what is found on its nodes if the open ports are asked for. Nothing
      shows of the schedule of the collection, nor of the order of any set or map. */
  method GenerateRules(services: seq<Service>, staticEntries: seq<ComDetails>, nodes: seq<Node>,
                       customGroups: set<string>, matches: Selector, dynamicRanges: seq<DynamicRange>,
                       custom: Option<MatrixValue>, openPorts: bool, sockets: Option<seq<ComDetails>>,
                       ghost c: ListeningSockets.Cluster, ghost run: seq<ListeningSockets.State>)
    returns (result: Outcome, ghost i: Inputs)
    requires if openPorts then Collects(c, run, sockets) else c == map[] && sockets.None?
    ensures i == Inputs(services, staticEntries, nodes, i.nodeToGroup, dynamicRanges, custom)
    ensures result.Failed? <==>
      || !(HasBaseMap(nodes) && Applicable(matches, nodes, customGroups, Names(nodes)))
      || SomeServiceFails(services) || (openPorts && sockets.None?)
    ensures result.Files? ==> IsNodeMap(i.nodeToGroup, nodes, customGroups, matches)
    ensures result.Files? ==> AreFilesOf(result.rules, i, if openPorts then sockets.value else [])
    ensures result.Files? && Decided(i, c) && NonNegative(AllRanges(i)) ==>
      AdmitsExactly(result.rules, i, c)
  {
    i := Inputs(services, staticEntries, nodes, map[], dynamicRanges, custom);
    var nodeToGroup := BuildNodeMap(nodes, customGroups, matches);
    if nodeToGroup.None? {
      return Failed, i;
    }
    i := Inputs(services, staticEntries, nodes, nodeToGroup.value, dynamicRanges, custom);
    var exporter := new EndpointSlicesExporter(nodeToGroup.value);
    var inputs := Inputs(services, staticEntries, nodes, nodeToGroup.value, dynamicRanges, custom);
    var matrix := CreateEndpointMatrix(exporter, inputs);
    if matrix == null || (openPorts && sockets.None?) {
      return Failed, i;
    }
    var details := if openPorts then sockets.value else [];
    CollectedAreFound(c, run, sockets, openPorts, details);
    result := MergeAndWrite(matrix, openPorts, details, inputs, c);
  }

  /** The collected sockets, if any, merged in, and the rules written. */
  method MergeAndWrite(matrix: ComMatrix, openPorts: bool, details: seq<ComDetails>, ghost i: Inputs,
                       ghost c: ListeningSockets.Cluster) returns (result: Outcome)
    requires IsEndpointMatrix(i, matrix.Ports) && matrix.Ranges() == AllRanges(i)
    requires ListsSockets(c, details) && (!openPorts ==> details == [])
    modifies matrix.RangeStorage()
    ensures result.Files? && AreFilesOf(result.rules, i, details)
    ensures Decided(i, c) && NonNegative(AllRanges(i)) ==> AdmitsExactly(result.rules, i, c)
  {
    var ss: ComMatrix? := null;
    if openPorts {
      ss := SocketMatrix(details);
    } else {
      NormaliseOfNone();
    }
    ghost var ports := matrix.Ports;
    assert InputRanges(matrix, ss) == AllRanges(i);
    assert InputPorts(matrix, ss) == ports + Normalise(details);
    result := WriteMergedMatrix(matrix, ss);
    NormaliseAbsorbs(ports, details);
    assert MergedPorts(matrix, ss) == Normalise(ports + details) by {
      if !openPorts {
        MatrixIsNormal(i, ports);
        assert ports + [] == ports;
      }
    }
    if Decided(i, c) && NonNegative(AllRanges(i)) {
      MatricesDecide(i, c, ports, details);
      RulesAdmitExactly(i, c, ports, details, result.rules);
    }
  }

  lemma NormaliseOfNone()
    ensures Normalise([]) == []
  {
    assert forall x: ComDetails :: FirstOf([], Key(x)) == None;
    NormalFormIsUnique([], []);
  }

  /** The end of GenerateSS: the details of all nodes, normalised. */
  method SocketMatrix(details: seq<ComDetails>) returns (ss: ComMatrix)
    ensures fresh(ss) && fresh(ss.RangeStorage()) && ss.Ports == Normalise(details) && ss.Ranges() == []
  {
    ss := new ComMatrix(details, []);
    ss.SortAndRemoveDuplicates();
  }

  /** On plain inputs nothing stands in the way. */
  lemma PlainIsDecided(i: Inputs, c: ListeningSockets.Cluster)
    requires PlainInputs(i) && ListeningSockets.PortsAreNatural(c)
    ensures Decided(i, c)
  {
    forall x | Supplied(i, c, x) ensures Plain(x) {
      if IsEndpointEntry(i, x) { EndpointEntryIsPlain(i, x); }
      if n, y :| n in c && ListeningSockets.IsSocketOf(c[n], y, x) { assert y.port >= 0; }
      if se, n :| IsCopyFor(i, se, n, x) { assert Plain(se); }
    }
    forall x, y | Supplied(i, c, x) && Supplied(i, c, y) && Key(x) == Key(y) ensures SameTriple(x, y) {
      KeyIsInjective(x, y);
    }
  }

  // ----- Proof -----

  lemma CollectedAreFound(c: ListeningSockets.Cluster, run: seq<ListeningSockets.State>,
                          sockets: Option<seq<ComDetails>>, openPorts: bool, details: seq<ComDetails>)
    requires if openPorts then Collects(c, run, sockets) && sockets.Some? else c == map[]
    requires details == if openPorts then sockets.value else []
    ensures ListsSockets(c, details)
  {
    if openPorts {
      forall x ensures x in details <==> FoundOn(c, x) { ListeningSockets.CollectedExactly(c, run, x); }
    }
  }

  ghost predicate ListsSockets(c: ListeningSockets.Cluster, details: seq<ComDetails>)
  {
    forall x :: x in details <==> FoundOn(c, x)
  }

  /** Every entry of the two matrices is supplied. */
  lemma EntryIsSupplied(i: Inputs, c: ListeningSockets.Cluster, ports: seq<ComDetails>, details: seq<ComDetails>,
                        x: ComDetails)
    requires IsEndpointMatrix(i, ports) && ListsSockets(c, details) && x in ports + Normalise(details)
    ensures Supplied(i, c, x)
  {
    if x in ports {
      EntryHasSource(i, ports, x);
    } else {
      NormaliseIsNormalForm(details);
      FirstOfFinds(details, Key(x));
    }
  }

  /** Everything supplied has its key in one of the two matrices. */
  lemma SuppliedHasEntry(i: Inputs, c: ListeningSockets.Cluster, ports: seq<ComDetails>, details: seq<ComDetails>,
                         x: ComDetails)
    requires IsEndpointMatrix(i, ports) && ListsSockets(c, details) && Supplied(i, c, x)
    ensures HasKey(ports + Normalise(details), Key(x))
  {
    HasKeyAppend(ports, Normalise(details), Key(x));
    if FoundOn(c, x) {
      FirstOfNormalise(details, Key(x));
    } else {
      SourceHasEntry(i, ports, x);
    }
  }

  lemma MatricesDecide(i: Inputs, c: ListeningSockets.Cluster, ports: seq<ComDetails>, details: seq<ComDetails>)
    requires IsEndpointMatrix(i, ports) && ListsSockets(c, details) && Decided(i, c)
    ensures KeysDecide(ports + Normalise(details)) && NaturalPorts(ports + Normalise(details))
  {
    forall x | x in ports + Normalise(details) ensures Supplied(i, c, x) {
      EntryIsSupplied(i, c, ports, details, x);
    }
  }

  /** The matrices have a flow exactly when something supplied has it. */
  lemma FlowsAreSupplied(i: Inputs, c: ListeningSockets.Cluster, ports: seq<ComDetails>, details: seq<ComDetails>,
                         flow: ComDetails)
    requires IsEndpointMatrix(i, ports) && ListsSockets(c, details) && Decided(i, c)
    ensures HasFlow(ports + Normalise(details), flow) <==> exists x :: Supplied(i, c, x) && SameTriple(flow, x)
  {
    var all := ports + Normalise(details);
    if x :| x in all && SameTriple(flow, x) { EntryIsSupplied(i, c, ports, details, x); }
    if x :| Supplied(i, c, x) && SameTriple(flow, x) { var y := SuppliedIsEntry(i, c, ports, details, x); }
  }

  lemma SuppliedIsEntry(i: Inputs, c: ListeningSockets.Cluster, ports: seq<ComDetails>, details: seq<ComDetails>,
                        x: ComDetails) returns (y: ComDetails)
    requires IsEndpointMatrix(i, ports) && ListsSockets(c, details) && Decided(i, c) && Supplied(i, c, x)
    ensures y in ports + Normalise(details) && SameTriple(x, y)
  {
    SuppliedHasEntry(i, c, ports, details, x);
    y :| y in ports + Normalise(details) && Key(y) == Key(x);
    EntryIsSupplied(i, c, ports, details, y);
  }

  lemma RulesAdmitExactly(i: Inputs, c: ListeningSockets.Cluster, ports: seq<ComDetails>, details: seq<ComDetails>,
                          rules: map<string, NFTables>)
    requires IsEndpointMatrix(i, ports) && ListsSockets(c, details) && Decided(i, c)
    requires Denotes(rules, ports + Normalise(details), AllRanges(i))
    ensures AdmitsExactly(rules, i, c)
  {
    var all, ranges := ports + Normalise(details), AllRanges(i);
    forall g ensures Generate.HasGroup(all, g) <==> SuppliesGroup(i, c, g) {
      GroupIsSupplied(i, c, ports, details, g);
    }
    forall g, protocol, port
      ensures Flow(all, ranges, g, protocol, port)
        <==> SuppliesFlow(i, c, g, protocol, port) || InSomeRange(ranges, protocol, port)
    {
      FlowIsSupplied(i, c, ports, details, g, protocol, port);
    }
  }

  lemma GroupIsSupplied(i: Inputs, c: ListeningSockets.Cluster, ports: seq<ComDetails>, details: seq<ComDetails>,
                        g: string)
    requires IsEndpointMatrix(i, ports) && ListsSockets(c, details) && Decided(i, c)
    ensures Generate.HasGroup(ports + Normalise(details), g) <==> SuppliesGroup(i, c, g)
  {
    if x :| (x in ports + Normalise(details) || Supplied(i, c, x)) && x.nodeGroup == g {
      FlowsAreSupplied(i, c, ports, details, x);
      assert SameTriple(x, x);
    }
  }

  lemma FlowIsSupplied(i: Inputs, c: ListeningSockets.Cluster, ports: seq<ComDetails>, details: seq<ComDetails>,
                       g: string, protocol: string, port: int)
    requires IsEndpointMatrix(i, ports) && ListsSockets(c, details) && Decided(i, c)
    ensures var ranges := AllRanges(i);
      (Flow(ports + Normalise(details), ranges, g, protocol, port)
      <==> SuppliesFlow(i, c, g, protocol, port) || InSomeRange(ranges, protocol, port))
  {
    var flow := ComDetails("", protocol, port, "", "", "", "", g, false);
    FlowsAreSupplied(i, c, ports, details, flow);
    if cd :| cd in ports + Normalise(details) && cd.nodeGroup == g && cd.protocol == protocol && cd.port == port {
      assert SameTriple(flow, cd);
    }
    if x :| Supplied(i, c, x) && x.nodeGroup == g && x.protocol == protocol && x.port == port {
      assert SameTriple(flow, x);
    }
  }

  // ----- The collected sockets -----

  /** Something other than a socket asks for the port. */
  ghost predicate AskedFor(i: Inputs, g: string, protocol: string, port: int)
  {
    SuppliesFlow(i, map[], g, protocol, port) || InSomeRange(AllRanges(i), protocol, port)
  }

  /** Some node of the group listens on the port. */
  predicate Listens(c: ListeningSockets.Cluster, g: string, protocol: string, port: int)
  {
    exists n :: n in c && c[n].group == g
      && ((protocol == "TCP" && OnPort(c[n].tcpEntries, port)) || (protocol == "UDP" && OnPort(c[n].udpEntries, port)))
  }

  predicate OnPort(entries: seq<ComDetails>, port: int) { exists x :: x in entries && x.port == port }

  /** A port is open exactly when a source, a range or a listening node of the group asks for it. */
  lemma SocketsAreOpenExactly(i: Inputs, c: ListeningSockets.Cluster, rules: map<string, NFTables>, g: string,
                              port: int)
    requires AdmitsExactly(rules, i, c) && g in rules
    ensures Admits(rules[g].tcp, port) <==> AskedFor(i, g, "TCP", port) || Listens(c, g, "TCP", port)
    ensures Admits(rules[g].udp, port) <==> AskedFor(i, g, "UDP", port) || Listens(c, g, "UDP", port)
  {
    SocketsSupply(i, c, g, "TCP", port);
    SocketsSupply(i, c, g, "UDP", port);
  }

  lemma SocketsSupply(i: Inputs, c: ListeningSockets.Cluster, g: string, protocol: string, port: int)
    ensures SuppliesFlow(i, c, g, protocol, port)
      <==> SuppliesFlow(i, map[], g, protocol, port) || Listens(c, g, protocol, port)
  {
    if x :| Supplied(i, c, x) && x.nodeGroup == g && x.protocol == protocol && x.port == port {
      if FoundOn(c, x) { FoundIsListening(c, x); } else { assert Supplied(i, map[], x); }
    }
    if x :| Supplied(i, map[], x) && x.nodeGroup == g && x.protocol == protocol && x.port == port {
      assert Supplied(i, c, x);
    }
    if Listens(c, g, protocol, port) {
      var x := ListeningIsFound(c, g, protocol, port);
      assert Supplied(i, c, x);
    }
  }

  lemma FoundIsListening(c: ListeningSockets.Cluster, x: ComDetails)
    requires FoundOn(c, x)
    ensures Listens(c, x.nodeGroup, x.protocol, x.port)
  {
    var n, y :| n in c && ListeningSockets.IsSocketOf(c[n], y, x);
    assert OnPort(if x.protocol == "TCP" then c[n].tcpEntries else c[n].udpEntries, x.port);
  }

  lemma ListeningIsFound(c: ListeningSockets.Cluster, g: string, protocol: string, port: int) returns (x: ComDetails)
    requires Listens(c, g, protocol, port)
    ensures FoundOn(c, x) && x.nodeGroup == g && x.protocol == protocol && x.port == port
  {
    var n :| n in c && c[n].group == g
      && ((protocol == "TCP" && OnPort(c[n].tcpEntries, port)) || (protocol == "UDP" && OnPort(c[n].udpEntries, port)));
    var entries := if protocol == "TCP" then c[n].tcpEntries else c[n].udpEntries;
    var y :| y in entries && y.port == port;
    x := y.(protocol := protocol, nodeGroup := g, optional := false);
    assert ListeningSockets.IsSocketOf(c[n], y, x);
  }
}
