/** Ports and port ranges as text: the printers, the parser, and the port lists of a firewall rule. */
module PortText {
  import opened Seqs
  import opened Text
  import opened Types

  // ----- One range -----

  function PortRangeString(dr: DynamicRange): string
  {
    Itoa(dr.minPort) + "-" + Itoa(dr.maxPort)
  }

  function ParsePortRangeHyphen(s: string): Option<(int, int)>
  {
    var parts := Split(TrimSpace(s), '-');
    if |parts| != 2 then None
    else
      var minPort, maxPort := Atoi(TrimSpace(parts[0])), Atoi(TrimSpace(parts[1]));
      if minPort.None? || maxPort.None? then None else Some((minPort.value, maxPort.value))
  }

  lemma TrimSpaceKeeps(s: string)
    requires s != [] && !IsSpace(s[0]) && !IsSpace(s[|s| - 1])
    ensures TrimSpace(s) == s
  {}

  lemma NumbersAreNotSpaced(n: int)
    ensures var s := Itoa(n); !IsSpace(s[0]) && !IsSpace(s[|s| - 1])
    ensures TrimSpace(Itoa(n)) == Itoa(n)
  {
    var s := Itoa(n);
    ItoaShape(n);
    assert s[0] in s && s[|s| - 1] in s;
  }

  /** Parsing inverts printing exactly when neither bound is negative; otherwise it reports an error. */
  lemma RangeRoundTrip(dr: DynamicRange)
    ensures ParsePortRangeHyphen(PortRangeString(dr)) ==
      if dr.minPort >= 0 && dr.maxPort >= 0 then Some((dr.minPort, dr.maxPort)) else None
  {
    var lo, hi := Itoa(dr.minPort), Itoa(dr.maxPort);
    var s := lo + "-" + hi;
    NumbersAreNotSpaced(dr.minPort);
    NumbersAreNotSpaced(dr.maxPort);
    ItoaShape(dr.minPort);
    ItoaShape(dr.maxPort);
    assert s[0] == lo[0] && s[|s| - 1] == hi[|hi| - 1];
    TrimSpaceKeeps(s);
    if dr.minPort < 0 {
      assert s == "" + "-" + (lo[1..] + "-" + hi);
      SplitAtFirst("", '-', lo[1..] + "-" + hi);
      SplitAtFirst(lo[1..], '-', hi);
    } else {
      SplitAtFirst(lo, '-', hi);
      if dr.maxPort < 0 {
        assert hi == "" + "-" + hi[1..];
        SplitAtFirst("", '-', hi[1..]);
      } else {
        SplitAtFirst(hi, '-', "");
        AtoiInvertsItoa(dr.minPort);
        AtoiInvertsItoa(dr.maxPort);
      }
    }
  }

  // ----- The port lists of ToNFTables -----

  function HasProtocol(protocol: string): ComDetails -> bool { (cd: ComDetails) => cd.protocol == protocol }

  function OfProtocol(protocol: string): DynamicRange -> bool { (r: DynamicRange) => r.protocol == protocol }

  function PortString(cd: ComDetails): string { Itoa(cd.port) }

  function PortTokens(ports: seq<ComDetails>, protocol: string): seq<string>
  {
    Map(Filter(ports, HasProtocol(protocol)), PortString)
  }

  function RangeTokens(ranges: seq<DynamicRange>, protocol: string): seq<string>
  {
    Map(Filter(ranges, OfProtocol(protocol)), PortRangeString)
  }

  lemma PortTokensNext(ports: seq<ComDetails>, i: nat, protocol: string)
    requires i < |ports|
    ensures PortTokens(ports[..i + 1], protocol)
      == PortTokens(ports[..i], protocol) + if ports[i].protocol == protocol then [PortString(ports[i])] else []
  {
    FilterNext(ports, i, HasProtocol(protocol));
    MapNext(Filter(ports[..i], HasProtocol(protocol)), ports[i], PortString);
  }

  lemma RangeTokensNext(ranges: seq<DynamicRange>, i: nat, protocol: string)
    requires i < |ranges|
    ensures RangeTokens(ranges[..i + 1], protocol)
      == RangeTokens(ranges[..i], protocol)
         + if ranges[i].protocol == protocol then [PortRangeString(ranges[i])] else []
  {
    FilterNext(ranges, i, OfProtocol(protocol));
    MapNext(Filter(ranges[..i], OfProtocol(protocol)), ranges[i], PortRangeString);
  }

  function PortList(ports: seq<ComDetails>, ranges: seq<DynamicRange>, protocol: string): string
  {
    Join(PortTokens(ports, protocol) + RangeTokens(ranges, protocol), ", ")
  }

  datatype NFTables = NFTables(tcp: string, udp: string)

  /** The two port lists of the rule set; the fixed text around them is left out. */
  method ToNFTables(ports: seq<ComDetails>, ranges: seq<DynamicRange>) returns (rules: NFTables)
    ensures rules == NFTables(PortList(ports, ranges, "TCP"), PortList(ports, ranges, "UDP"))
    ensures rules.tcp == Join(PortTokens(ports, "TCP") + RangeTokens(ranges, "TCP"), ", ")
    ensures rules.udp == Join(PortTokens(ports, "UDP") + RangeTokens(ranges, "UDP"), ", ")
  {
    var tcpPorts, udpPorts := [], [];
    for i := 0 to |ports|
      invariant tcpPorts == PortTokens(ports[..i], "TCP") && udpPorts == PortTokens(ports[..i], "UDP")
    {
      PortTokensNext(ports, i, "TCP");
      PortTokensNext(ports, i, "UDP");
      var line := ports[i];
      if line.protocol == "TCP" {
        tcpPorts := tcpPorts + [Itoa(line.port)];
      } else if line.protocol == "UDP" {
        udpPorts := udpPorts + [Itoa(line.port)];
      }
    }
    assert ports[..|ports|] == ports;
    ghost var tcp, udp := tcpPorts, udpPorts;
    for i := 0 to |ranges|
      invariant tcpPorts == tcp + RangeTokens(ranges[..i], "TCP")
      invariant udpPorts == udp + RangeTokens(ranges[..i], "UDP")
    {
      RangeTokensNext(ranges, i, "TCP");
      RangeTokensNext(ranges, i, "UDP");
      var dr := ranges[i];
      var rangeStr := PortRangeString(dr);
      if dr.protocol == "TCP" {
        tcpPorts := tcpPorts + [rangeStr];
      } else if dr.protocol == "UDP" {
        udpPorts := udpPorts + [rangeStr];
      }
    }
    assert ranges[..|ranges|] == ranges;
    rules := NFTables(Join(tcpPorts, ", "), Join(udpPorts, ", "));
  }

  // ----- Reading a port list back -----

  /** A port, or a range of ports from its minimum to its maximum. */
  function ReadElement(token: string): Option<(int, int)>
  {
    var t := TrimSpace(token);
    if '-' in t then ParsePortRangeHyphen(t)
    else match Atoi(t)
      case None => None
      case Some(n) => Some((n, n))
  }

  function ReadElements(tokens: seq<string>): Option<seq<(int, int)>>
  {
    if tokens == [] then Some([])
    else match (ReadElement(tokens[0]), ReadElements(tokens[1..]))
      case (Some(e), Some(rest)) => Some([e] + rest)
      case _ => None
  }

  /** What a firewall reads between the braces of `dport { ... }`: elements separated by commas. */
  function ReadPortList(text: string): Option<seq<(int, int)>>
  {
    if text == "" then Some([]) else ReadElements(Split(text, ','))
  }

  /** The list is readable and admits the port. */
  predicate Admits(text: string, port: int)
  {
    var elements := ReadPortList(text);
    elements.Some? && exists e :: e in elements.value && e.0 <= port <= e.1
  }

  function OnePort(cd: ComDetails): (int, int) { (cd.port, cd.port) }

  function Bounds(r: DynamicRange): (int, int) { (r.minPort, r.maxPort) }

  /** The entries of the protocol, in order. */
  function PortElements(ports: seq<ComDetails>, protocol: string): seq<(int, int)>
  {
    Map(Filter(ports, HasProtocol(protocol)), OnePort)
  }

  /** The ranges of the protocol, in order. */
  function RangeElements(ranges: seq<DynamicRange>, protocol: string): seq<(int, int)>
  {
    Map(Filter(ranges, OfProtocol(protocol)), Bounds)
  }

  predicate NonNegative(ranges: seq<DynamicRange>)
  {
    forall r :: r in ranges ==> r.minPort >= 0 && r.maxPort >= 0
  }

  predicate NaturalPorts(ports: seq<ComDetails>)
  {
    forall cd :: cd in ports ==> cd.port >= 0
  }

  /** `token` is a printed element `e`, with or without a space before it. */
  ghost predicate Prints(token: string, e: (int, int))
  {
    && ReadElement(token) == ReadElement(" " + token) == Some(e)
    && ',' !in token && token != []
  }

  ghost predicate AllPrint(tokens: seq<string>, es: seq<(int, int)>)
  {
    |tokens| == |es| && forall i :: 0 <= i < |es| ==> Prints(tokens[i], es[i])
  }

  lemma TokenPrints(token: string, e: (int, int))
    requires token != [] && !IsSpace(token[0]) && !IsSpace(token[|token| - 1]) && ',' !in token
    requires ReadElement(token) == Some(e)
    ensures Prints(token, e)
  {
    TrimSpaceKeeps(token);
    assert (" " + token)[1..] == token;
    assert TrimLeft(" " + token) == TrimLeft(token) == token;
  }

  lemma PortPrints(n: int)
    requires n >= 0
    ensures Prints(Itoa(n), (n, n))
  {
    NumbersAreNotSpaced(n);
    ItoaShape(n);
    AtoiInvertsItoa(n);
    TokenPrints(Itoa(n), (n, n));
  }

  lemma RangePrints(dr: DynamicRange)
    requires dr.minPort >= 0 && dr.maxPort >= 0
    ensures Prints(PortRangeString(dr), (dr.minPort, dr.maxPort))
  {
    var s := PortRangeString(dr);
    NumbersAreNotSpaced(dr.minPort);
    NumbersAreNotSpaced(dr.maxPort);
    ItoaShape(dr.minPort);
    ItoaShape(dr.maxPort);
    assert s[|Itoa(dr.minPort)|] == '-';
    TrimSpaceKeeps(s);
    RangeRoundTrip(dr);
    TokenPrints(s, (dr.minPort, dr.maxPort));
  }

  lemma PortTokensPrint(ports: seq<ComDetails>, protocol: string)
    requires NaturalPorts(ports)
    ensures AllPrint(PortTokens(ports, protocol), PortElements(ports, protocol))
  {
    var kept := Filter(ports, HasProtocol(protocol));
    FilterHas(ports, HasProtocol(protocol));
    forall i | 0 <= i < |kept| ensures Prints(PortString(kept[i]), OnePort(kept[i])) {
      assert kept[i] in kept;
      PortPrints(kept[i].port);
    }
  }

  lemma RangeTokensPrint(ranges: seq<DynamicRange>, protocol: string)
    requires NonNegative(ranges)
    ensures AllPrint(RangeTokens(ranges, protocol), RangeElements(ranges, protocol))
  {
    var kept := Filter(ranges, OfProtocol(protocol));
    FilterHas(ranges, OfProtocol(protocol));
    forall i | 0 <= i < |kept| ensures Prints(PortRangeString(kept[i]), Bounds(kept[i])) {
      assert kept[i] in kept;
      RangePrints(kept[i]);
    }
  }

  /** What joining with ", " and splitting at "," leaves: a space before every token but the first. */
  function Spaced(tokens: seq<string>, space: string): seq<string>
  {
    seq(|tokens|, i requires 0 <= i < |tokens| => (if i == 0 then space else " ") + tokens[i])
  }

  lemma {:induction false} JoinSpaced(tokens: seq<string>, space: string)
    requires tokens != []
    ensures space + Join(tokens, ", ") == Join(Spaced(tokens, space), ",")
  {
    if |tokens| > 1 {
      var rest := tokens[1..];
      JoinSpaced(rest, " ");
      assert Spaced(tokens, space)[1..] == Spaced(rest, " ");
      assert space + (tokens[0] + ", " + Join(rest, ", ")) == (space + tokens[0]) + "," + (" " + Join(rest, ", "));
    }
  }

  lemma {:induction false} ReadEach(tokens: seq<string>, es: seq<(int, int)>)
    requires |tokens| == |es| && forall i :: 0 <= i < |es| ==> ReadElement(tokens[i]) == Some(es[i])
    ensures ReadElements(tokens) == Some(es)
  {
    if tokens != [] {
      ReadEach(tokens[1..], es[1..]);
      assert es == [es[0]] + es[1..];
    }
  }

  lemma ReadJoined(tokens: seq<string>, es: seq<(int, int)>)
    requires tokens != [] && AllPrint(tokens, es)
    ensures ReadElements(Split(Join(tokens, ", "), ',')) == Some(es)
  {
    var parts := Spaced(tokens, "");
    forall i | 0 <= i < |es| ensures ReadElement(parts[i]) == Some(es[i]) && ',' !in parts[i] {
      assert Prints(tokens[i], es[i]);
      assert "" + tokens[i] == tokens[i];
    }
    JoinSpaced(tokens, "");
    assert "" + Join(tokens, ", ") == Join(tokens, ", ");
    SplitInvertsJoin(parts, ',');
    ReadEach(parts, es);
  }

  /** The printed list reads back as its ports and ranges, in order. */
  lemma PortListRoundTrip(ports: seq<ComDetails>, ranges: seq<DynamicRange>, protocol: string)
    requires NonNegative(ranges) && NaturalPorts(ports)
    ensures ReadPortList(PortList(ports, ranges, protocol))
      == Some(PortElements(ports, protocol) + RangeElements(ranges, protocol))
  {
    PortTokensPrint(ports, protocol);
    RangeTokensPrint(ranges, protocol);
    var tokens := PortTokens(ports, protocol) + RangeTokens(ranges, protocol);
    var es := PortElements(ports, protocol) + RangeElements(ranges, protocol);
    assert AllPrint(tokens, es);
    if tokens != [] {
      ReadJoined(tokens, es);
      assert Prints(tokens[0], es[0]);
    }
  }

  lemma ElementsHold(ports: seq<ComDetails>, ranges: seq<DynamicRange>, protocol: string, e: (int, int))
    ensures e in PortElements(ports, protocol)
      <==> exists cd :: cd in ports && cd.protocol == protocol && e == (cd.port, cd.port)
    ensures e in RangeElements(ranges, protocol)
      <==> exists r :: r in ranges && r.protocol == protocol && e == (r.minPort, r.maxPort)
  {
    FilterHas(ports, HasProtocol(protocol));
    FilterHas(ranges, OfProtocol(protocol));
    MapHas(Filter(ports, HasProtocol(protocol)), OnePort, e);
    MapHas(Filter(ranges, OfProtocol(protocol)), Bounds, e);
  }

  /** Some entry has the protocol and the port. */
  predicate OpenPort(ports: seq<ComDetails>, protocol: string, port: int)
  {
    exists cd :: cd in ports && cd.protocol == protocol && cd.port == port
  }

  /** Some range of the protocol, of whatever direction, holds the port. */
  predicate InSomeRange(ranges: seq<DynamicRange>, protocol: string, port: int)
  {
    exists r :: r in ranges && r.protocol == protocol && r.minPort <= port <= r.maxPort
  }

  /** A printed port list admits exactly the ports of its entries and ranges. */
  lemma PortListAdmits(ports: seq<ComDetails>, ranges: seq<DynamicRange>, protocol: string, port: int)
    requires NonNegative(ranges) && NaturalPorts(ports)
    ensures Admits(PortList(ports, ranges, protocol), port)
      <==> OpenPort(ports, protocol, port) || InSomeRange(ranges, protocol, port)
  {
    PortListRoundTrip(ports, ranges, protocol);
    var es := PortElements(ports, protocol) + RangeElements(ranges, protocol);
    if e :| e in es && e.0 <= port <= e.1 {
      ElementsHold(ports, ranges, protocol, e);
    }
    if OpenPort(ports, protocol, port) {
      ElementsHold(ports, ranges, protocol, (port, port));
      assert (port, port) in es;
    }
    if r :| r in ranges && r.protocol == protocol && r.minPort <= port <= r.maxPort {
      ElementsHold(ports, ranges, protocol, (r.minPort, r.maxPort));
      assert (r.minPort, r.maxPort) in es;
    }
  }
}
