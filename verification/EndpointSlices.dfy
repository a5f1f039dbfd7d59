/** Which endpoint ports are exposed on the host, and the matrix entries they give. */
module EndpointSlices {
  import opened Nodes
  import opened Pods
  import opened Seqs
  import opened Sorting
  import opened Text
  import opened Types

  datatype EndpointPort = EndpointPort(name: string, port: Option<int>, protocol: string)

  /** `endpoints` are the node names of the endpoints, where they have one. */
  datatype Slice = Slice(hasOwner: bool, optional: bool, ports: seq<EndpointPort>, endpoints: seq<Option<string>>)

  /** A service with the endpoint slices and pods that are listed for it. */
  datatype Service = Service(name: string, namespace: string, hasSelector: bool, slices: seq<Slice>, pods: seq<Pod>)

  datatype SliceInfo = SliceInfo(slice: Slice, service: Service)

  type PortInfo = (EndpointPort, ContainerPort)

  // ----- The filters -----

  function ContainerPorts(containers: seq<Container>): seq<ContainerPort>
  {
    if containers == [] then [] else ContainerPorts(containers[..|containers| - 1]) + containers[|containers| - 1].ports
  }

  function PairUp(p: EndpointPort, cps: seq<ContainerPort>): seq<PortInfo>
  {
    if cps == [] || p.port.None? then []
    else
      var cp := cps[|cps| - 1];
      PairUp(p, cps[..|cps| - 1]) + if cp.containerPort == p.port.value then [(p, cp)] else []
  }

  function Pairs(pod: Pod, endpointPorts: seq<EndpointPort>): seq<PortInfo>
  {
    if endpointPorts == [] then []
    else
      var last := endpointPorts[|endpointPorts| - 1];
      Pairs(pod, endpointPorts[..|endpointPorts| - 1]) + PairUp(last, ContainerPorts(pod.containers))
  }

  method GetEndpointSlicePortsFromPod(pod: Pod, endpointPorts: seq<EndpointPort>) returns (ports: seq<PortInfo>)
    ensures ports == Pairs(pod, endpointPorts)
  {
    ports := [];
    for i := 0 to |endpointPorts|
      invariant ports == Pairs(pod, endpointPorts[..i])
    {
      var endpointPort := endpointPorts[i];
      ghost var before := ports;
      assert endpointPorts[..i + 1][..i] == endpointPorts[..i];
      if endpointPort.port.None? {
        continue;
      }
      for j := 0 to |pod.containers|
        invariant ports == before + PairUp(endpointPort, ContainerPorts(pod.containers[..j]))
      {
        assert pod.containers[..j + 1][..j] == pod.containers[..j];
        ports := PairWithContainer(endpointPort, pod.containers[j].ports, before,
                                   ContainerPorts(pod.containers[..j]), ports);
      }
      assert pod.containers[..|pod.containers|] == pod.containers;
    }
    assert endpointPorts[..|endpointPorts|] == endpointPorts;
  }

  /** The innermost loop, over the ports of one container. */
  method PairWithContainer(endpointPort: EndpointPort, containerPorts: seq<ContainerPort>, ghost before: seq<PortInfo>,
                           ghost seen: seq<ContainerPort>, init: seq<PortInfo>) returns (ports: seq<PortInfo>)
    requires endpointPort.port.Some? && init == before + PairUp(endpointPort, seen)
    ensures ports == before + PairUp(endpointPort, seen + containerPorts)
  {
    ports := init;
    assert seen + [] == seen;
    for i := 0 to |containerPorts|
      invariant ports == before + PairUp(endpointPort, seen + containerPorts[..i])
    {
      assert (seen + containerPorts[..i + 1])[..|seen| + i] == seen + containerPorts[..i];
      if containerPorts[i].containerPort == endpointPort.port.value {
        ports := ports + [(endpointPort, containerPorts[i])];
      }
    }
    assert containerPorts[..|containerPorts|] == containerPorts;
  }

  predicate HasHostPort(cp: ContainerPort) { cp.hostPort != 0 }

  predicate NotLocalhost(cp: ContainerPort) { !(cp.hostIP == "127.0.0.1" || cp.hostIP == "::1") }

  /** The endpoint ports of the pairs whose container port is wanted. */
  function Wanted(infos: seq<PortInfo>, want: ContainerPort -> bool): seq<EndpointPort>
  {
    if infos == [] then []
    else
      var last := infos[|infos| - 1];
      Wanted(infos[..|infos| - 1], want) + if want(last.1) then [last.0] else []
  }

  method FilterEndpointPortsByPodHostPort(portsInfo: seq<PortInfo>) returns (filteredPorts: seq<EndpointPort>)
    ensures filteredPorts == Wanted(portsInfo, HasHostPort)
  {
    filteredPorts := [];
    for i := 0 to |portsInfo|
      invariant filteredPorts == Wanted(portsInfo[..i], HasHostPort)
    {
      assert portsInfo[..i + 1][..i] == portsInfo[..i];
      if portsInfo[i].1.hostPort != 0 {
        filteredPorts := filteredPorts + [portsInfo[i].0];
      }
    }
    assert portsInfo[..|portsInfo|] == portsInfo;
  }

  method FilterOutLocalhostPorts(portsInfo: seq<PortInfo>) returns (filtered: seq<EndpointPort>)
    ensures filtered == Wanted(portsInfo, NotLocalhost)
  {
    filtered := [];
    for i := 0 to |portsInfo|
      invariant filtered == Wanted(portsInfo[..i], NotLocalhost)
    {
      assert portsInfo[..i + 1][..i] == portsInfo[..i];
      if portsInfo[i].1.hostIP == "127.0.0.1" || portsInfo[i].1.hostIP == "::1" {
        continue;
      }
      filtered := filtered + [portsInfo[i].0];
    }
    assert portsInfo[..|portsInfo|] == portsInfo;
  }

  /** The port selection of LoadExposedEndpointSlicesInfo. */
  function Exposed(pod: Pod, ports: seq<EndpointPort>): seq<EndpointPort>
  {
    var onHost := if pod.hostNetwork then ports else Wanted(Pairs(pod, ports), HasHostPort);
    Wanted(Pairs(pod, onHost), NotLocalhost)
  }

  // ----- What the filters select -----

  function Fits(p: EndpointPort, want: ContainerPort -> bool): ContainerPort -> bool
  {
    (cp: ContainerPort) => p.port == Some(cp.containerPort) && want(cp)
  }

  /** How many container ports with the endpoint port's number are wanted. */
  function Count(p: EndpointPort, cps: seq<ContainerPort>, want: ContainerPort -> bool): nat
  {
    |Filter(cps, Fits(p, want))|
  }

  function Copies(p: EndpointPort, n: nat): seq<EndpointPort> { seq(n, _ => p) }

  /** Each port in place, as often as `times` says. */
  function Repeat(ports: seq<EndpointPort>, times: EndpointPort -> nat): seq<EndpointPort>
  {
    if ports == [] then []
    else Repeat(ports[..|ports| - 1], times) + Copies(ports[|ports| - 1], times(ports[|ports| - 1]))
  }

  function CountIn(pod: Pod, want: ContainerPort -> bool): EndpointPort -> nat
  {
    (p: EndpointPort) => Count(p, ContainerPorts(pod.containers), want)
  }

  lemma {:induction false} WantedAppend(a: seq<PortInfo>, b: seq<PortInfo>, want: ContainerPort -> bool)
    ensures Wanted(a + b, want) == Wanted(a, want) + Wanted(b, want)
  {
    if b == [] {
      assert a + b == a;
    } else {
      WantedAppend(a, b[..|b| - 1], want);
      assert (a + b)[..|a + b| - 1] == a + b[..|b| - 1];
    }
  }

  lemma {:induction false} WantedPairsOfOne(p: EndpointPort, cps: seq<ContainerPort>, want: ContainerPort -> bool)
    ensures Wanted(PairUp(p, cps), want) == Copies(p, Count(p, cps, want))
  {
    if cps != [] {
      var front, cp := cps[..|cps| - 1], cps[|cps| - 1];
      WantedPairsOfOne(p, front, want);
      assert Filter(cps, Fits(p, want)) == Filter(front, Fits(p, want)) + if Fits(p, want)(cp) then [cp] else [];
      if p.port == Some(cp.containerPort) {
        WantedAppend(PairUp(p, front), [(p, cp)], want);
        assert Wanted([(p, cp)], want) == if want(cp) then [p] else [];
      } else {
        assert PairUp(p, cps) == PairUp(p, front);
      }
    }
  }

  /** Pairing and filtering keeps each endpoint port in place, once for every wanted container port with
      its number: order is kept, and nothing else comes in. */
  lemma {:induction false} WantedPairsRepeat(pod: Pod, ports: seq<EndpointPort>, want: ContainerPort -> bool)
    ensures Wanted(Pairs(pod, ports), want) == Repeat(ports, CountIn(pod, want))
  {
    if ports != [] {
      var front, p := ports[..|ports| - 1], ports[|ports| - 1];
      WantedPairsRepeat(pod, front, want);
      WantedAppend(Pairs(pod, front), PairUp(p, ContainerPorts(pod.containers)), want);
      WantedPairsOfOne(p, ContainerPorts(pod.containers), want);
    }
  }

  lemma {:induction false} RepeatHas(ports: seq<EndpointPort>, times: EndpointPort -> nat, p: EndpointPort)
    ensures p in Repeat(ports, times) <==> p in ports && times(p) > 0
  {
    if ports != [] {
      var front, last := ports[..|ports| - 1], ports[|ports| - 1];
      RepeatHas(front, times, p);
      assert ports == front + [last];
      assert p in Copies(last, times(last)) <==> p == last && times(last) > 0 by {
        if p == last && times(last) > 0 { assert Copies(last, times(last))[0] == p; }
      }
    }
  }

  /** A container of the pod lists the number of the endpoint port, as `cp`. */
  predicate Lists(pod: Pod, c: Container, cp: ContainerPort, p: EndpointPort)
  {
    c in pod.containers && cp in c.ports && p.port == Some(cp.containerPort)
  }

  ghost predicate SomePort(pod: Pod, p: EndpointPort, want: ContainerPort -> bool)
  {
    exists c, cp :: Lists(pod, c, cp, p) && want(cp)
  }

  /** The port has a number that some container lists without binding it to localhost and, off the host
      network, some container lists with a host port. */
  ghost predicate IsExposed(pod: Pod, p: EndpointPort)
  {
    && (exists c, cp :: Lists(pod, c, cp, p) && cp.hostIP != "127.0.0.1" && cp.hostIP != "::1")
    && (pod.hostNetwork || exists c, cp :: Lists(pod, c, cp, p) && cp.hostPort != 0)
  }

  lemma {:induction false} ContainerPortsHave(containers: seq<Container>, cp: ContainerPort)
    ensures cp in ContainerPorts(containers) <==> exists c :: c in containers && cp in c.ports
  {
    if containers != [] {
      ContainerPortsHave(containers[..|containers| - 1], cp);
      assert containers == containers[..|containers| - 1] + [containers[|containers| - 1]];
    }
  }

  lemma CountIsPositive(pod: Pod, p: EndpointPort, want: ContainerPort -> bool)
    ensures CountIn(pod, want)(p) > 0 <==> SomePort(pod, p, want)
  {
    var kept := Filter(ContainerPorts(pod.containers), Fits(p, want));
    FilterHas(ContainerPorts(pod.containers), Fits(p, want));
    assert CountIn(pod, want)(p) == |kept|;
    if kept != [] {
      ContainerPortsHave(pod.containers, kept[0]);
      assert kept[0] in kept;
      var c :| c in pod.containers && kept[0] in c.ports;
      assert Lists(pod, c, kept[0], p);
    }
    if c, cp :| Lists(pod, c, cp, p) && want(cp) {
      ContainerPortsHave(pod.containers, cp);
      assert cp in kept;
    }
  }

  /** Exactly the exposed ones of the ports are kept, and they have numbers. */
  lemma ExposedExactly(pod: Pod, ports: seq<EndpointPort>, p: EndpointPort)
    ensures p in Exposed(pod, ports) <==> p in ports && IsExposed(pod, p)
    ensures p in Exposed(pod, ports) ==> p.port.Some?
  {
    var onHost := if pod.hostNetwork then ports else Wanted(Pairs(pod, ports), HasHostPort);
    WantedPairsRepeat(pod, ports, HasHostPort);
    WantedPairsRepeat(pod, onHost, NotLocalhost);
    RepeatHas(ports, CountIn(pod, HasHostPort), p);
    RepeatHas(onHost, CountIn(pod, NotLocalhost), p);
    CountIsPositive(pod, p, HasHostPort);
    CountIsPositive(pod, p, NotLocalhost);
    ExposedIsBoth(pod, p);
  }

  lemma ExposedIsBoth(pod: Pod, p: EndpointPort)
    ensures IsExposed(pod, p) <==> SomePort(pod, p, NotLocalhost) && (pod.hostNetwork || SomePort(pod, p, HasHostPort))
  {
    forall c, cp | Lists(pod, c, cp, p)
      ensures NotLocalhost(cp) <==> cp.hostIP != "127.0.0.1" && cp.hostIP != "::1"
      ensures HasHostPort(cp) <==> cp.hostPort != 0
    {}
  }

  /** The kept ports are the given ones in their order, each in place and perhaps repeated. */
  lemma ExposedKeepsOrder(pod: Pod, ports: seq<EndpointPort>)
    ensures Exposed(pod, ports) ==
      if pod.hostNetwork then Repeat(ports, CountIn(pod, NotLocalhost))
      else Repeat(Repeat(ports, CountIn(pod, HasHostPort)), CountIn(pod, NotLocalhost))
  {
    var onHost := if pod.hostNetwork then ports else Wanted(Pairs(pod, ports), HasHostPort);
    WantedPairsRepeat(pod, ports, HasHostPort);
    WantedPairsRepeat(pod, onHost, NotLocalhost);
  }

  // ----- Loading -----

  /** The service has an endpoint slice, a selector and pods. */
  predicate Listed(s: Service) { s.slices != [] && s.hasSelector && s.pods != [] }

  /** What is loaded for a listed service, if any of its ports is exposed. */
  function Loaded(s: Service): SliceInfo
    requires Listed(s)
  {
    SliceInfo(s.slices[0].(ports := Exposed(s.pods[0], s.slices[0].ports)), s)
  }

  function LoadOne(s: Service): seq<SliceInfo>
  {
    if !Listed(s) || Loaded(s).slice.ports == [] then [] else [Loaded(s)]
  }

  function Load(services: seq<Service>): seq<SliceInfo> { FlatMap(services, LoadOne) }

  // ----- Entries -----

  ghost predicate IsGroupOf(slice: Slice, nodeToGroup: map<string, string>, g: string)
  {
    g != "" && exists name :: Some(name) in slice.endpoints && name in nodeToGroup && nodeToGroup[name] == g
  }

  /** The distinct non-empty groups, sorted: the walk of the map cannot show. */
  method GetEndpointSliceGroups(slice: Slice, nodeToGroup: map<string, string>) returns (pools: seq<string>)
    ensures forall i, j :: 0 <= i < j < |pools| ==> Less(pools[i], pools[j])
    ensures forall g :: g in pools <==> IsGroupOf(slice, nodeToGroup, g)
  {
    var poolsMap: map<string, bool> := map[];
    for i := 0 to |slice.endpoints|
      invariant forall g :: g in poolsMap <==> IsGroupOf(slice.(endpoints := slice.endpoints[..i]), nodeToGroup, g)
    {
      assert slice.endpoints[..i + 1] == slice.endpoints[..i] + [slice.endpoints[i]];
      if slice.endpoints[i].Some? {
        var pool := GroupOf(nodeToGroup, slice.endpoints[i].value);
        if pool != "" {
          poolsMap := poolsMap[pool := true];
        }
      }
    }
    assert slice.endpoints[..|slice.endpoints|] == slice.endpoints;
    pools := SortedKeys(poolsMap);
    forall i, j | 0 <= i < j < |pools| ensures Less(pools[i], pools[j]) { CompareIsLexicographic(pools[i], pools[j]); }
  }

  method SortedKeys(m: map<string, bool>) returns (keys: seq<string>)
    ensures StrictlySorted(Compare, keys)
    ensures forall k :: k in keys <==> k in m
  {
    keys := [];
    var remaining := m.Keys;
    while remaining != {}
      invariant remaining <= m.Keys
      invariant Visits(keys, m.Keys - remaining)
    {
      var k :| k in remaining;
      keys := keys + [k];
      remaining := remaining - {k};
    }
    ghost var unsorted := keys;
    assert Visits(unsorted, m.Keys);
    var slice := new string[|keys|](i requires 0 <= i < |keys| => keys[i]);
    assert slice[..] == keys;
    CompareIsComparator();
    SortFunc(slice, Compare);
    keys := slice[..];
    SameElements(keys, unsorted);
    DistinctStaysDistinct(keys, unsorted);
    forall i, j | 0 <= i < j < |keys| ensures Compare(keys[i], keys[j]) < 0 {
      CompareIsZeroOnlyWhenEqual(keys[i], keys[j]);
    }
  }

  predicate ListsPort(c: Container, port: int) { exists cp :: cp in c.ports && cp.containerPort == port }

  predicate IsFirstToList(containers: seq<Container>, port: int, i: int)
  {
    && 0 <= i < |containers| && ListsPort(containers[i], port)
    && forall j :: 0 <= j < i ==> !ListsPort(containers[j], port)
  }

  /** The name is that of the first container that lists the port, or empty when none does. */
  ghost predicate IsContainerName(containers: seq<Container>, port: int, name: string)
  {
    || (exists i :: IsFirstToList(containers, port, i) && name == containers[i].name)
    || (name == "" && forall i :: 0 <= i < |containers| ==> !ListsPort(containers[i], port))
  }

  /** `getContainerName`, with the empty name for its error. */
  function ContainerName(port: int, containers: seq<Container>): string
  {
    if containers == [] then ""
    else if exists cp :: cp in containers[0].ports && cp.containerPort == port then containers[0].name
    else ContainerName(port, containers[1..])
  }

  lemma {:induction false} ContainerNameIsFirst(port: int, containers: seq<Container>, name: string)
    ensures IsContainerName(containers, port, name) <==> name == ContainerName(port, containers)
  {
    if containers != [] {
      var rest := containers[1..];
      assert containers == [containers[0]] + rest;
      if ListsPort(containers[0], port) {
        assert IsFirstToList(containers, port, 0);
      } else {
        ContainerNameIsFirst(port, rest, name);
        forall i | 0 <= i < |rest| ensures IsFirstToList(rest, port, i) <==> IsFirstToList(containers, port, i + 1) {
          FirstToListShifts(containers, port, i);
        }
      }
    }
  }

  lemma FirstToListShifts(containers: seq<Container>, port: int, i: nat)
    requires i < |containers| - 1 && !ListsPort(containers[0], port)
    ensures IsFirstToList(containers[1..], port, i) <==> IsFirstToList(containers, port, i + 1)
  {
    var rest := containers[1..];
    if IsFirstToList(rest, port, i) {
      assert forall j :: 0 < j < i + 1 ==> containers[j] == rest[j - 1];
    }
    if IsFirstToList(containers, port, i + 1) {
      assert forall j :: 0 <= j < i ==> rest[j] == containers[j + 1];
    }
  }

  /** `x` is the entry of the service for the endpoint port and the group, field by field. */
  ghost predicate IsEntryFor(s: Service, optional: bool, p: EndpointPort, g: string, x: ComDetails)
    requires s.pods != []
  {
    && x.direction == "Ingress" && x.protocol == p.protocol && Some(x.port) == p.port
    && x.namespace == s.namespace && x.service == s.name && IsControllerName(s.pods[0], x.pod)
    && IsContainerName(s.pods[0].containers, x.port, x.container)
    && x.nodeGroup == g && x.optional == optional
  }

  function Entry(info: SliceInfo, name: string, p: EndpointPort, g: string): ComDetails
    requires info.service.pods != [] && p.port.Some?
  {
    ComDetails("Ingress", p.protocol, p.port.value, info.service.namespace, info.service.name, name,
               ContainerName(p.port.value, info.service.pods[0].containers), g, info.slice.optional)
  }

  lemma EntryIsForPort(info: SliceInfo, name: string, p: EndpointPort, g: string, x: ComDetails)
    requires info.service.pods != [] && p.port.Some? && ExtractControllerName(info.service.pods[0]) == Some(name)
    ensures IsEntryFor(info.service, info.slice.optional, p, g, x) <==> x == Entry(info, name, p, g)
  {
    ControllerNameIsInverse(info.service.pods[0], x.pod);
    ContainerNameIsFirst(x.port, info.service.pods[0].containers, x.container);
  }

  datatype SliceResult = NoOwnerRef | NameError | Entries(details: seq<ComDetails>)

  /** The entries of a slice are, as a set, its ports times its groups. */
  method ToComDetailsWithGroups(info: SliceInfo, nodeToGroup: map<string, string>) returns (result: SliceResult)
    requires info.service.pods != [] && forall p :: p in info.slice.ports ==> p.port.Some?
    ensures result.NoOwnerRef? <==> !info.slice.hasOwner
    ensures result.NameError? <==> info.slice.hasOwner && !HasControllerName(info.service.pods[0])
    ensures result.Entries? ==> forall x :: x in result.details <==> IsEntry(info, nodeToGroup, x)
  {
    if !info.slice.hasOwner {
      return NoOwnerRef;
    }
    var controller := ExtractControllerName(info.service.pods[0]);
    ControllerNameExists(info.service.pods[0]);
    if controller.None? {
      return NameError;
    }
    var name := controller.value;
    var pools := GetEndpointSliceGroups(info.slice, nodeToGroup);
    var res: seq<ComDetails> := [];
    for i := 0 to |info.slice.ports|
      invariant forall x :: x in res <==>
        exists k, j :: 0 <= k < i && 0 <= j < |pools| && x == Entry(info, name, info.slice.ports[k], pools[j])
    {
      ghost var before := res;
      for j := 0 to |pools|
        invariant forall x :: x in res <==>
          (x in before || exists l :: 0 <= l < j && x == Entry(info, name, info.slice.ports[i], pools[l]))
      {
        res := res + [Entry(info, name, info.slice.ports[i], pools[j])];
      }
    }
    result := Entries(res);
    forall x ensures x in res <==> IsEntry(info, nodeToGroup, x) {
      ProductsAreEntries(info, nodeToGroup, name, pools, x);
    }
  }

  lemma ProductsAreEntries(info: SliceInfo, nodeToGroup: map<string, string>, name: string, pools: seq<string>,
                           x: ComDetails)
    requires Ready(info) && ExtractControllerName(info.service.pods[0]) == Some(name)
    requires forall g :: g in pools <==> IsGroupOf(info.slice, nodeToGroup, g)
    ensures IsEntry(info, nodeToGroup, x) <==> exists k, j ::
      0 <= k < |info.slice.ports| && 0 <= j < |pools| && x == Entry(info, name, info.slice.ports[k], pools[j])
  {
    var ports := info.slice.ports;
    if k, j :| 0 <= k < |ports| && 0 <= j < |pools| && x == Entry(info, name, ports[k], pools[j]) {
      assert ports[k] in ports && pools[j] in pools;
      EntryIsForPort(info, name, ports[k], pools[j], x);
    }
    if IsEntry(info, nodeToGroup, x) {
      var p, g :| p in ports && IsGroupOf(info.slice, nodeToGroup, g)
        && IsEntryFor(info.service, info.slice.optional, p, g, x);
      EntryIsForPort(info, name, p, g, x);
      var k :| 0 <= k < |ports| && ports[k] == p;
      assert g in pools;
      var j :| 0 <= j < |pools| && pools[j] == g;
    }
  }

  ghost predicate IsEntry(info: SliceInfo, nodeToGroup: map<string, string>, x: ComDetails)
    requires info.service.pods != []
  {
    exists p, g :: p in info.slice.ports && IsGroupOf(info.slice, nodeToGroup, g)
                && IsEntryFor(info.service, info.slice.optional, p, g, x)
  }

  /** A slice whose entries can be computed: the service has pods, the ports have numbers. */
  predicate Ready(info: SliceInfo)
  {
    info.service.pods != [] && forall p :: p in info.slice.ports ==> p.port.Some?
  }

  lemma LoadedAreReady(services: seq<Service>)
    ensures forall info :: info in Load(services) ==> Ready(info)
  {
    forall info | info in Load(services) ensures Ready(info) {
      LoadHas(services, info);
      var s :| s in services && info in LoadOne(s);
      ReadyWhenExposed(s);
    }
  }

  ghost predicate HasEntry(info: SliceInfo, nodeToGroup: map<string, string>, x: ComDetails)
  {
    info.slice.hasOwner && Ready(info) && IsEntry(info, nodeToGroup, x)
  }

  ghost predicate SomeHasEntry(infos: seq<SliceInfo>, nodeToGroup: map<string, string>, x: ComDetails)
  {
    exists info :: info in infos && HasEntry(info, nodeToGroup, x)
  }

  ghost predicate NameFails(info: SliceInfo)
  {
    info.slice.hasOwner && info.service.pods != [] && !HasControllerName(info.service.pods[0])
  }

  lemma SomeHasEntryNext(infos: seq<SliceInfo>, info: SliceInfo, nodeToGroup: map<string, string>, x: ComDetails)
    ensures SomeHasEntry(infos + [info], nodeToGroup, x)
      <==> SomeHasEntry(infos, nodeToGroup, x) || HasEntry(info, nodeToGroup, x)
  {
    if HasEntry(info, nodeToGroup, x) { assert info in infos + [info]; }
    if y :| y in infos && HasEntry(y, nodeToGroup, x) { assert y in infos + [info]; }
  }

  /** `removeDups`: the distinct entries, in any order. */
  method RemoveDups(comDetails: seq<ComDetails>) returns (res: seq<ComDetails>)
    ensures Visits(res, set cd | cd in comDetails)
  {
    res := [];
    var remaining := set cd | cd in comDetails;
    ghost var all := remaining;
    while remaining != {}
      invariant remaining <= all
      invariant Visits(res, all - remaining)
    {
      var cd :| cd in remaining;
      res := res + [cd];
      remaining := remaining - {cd};
    }
  }

  // ----- From services to entries -----

  lemma LoadHas(services: seq<Service>, info: SliceInfo)
    ensures info in Load(services) <==> exists s :: s in services && info in LoadOne(s)
  {
    FlatMapHas(services, LoadOne, info);
  }

  /** The service has an endpoint slice with an owner, a selector and pods; `p` is one of the ports of its
      first slice, exposed on the host by its first pod; `g` is a group of the endpoints; and `x` is the
      entry for them. */
  ghost predicate IsExposedEntry(s: Service, nodeToGroup: map<string, string>, p: EndpointPort, g: string,
                                 x: ComDetails)
  {
    && s.slices != [] && s.hasSelector && s.pods != [] && s.slices[0].hasOwner
    && p in s.slices[0].ports && IsExposed(s.pods[0], p)
    && IsGroupOf(s.slices[0], nodeToGroup, g)
    && IsEntryFor(s, s.slices[0].optional, p, g, x)
  }

  lemma LoadedEntryIsExposed(s: Service, nodeToGroup: map<string, string>, x: ComDetails)
    requires Listed(s) && HasEntry(Loaded(s), nodeToGroup, x)
    ensures exists p, g :: IsExposedEntry(s, nodeToGroup, p, g, x)
  {
    var info := Loaded(s);
    var p, g :| p in info.slice.ports && IsGroupOf(info.slice, nodeToGroup, g)
      && IsEntryFor(s, info.slice.optional, p, g, x);
    ExposedExactly(s.pods[0], s.slices[0].ports, p);
    assert IsExposedEntry(s, nodeToGroup, p, g, x);
  }

  lemma ExposedEntryIsLoaded(s: Service, nodeToGroup: map<string, string>, p: EndpointPort, g: string, x: ComDetails)
    requires Listed(s) && Ready(Loaded(s)) && IsExposedEntry(s, nodeToGroup, p, g, x)
    ensures HasEntry(Loaded(s), nodeToGroup, x) && Loaded(s).slice.ports != []
  {
    ExposedExactly(s.pods[0], s.slices[0].ports, p);
    assert p in Loaded(s).slice.ports && IsGroupOf(Loaded(s).slice, nodeToGroup, g);
  }

  /** The entries of the loaded slices are exactly the exposed ports times the groups of their endpoints. */
  lemma LoadedEntries(services: seq<Service>, nodeToGroup: map<string, string>, x: ComDetails)
    ensures SomeHasEntry(Load(services), nodeToGroup, x)
      <==> exists s, p, g :: s in services && IsExposedEntry(s, nodeToGroup, p, g, x)
  {
    LoadedAreReady(services);
    if info :| info in Load(services) && HasEntry(info, nodeToGroup, x) {
      LoadHas(services, info);
      var s :| s in services && info in LoadOne(s);
      LoadedEntryIsExposed(s, nodeToGroup, x);
    }
    if s, p, g :| s in services && IsExposedEntry(s, nodeToGroup, p, g, x) {
      LoadHas(services, Loaded(s));
      ReadyWhenExposed(s);
      ExposedEntryIsLoaded(s, nodeToGroup, p, g, x);
      assert Loaded(s) in LoadOne(s);
    }
  }

  /** An owned slice has an exposed port, but the pod has no controller name. */
  ghost predicate ServiceFails(s: Service)
  {
    && s.slices != [] && s.hasSelector && s.pods != [] && s.slices[0].hasOwner
    && (exists p :: p in s.slices[0].ports && IsExposed(s.pods[0], p))
    && !HasControllerName(s.pods[0])
  }

  lemma ServiceFailsWhenLoaded(s: Service)
    requires Listed(s)
    ensures ServiceFails(s) <==> Loaded(s).slice.ports != [] && NameFails(Loaded(s))
  {
    var ports := Loaded(s).slice.ports;
    ControllerNameExists(s.pods[0]);
    if ports != [] {
      ExposedExactly(s.pods[0], s.slices[0].ports, ports[0]);
      assert ports[0] in ports;
    }
    if p :| p in s.slices[0].ports && IsExposed(s.pods[0], p) { ExposedExactly(s.pods[0], s.slices[0].ports, p); }
  }

  lemma LoadedFailures(services: seq<Service>)
    ensures (exists info :: info in Load(services) && NameFails(info)) <==> exists s :: s in services && ServiceFails(s)
  {
    if info :| info in Load(services) && NameFails(info) {
      LoadHas(services, info);
      var s :| s in services && info in LoadOne(s);
      ServiceFailsWhenLoaded(s);
    }
    if s :| s in services && ServiceFails(s) {
      ServiceFailsWhenLoaded(s);
      LoadHas(services, Loaded(s));
      assert Loaded(s) in LoadOne(s) && NameFails(Loaded(s));
    }
  }

  lemma ReadyWhenExposed(s: Service)
    requires Listed(s)
    ensures Ready(Loaded(s))
  {
    forall p | p in Exposed(s.pods[0], s.slices[0].ports) ensures p.port.Some? {
      ExposedExactly(s.pods[0], s.slices[0].ports, p);
    }
  }

  class EndpointSlicesExporter {
    const nodeToGroup: map<string, string>
    var sliceInfo: seq<SliceInfo>

    constructor (nodeToGroup: map<string, string>)
      ensures this.nodeToGroup == nodeToGroup && sliceInfo == []
    {
      this.nodeToGroup := nodeToGroup;
      sliceInfo := [];
    }

    predicate Valid()
      reads this
    {
      forall info :: info in sliceInfo ==> Ready(info)
    }

    method LoadExposedEndpointSlicesInfo(services: seq<Service>)
      modifies this
      ensures sliceInfo == Load(services) && Valid()
    {
      var infos: seq<SliceInfo> := [];
      for i := 0 to |services|
        invariant infos == Load(services[..i])
      {
        assert services[..i + 1][..i] == services[..i];
        var service := services[i];
        if |service.slices| == 0 || !service.hasSelector || |service.pods| == 0 {
          continue;
        }
        var pod := service.pods[0];
        var ports := service.slices[0].ports;
        if !pod.hostNetwork {
          var epsPortsInfo := GetEndpointSlicePortsFromPod(pod, ports);
          ports := FilterEndpointPortsByPodHostPort(epsPortsInfo);
        }
        if |ports| == 0 {
          assert Pairs(pod, []) == [];
          continue;
        }
        var epsPortsInfo := GetEndpointSlicePortsFromPod(pod, ports);
        var portsNoLocalhost := FilterOutLocalhostPorts(epsPortsInfo);
        if |portsNoLocalhost| == 0 {
          continue;
        }
        infos := infos + [SliceInfo(service.slices[0].(ports := portsNoLocalhost), service)];
      }
      assert services[..|services|] == services;
      LoadedAreReady(services);
      sliceInfo := infos;
    }

    /** Slices without an owner are skipped, a name that does not resolve is an error, and all other slices
        give their entries, each once and in any order. */
    method ToComDetails() returns (result: Option<seq<ComDetails>>)
      requires Valid()
      ensures result.None? <==> exists info :: info in sliceInfo && NameFails(info)
      ensures result.Some? ==> forall x :: x in result.value <==> SomeHasEntry(sliceInfo, nodeToGroup, x)
      ensures result.Some? ==> Distinct(result.value)
    {
      var comDetails: seq<ComDetails> := [];
      for i := 0 to |sliceInfo|
        invariant forall info :: info in sliceInfo[..i] ==> !NameFails(info)
        invariant forall x :: x in comDetails <==> SomeHasEntry(sliceInfo[..i], nodeToGroup, x)
      {
        assert sliceInfo[i] in sliceInfo;
        assert sliceInfo[..i + 1] == sliceInfo[..i] + [sliceInfo[i]];
        var cds := ToComDetailsWithGroups(sliceInfo[i], nodeToGroup);
        match cds {
          case NoOwnerRef =>
          case NameError => return None;
          case Entries(details) => comDetails := comDetails + details;
        }
        forall x ensures x in comDetails <==> SomeHasEntry(sliceInfo[..i + 1], nodeToGroup, x) {
          SomeHasEntryNext(sliceInfo[..i], sliceInfo[i], nodeToGroup, x);
        }
      }
      assert sliceInfo[..|sliceInfo|] == sliceInfo;
      var cleanedComDetails := RemoveDups(comDetails);
      result := Some(cleanedComDetails);
    }
  }
}
