/** Assembling the endpoint matrix: the entries of the endpoint slices in an arbitrary order, static entries
    expanded over the pools of a map walked in an arbitrary order, and custom entries; then normalised. */
module EndpointMatrix {
  import opened EndpointSlices
  import opened Matrix
  import opened Nodes
  import opened NormalForm
  import opened Seqs
  import opened Sorting
  import opened Text
  import opened Types

  // ----- Static entries -----

  /** One static entry over the pools in the order they are walked. */
  function Block(se: ComDetails, poolToRoles: map<string, seq<string>>, order: seq<string>): seq<ComDetails>
  {
    if order == [] then []
    else
      var pool := order[|order| - 1];
      Block(se, poolToRoles, order[..|order| - 1])
      + if Observed(poolToRoles, pool, se.nodeGroup) then [se.(nodeGroup := pool)] else []
  }

  /** All static entries; the map may be walked in a different order for each. */
  function Expansion(entries: seq<ComDetails>, poolToRoles: map<string, seq<string>>,
                     orders: seq<seq<string>>): seq<ComDetails>
    requires |orders| == |entries|
  {
    if entries == [] then []
    else
      var n := |entries| - 1;
      Expansion(entries[..n], poolToRoles, orders[..n]) + Block(entries[n], poolToRoles, orders[n])
  }

  ghost predicate AreWalks(orders: seq<seq<string>>, poolToRoles: map<string, seq<string>>)
  {
    forall i :: 0 <= i < |orders| ==> Visits(orders[i], poolToRoles.Keys)
  }

  ghost predicate IsExpansion(entries: seq<ComDetails>, poolToRoles: map<string, seq<string>>, out: seq<ComDetails>)
  {
    if poolToRoles == map[] then out == entries
    else exists orders ::
      |orders| == |entries| && AreWalks(orders, poolToRoles) && out == Expansion(entries, poolToRoles, orders)
  }

  method ExpandStaticEntriesByPool(staticEntries: seq<ComDetails>, poolToRoles: map<string, seq<string>>)
    returns (out: seq<ComDetails>)
    ensures IsExpansion(staticEntries, poolToRoles, out)
  {
    if |poolToRoles| == 0 {
      return staticEntries;
    }
    out := [];
    ghost var orders := [];
    for i := 0 to |staticEntries|
      invariant |orders| == i && AreWalks(orders, poolToRoles)
      invariant out == Expansion(staticEntries[..i], poolToRoles, orders)
    {
      var se := staticEntries[i];
      var block, order := ExpandEntry(se, poolToRoles);
      assert staticEntries[..i + 1][..i] == staticEntries[..i];
      assert (orders + [order])[..i] == orders;
      out := out + block;
      orders := orders + [order];
    }
    assert staticEntries[..|staticEntries|] == staticEntries;
  }

  /** The inner loop, over the map. */
  method ExpandEntry(se: ComDetails, poolToRoles: map<string, seq<string>>) returns (block: seq<ComDetails>,
                     ghost order: seq<string>)
    ensures Visits(order, poolToRoles.Keys) && block == Block(se, poolToRoles, order)
  {
    block, order := [], [];
    var remaining := poolToRoles.Keys;
    while remaining != {}
      invariant remaining <= poolToRoles.Keys
      invariant Visits(order, poolToRoles.Keys - remaining)
      invariant block == Block(se, poolToRoles, order)
    {
      var poolName :| poolName in remaining;
      assert (order + [poolName])[..|order|] == order;
      if se.nodeGroup in poolToRoles[poolName] {
        block := block + [se.(nodeGroup := poolName)];
      }
      order := order + [poolName];
      remaining := remaining - {poolName};
    }
  }

  /** `x` is the copy of `se` for a pool that lists its role. */
  predicate IsCopyIn(poolToRoles: map<string, seq<string>>, se: ComDetails, x: ComDetails)
  {
    Observed(poolToRoles, x.nodeGroup, se.nodeGroup) && x == se.(nodeGroup := x.nodeGroup)
  }

  lemma {:induction false} BlockHas(se: ComDetails, poolToRoles: map<string, seq<string>>, order: seq<string>,
                                    x: ComDetails)
    ensures x in Block(se, poolToRoles, order)
      <==> x.nodeGroup in order && IsCopyIn(poolToRoles, se, x)
  {
    if order != [] {
      BlockHas(se, poolToRoles, order[..|order| - 1], x);
      assert order == order[..|order| - 1] + [order[|order| - 1]];
    }
  }

  /** No pool gets two copies of one entry. */
  lemma {:induction false} BlockIsDistinct(se: ComDetails, poolToRoles: map<string, seq<string>>, order: seq<string>)
    requires Visits(order, poolToRoles.Keys) || Distinct(order)
    ensures Distinct(Block(se, poolToRoles, order))
  {
    if order != [] {
      var front, pool := order[..|order| - 1], order[|order| - 1];
      BlockIsDistinct(se, poolToRoles, front);
      BlockHas(se, poolToRoles, front, se.(nodeGroup := pool));
    }
  }

  /** The copies of one entry differ in their group alone, so their keys differ however they print. */
  lemma CopiesHaveKeys(se: ComDetails, p: string, q: string)
    requires Key(se.(nodeGroup := p)) == Key(se.(nodeGroup := q))
    ensures p == q
  {
    KeyIsGroupAndTail(se.(nodeGroup := p));
    KeyIsGroupAndTail(se.(nodeGroup := q));
    SameTailSameGroup(p, q, Tail(se));
  }

  lemma BlockFirst(se: ComDetails, poolToRoles: map<string, seq<string>>, order: seq<string>, other: seq<string>,
                   k: string)
    requires Visits(order, poolToRoles.Keys) && Visits(other, poolToRoles.Keys)
    ensures FirstOf(Block(se, poolToRoles, order), k) == FirstOf(Block(se, poolToRoles, other), k)
  {
    var a, b := Block(se, poolToRoles, order), Block(se, poolToRoles, other);
    FirstOfFinds(a, k);
    FirstOfFinds(b, k);
    forall x ensures x in a <==> x in b {
      BlockHas(se, poolToRoles, order, x);
      BlockHas(se, poolToRoles, other, x);
    }
    if HasKey(a, k) {
      var x, y := FirstOf(a, k).value, FirstOf(b, k).value;
      BlockHas(se, poolToRoles, order, x);
      BlockHas(se, poolToRoles, order, y);
      CopiesHaveKeys(se, x.nodeGroup, y.nodeGroup);
    }
  }

  lemma {:induction false} ExpansionFirst(entries: seq<ComDetails>, poolToRoles: map<string, seq<string>>,
                                          orders: seq<seq<string>>, others: seq<seq<string>>, k: string)
    requires |orders| == |others| == |entries| && AreWalks(orders, poolToRoles) && AreWalks(others, poolToRoles)
    ensures FirstOf(Expansion(entries, poolToRoles, orders), k) == FirstOf(Expansion(entries, poolToRoles, others), k)
  {
    if entries != [] {
      var n := |entries| - 1;
      ExpansionFirst(entries[..n], poolToRoles, orders[..n], others[..n], k);
      BlockFirst(entries[n], poolToRoles, orders[n], others[n], k);
      FirstOfAppend(Expansion(entries[..n], poolToRoles, orders[..n]), Block(entries[n], poolToRoles, orders[n]), k);
      FirstOfAppend(Expansion(entries[..n], poolToRoles, others[..n]), Block(entries[n], poolToRoles, others[n]), k);
    }
  }

  /** The order in which the map is walked does not show once the entries are normalised, whatever stands
      before and after them, even when one pool holds both roles and copies collide. */
  lemma MapOrderDoesNotShow(entries: seq<ComDetails>, poolToRoles: map<string, seq<string>>,
                            out: seq<ComDetails>, other: seq<ComDetails>, before: seq<ComDetails>,
                            after: seq<ComDetails>)
    requires IsExpansion(entries, poolToRoles, out) && IsExpansion(entries, poolToRoles, other)
    ensures Normalise(before + out + after) == Normalise(before + other + after)
  {
    forall k ensures FirstOf(before + out + after, k) == FirstOf(before + other + after, k) {
      SameFirst(entries, poolToRoles, out, other, k);
      FirstOfAppend(before + out, after, k);
      FirstOfAppend(before + other, after, k);
      FirstOfAppend(before, out, k);
      FirstOfAppend(before, other, k);
    }
    SameFirstsSameNormalForm(before + out + after, before + other + after);
  }

  lemma SameFirst(entries: seq<ComDetails>, poolToRoles: map<string, seq<string>>, out: seq<ComDetails>,
                  other: seq<ComDetails>, k: string)
    requires IsExpansion(entries, poolToRoles, out) && IsExpansion(entries, poolToRoles, other)
    ensures FirstOf(out, k) == FirstOf(other, k)
  {
    if poolToRoles != map[] {
      var orders :| |orders| == |entries| && AreWalks(orders, poolToRoles)
        && out == Expansion(entries, poolToRoles, orders);
      var others :| |others| == |entries| && AreWalks(others, poolToRoles)
        && other == Expansion(entries, poolToRoles, others);
      ExpansionFirst(entries, poolToRoles, orders, others, k);
    }
  }

  lemma {:induction false} ExpansionHas(entries: seq<ComDetails>, poolToRoles: map<string, seq<string>>,
                                        orders: seq<seq<string>>, x: ComDetails)
    requires |orders| == |entries| && AreWalks(orders, poolToRoles)
    ensures x in Expansion(entries, poolToRoles, orders)
      <==> exists se :: se in entries && IsCopyIn(poolToRoles, se, x)
  {
    if entries != [] {
      var n := |entries| - 1;
      ExpansionHas(entries[..n], poolToRoles, orders[..n], x);
      BlockHas(entries[n], poolToRoles, orders[n], x);
      assert entries == entries[..n] + [entries[n]];
    }
  }

  // ----- Assembly -----

  /** What the cluster and the user supply. */
  datatype Inputs = Inputs(
    services: seq<Service>, staticEntries: seq<ComDetails>, nodes: seq<Node>, nodeToGroup: map<string, string>,
    dynamicRanges: seq<DynamicRange>, custom: Option<MatrixValue>)

  /** `x` is for an exposed port of a service, and a group of its endpoints. */
  ghost predicate IsEndpointEntry(i: Inputs, x: ComDetails)
  {
    exists s, p, g :: s in i.services && IsExposedEntry(s, i.nodeToGroup, p, g, x)
  }

  predicate IsCustomEntry(i: Inputs, x: ComDetails) { i.custom.Some? && x in i.custom.value.ports }

  function CustomPorts(i: Inputs): seq<ComDetails>
  {
    if i.custom.Some? then i.custom.value.ports else []
  }

  function AllRanges(i: Inputs): seq<DynamicRange>
  {
    i.dynamicRanges + if i.custom.Some? then i.custom.value.ranges else []
  }

  ghost predicate AreRoles(i: Inputs, roles: map<string, seq<string>>)
  {
    && (forall pool, role :: Observed(roles, pool, role) <==> RoleInPool(i.nodes, i.nodeToGroup, pool, role))
    && (forall pool :: pool in roles ==> roles[pool] != [])
  }

  ghost predicate ListsEndpoints(i: Inputs, distinct: seq<ComDetails>)
  {
    Distinct(distinct) && forall x :: x in distinct <==> IsEndpointEntry(i, x)
  }

  /** One run of the assembly: which order removeDups gave, and which expansion the map walks gave. */
  ghost predicate IsRun(i: Inputs, roles: map<string, seq<string>>, distinct: seq<ComDetails>,
                        expanded: seq<ComDetails>, ports: seq<ComDetails>)
  {
    && AreRoles(i, roles)
    && ListsEndpoints(i, distinct)
    && IsExpansion(i.staticEntries, roles, expanded)
    && ports == Normalise(distinct + expanded + CustomPorts(i))
  }

  ghost predicate IsEndpointMatrix(i: Inputs, ports: seq<ComDetails>)
  {
    exists roles, distinct, expanded :: IsRun(i, roles, distinct, expanded, ports)
  }

  ghost predicate SomeServiceFails(services: seq<Service>) { exists s :: s in services && ServiceFails(s) }

  /** Null stands for the error. */
  method CreateEndpointMatrix(exporter: EndpointSlicesExporter, i: Inputs) returns (m: ComMatrix?)
    requires exporter.nodeToGroup == i.nodeToGroup
    modifies exporter
    ensures m == null <==> SomeServiceFails(i.services)
    ensures m != null ==> fresh(m) && fresh(m.RangeStorage())
    ensures m != null ==> IsEndpointMatrix(i, m.Ports) && m.Ranges() == AllRanges(i)
    ensures m != null ==> m.Ranges() == i.dynamicRanges + if i.custom.Some? then i.custom.value.ranges else []
  {
    exporter.LoadExposedEndpointSlicesInfo(i.services);
    var details := exporter.ToComDetails();
    LoadedFailures(i.services);
    if details.None? {
      return null;
    }
    var epSliceComDetails := details.value;
    forall x ensures x in epSliceComDetails <==> IsEndpointEntry(i, x) { LoadedEntries(i.services, i.nodeToGroup, x); }
    m := Assemble(i, epSliceComDetails);
  }

  /** The rest of CreateEndpointMatrix. */
  method Assemble(i: Inputs, distinct: seq<ComDetails>) returns (m: ComMatrix)
    requires ListsEndpoints(i, distinct)
    ensures fresh(m) && fresh(m.RangeStorage())
    ensures IsEndpointMatrix(i, m.Ports) && m.Ranges() == AllRanges(i)
  {
    var epSliceComDetails := distinct;
    var roles := GetPoolRolesForStaticEntriesExpansion(i.nodes, i.nodeToGroup);
    var staticEntries := ExpandStaticEntriesByPool(i.staticEntries, roles);
    epSliceComDetails := epSliceComDetails + staticEntries;
    var dynamicRanges := i.dynamicRanges;
    if i.custom.Some? {
      epSliceComDetails := epSliceComDetails + i.custom.value.ports;
      dynamicRanges := dynamicRanges + i.custom.value.ranges;
    }
    m := new ComMatrix(epSliceComDetails, dynamicRanges);
    assert m.Ports == distinct + staticEntries + CustomPorts(i);
    m.SortAndRemoveDuplicates();
    assert IsRun(i, roles, distinct, staticEntries, m.Ports);
  }

  /** A static entry for a role held by a node is in the matrix under that node's group. */
  lemma StaticEntriesAreCovered(i: Inputs, ports: seq<ComDetails>, se: ComDetails, n: Node, pool: string)
    requires IsEndpointMatrix(i, ports)
    requires se in i.staticEntries && n in i.nodes && HoldsRole(n, se.nodeGroup)
    requires InGroup(i.nodeToGroup, n.name, pool)
    ensures HasKey(ports, Key(se.(nodeGroup := pool)))
  {
    var roles, distinct, expanded :| IsRun(i, roles, distinct, expanded, ports);
    var copy := se.(nodeGroup := pool);
    assert IsCopyFor(i, se, n, copy);
    SourceIsExpanded(i, roles, expanded, copy);
    assert copy in distinct + expanded + CustomPorts(i);
    FirstOfNormalise(distinct + expanded + CustomPorts(i), Key(copy));
  }

  /** Nothing is lost: every copy for a node that holds the role is an expanded entry. */
  lemma SourceIsExpanded(i: Inputs, roles: map<string, seq<string>>, expanded: seq<ComDetails>, x: ComDetails)
    requires AreRoles(i, roles) && IsExpansion(i.staticEntries, roles, expanded) && ExpandedFrom(i, x)
    ensures x in expanded
  {
    if se, n :| IsCopyFor(i, se, n, x) {
      assert RoleInPool(i.nodes, i.nodeToGroup, x.nodeGroup, se.nodeGroup);
      assert Observed(roles, x.nodeGroup, se.nodeGroup);
      var orders :| |orders| == |i.staticEntries| && AreWalks(orders, roles)
        && expanded == Expansion(i.staticEntries, roles, orders);
      ExpansionHas(i.staticEntries, roles, orders, x);
      assert IsCopyIn(roles, se, x);
    } else {
      NoRolesNoExpansion(i, roles);
    }
  }

  ghost predicate IsCopyFor(i: Inputs, se: ComDetails, n: Node, x: ComDetails)
  {
    && se in i.staticEntries && n in i.nodes && HoldsRole(n, se.nodeGroup)
    && InGroup(i.nodeToGroup, n.name, x.nodeGroup) && x == se.(nodeGroup := x.nodeGroup)
  }

  /** `x` is a static entry for a role, under the group of a node that holds it. Where no node holds any
      role the program passes the static entries on as they are. */
  ghost predicate ExpandedFrom(i: Inputs, x: ComDetails)
  {
    || (exists se, n :: IsCopyFor(i, se, n, x))
    || (x in i.staticEntries && forall n, role :: n in i.nodes ==> !HoldsRole(n, role))
  }

  /** The endpoint matrix holds only what is supplied. */
  lemma EntryHasSource(i: Inputs, ports: seq<ComDetails>, x: ComDetails)
    requires IsEndpointMatrix(i, ports) && x in ports
    ensures IsEndpointEntry(i, x) || ExpandedFrom(i, x) || IsCustomEntry(i, x)
  {
    var roles, distinct, expanded :| IsRun(i, roles, distinct, expanded, ports);
    var all := distinct + expanded + CustomPorts(i);
    NormaliseIsNormalForm(all);
    FirstOfFinds(all, Key(x));
    assert x in distinct || x in expanded || x in CustomPorts(i);
    if x in expanded {
      ExpandedEntriesHaveNodes(i, roles, expanded, x);
    }
  }

  /** What is supplied has its key in the endpoint matrix. */
  lemma SourceHasEntry(i: Inputs, ports: seq<ComDetails>, x: ComDetails)
    requires IsEndpointMatrix(i, ports)
    requires IsEndpointEntry(i, x) || ExpandedFrom(i, x) || IsCustomEntry(i, x)
    ensures HasKey(ports, Key(x))
  {
    var roles, distinct, expanded :| IsRun(i, roles, distinct, expanded, ports);
    RunKeys(i, roles, distinct, expanded, ports, Key(x));
    if ExpandedFrom(i, x) { SourceIsExpanded(i, roles, expanded, x); }
  }

  ghost predicate ExpandedHasKey(i: Inputs, k: string) { exists x :: ExpandedFrom(i, x) && Key(x) == k }

  /** On one key, endpoint entries come before expanded static ones, and those before custom ones. */
  lemma EarlierSourceWins(i: Inputs, ports: seq<ComDetails>, x: ComDetails)
    requires IsEndpointMatrix(i, ports) && x in ports
    ensures EndpointHasKey(i, Key(x)) ==> IsEndpointEntry(i, x)
    ensures !EndpointHasKey(i, Key(x)) && ExpandedHasKey(i, Key(x)) ==> ExpandedFrom(i, x)
  {
    var roles, d, e :| IsRun(i, roles, d, e, ports);
    NormaliseIsNormalForm(d + e + CustomPorts(i));
    FirstOfAppend(d + e, CustomPorts(i), Key(x));
    FirstOfAppend(d, e, Key(x));
    FirstOfFinds(d, Key(x));
    FirstOfFinds(e, Key(x));
    if y :| IsEndpointEntry(i, y) && Key(y) == Key(x) { assert y in d; }
    if y :| ExpandedFrom(i, y) && Key(y) == Key(x) { SourceIsExpanded(i, roles, e, y); }
    if x in e { ExpandedEntriesHaveNodes(i, roles, e, x); }
  }

  lemma NoRolesNoExpansion(i: Inputs, roles: map<string, seq<string>>)
    requires AreRoles(i, roles) && forall n, role :: n in i.nodes ==> !HoldsRole(n, role)
    ensures roles == map[]
  {
    forall pool, role ensures !Observed(roles, pool, role) {
      assert !RoleInPool(i.nodes, i.nodeToGroup, pool, role);
    }
    assert forall pool :: pool in roles ==> Observed(roles, pool, roles[pool][0]);
    assert roles.Keys == {};
  }

  /** Nothing is invented: an expanded entry is the copy of a static entry for the pool of a node that
      holds its role, unless no node of the cluster holds any role. */
  lemma ExpandedEntriesHaveNodes(i: Inputs, roles: map<string, seq<string>>, expanded: seq<ComDetails>, x: ComDetails)
    requires AreRoles(i, roles) && IsExpansion(i.staticEntries, roles, expanded) && x in expanded
    ensures ExpandedFrom(i, x)
  {
    if roles == map[] {
      forall n, role | n in i.nodes ensures !HoldsRole(n, role) {
        var pool := GroupOf(i.nodeToGroup, n.name);
        assert !Observed(roles, pool, role) && InGroup(i.nodeToGroup, n.name, pool);
      }
    } else {
      var orders :| |orders| == |i.staticEntries| && AreWalks(orders, roles)
      && expanded == Expansion(i.staticEntries, roles, orders);
      ExpansionHas(i.staticEntries, roles, orders, x);
      var se :| se in i.staticEntries && IsCopyIn(roles, se, x);
      assert RoleInPool(i.nodes, i.nodeToGroup, x.nodeGroup, se.nodeGroup);
      var n :| n in i.nodes && InGroup(i.nodeToGroup, n.name, x.nodeGroup) && HoldsRole(n, se.nodeGroup);
      assert IsCopyFor(i, se, n, x);
    }
  }

  ghost predicate EndpointHasKey(i: Inputs, k: string) { exists x :: IsEndpointEntry(i, x) && Key(x) == k }

  lemma RunKeys(i: Inputs, r: map<string, seq<string>>, d: seq<ComDetails>, e: seq<ComDetails>,
                ports: seq<ComDetails>, k: string)
    requires IsRun(i, r, d, e, ports)
    ensures HasKey(ports, k) <==> EndpointHasKey(i, k) || HasKey(e, k) || HasKey(CustomPorts(i), k)
  {
    FirstOfNormalise(d + e + CustomPorts(i), k);
    HasKeyAppend(d + e, CustomPorts(i), k);
    HasKeyAppend(d, e, k);
    if HasKey(d, k) {
      var x :| x in d && Key(x) == k;
      assert IsEndpointEntry(i, x);
    }
  }

  lemma RunsAgreeOnKeys(i: Inputs, ports: seq<ComDetails>, others: seq<ComDetails>)
    requires IsEndpointMatrix(i, ports) && IsEndpointMatrix(i, others)
    ensures SameKeys(ports, others)
  {
    var r, d, e :| IsRun(i, r, d, e, ports);
    var r', d', e' :| IsRun(i, r', d', e', others);
    forall k ensures HasKey(ports, k) <==> HasKey(others, k) {
      RunKeys(i, r, d, e, ports, k);
      RunKeys(i, r', d', e', others, k);
      RolesDecideExpansion(i, r, e, r', e', k);
    }
  }

  /** Ports and protocols of the services, as far as they are given, are plain. */
  predicate PlainServices(services: seq<Service>)
  {
    forall s, slice, p :: s in services && slice in s.slices && p in slice.ports ==>
      '-' !in p.protocol && (p.port.Some? ==> p.port.value >= 0)
  }

  predicate PlainInputs(i: Inputs)
  {
    PlainServices(i.services) && AllPlain(i.staticEntries) && AllPlain(CustomPorts(i))
  }

  lemma EndpointEntryIsPlain(i: Inputs, x: ComDetails)
    requires PlainServices(i.services) && IsEndpointEntry(i, x)
    ensures Plain(x)
  {
    var s, p, g :| s in i.services && IsExposedEntry(s, i.nodeToGroup, p, g, x);
    assert s.slices[0] in s.slices;
  }

  lemma MatrixIsPlain(i: Inputs, ports: seq<ComDetails>)
    requires IsEndpointMatrix(i, ports) && PlainInputs(i)
    ensures AllPlain(ports)
  {
    forall x | x in ports ensures Plain(x) {
      EntryHasSource(i, ports, x);
      if IsEndpointEntry(i, x) { EndpointEntryIsPlain(i, x); }
      if se, n :| IsCopyFor(i, se, n, x) { assert Plain(se); }
    }
  }

  lemma MatrixIsNormal(i: Inputs, ports: seq<ComDetails>)
    requires IsEndpointMatrix(i, ports)
    ensures Normalise(ports) == ports
  {
    var roles, distinct, expanded :| IsRun(i, roles, distinct, expanded, ports);
    NormaliseAbsorbs(distinct + expanded + CustomPorts(i), []);
  }

  /** On plain inputs every run of the assembly gives the same sequence of (node group, protocol, port). */
  lemma RunsAgreeOnFlows(i: Inputs, ports: seq<ComDetails>, others: seq<ComDetails>)
    requires IsEndpointMatrix(i, ports) && IsEndpointMatrix(i, others) && PlainInputs(i)
    ensures Map(ports, Triple) == Map(others, Triple)
  {
    RunsAgreeOnKeys(i, ports, others);
    MatrixIsPlain(i, ports);
    MatrixIsPlain(i, others);
    KeysDecideExactly(ports + others);
    KeysDecideTriples(ports, others);
    MatrixIsNormal(i, ports);
    MatrixIsNormal(i, others);
  }

  lemma RolesDecideExpansion(i: Inputs, r: map<string, seq<string>>, e: seq<ComDetails>,
                             r': map<string, seq<string>>, e': seq<ComDetails>, k: string)
    requires AreRoles(i, r) && AreRoles(i, r')
    requires IsExpansion(i.staticEntries, r, e) && IsExpansion(i.staticEntries, r', e')
    ensures HasKey(e, k) <==> HasKey(e', k)
  {
    forall pool, role ensures Observed(r, pool, role) <==> Observed(r', pool, role) {
      assert Observed(r, pool, role) <==> RoleInPool(i.nodes, i.nodeToGroup, pool, role);
    }
    SameRolesSameEntries(i, r, e, r', e');
    SameRolesSameEntries(i, r', e', r, e);
  }

  lemma SameRolesSameEntries(i: Inputs, r: map<string, seq<string>>, e: seq<ComDetails>,
                             r': map<string, seq<string>>, e': seq<ComDetails>)
    requires forall pool, role :: Observed(r, pool, role) <==> Observed(r', pool, role)
    requires AreRoles(i, r) && AreRoles(i, r')
    requires IsExpansion(i.staticEntries, r, e) && IsExpansion(i.staticEntries, r', e')
    ensures forall x :: x in e ==> x in e'
  {
    forall pool | pool in r ensures pool in r' { assert Observed(r, pool, r[pool][0]); }
    forall pool | pool in r' ensures pool in r { assert Observed(r', pool, r'[pool][0]); }
    assert r == map[] <==> r' == map[] by {
      if r == map[] { assert r'.Keys == {}; }
      if r' == map[] { assert r.Keys == {}; }
    }
    if r != map[] {
      var o :| |o| == |i.staticEntries| && AreWalks(o, r) && e == Expansion(i.staticEntries, r, o);
      var o' :| |o'| == |i.staticEntries| && AreWalks(o', r') && e' == Expansion(i.staticEntries, r', o');
      forall x | x in e ensures x in e' {
        ExpansionHas(i.staticEntries, r, o, x);
        ExpansionHas(i.staticEntries, r', o', x);
      }
    }
  }
}
