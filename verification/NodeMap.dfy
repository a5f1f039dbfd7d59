/** The group of every node: its pool, its HyperShift node pool or its role, and then the custom groups. */
module NodeMap {
  import opened CustomGroups
  import opened Nodes
  import opened RenderedConfig
  import opened Text

  const ROLE_PREFIX := "node-role.kubernetes.io/"

  const NODE_POOL := "hypershift.openshift.io/nodePool"

  /** Of several other role labels any may be taken. */
  predicate IsRole(node: Node, role: string)
  {
    if MASTER in node.labels || CONTROL_PLANE in node.labels then role == "master"
    else if WORKER in node.labels then role == "worker"
    else ROLE_PREFIX + role in node.labels
  }

  method GetNodeRole(node: Node) returns (role: Option<string>)
    ensures role.Some? ==> IsRole(node, role.value)
    ensures role.None? ==> forall r :: !IsRole(node, r)
  {
    if MASTER in node.labels || CONTROL_PLANE in node.labels {
      return Some("master");
    }
    if WORKER in node.labels {
      return Some("worker");
    }
    var remaining := node.labels.Keys;
    while remaining != {}
      invariant remaining <= node.labels.Keys
      invariant forall key :: key in node.labels && ROLE_PREFIX <= key ==> key in remaining
    {
      var key :| key in remaining;
      if ROLE_PREFIX <= key {
        assert key == ROLE_PREFIX + key[|ROLE_PREFIX|..];
        return Some(key[|ROLE_PREFIX|..]);
      }
      remaining := remaining - {key};
    }
    assert forall r :: ROLE_PREFIX <= ROLE_PREFIX + r;
    role := None;
  }

  /** The HyperShift node pool if there is one, otherwise the role. */
  predicate IsGroup(node: Node, group: string)
  {
    if NODE_POOL in node.labels && node.labels[NODE_POOL] != "" then group == node.labels[NODE_POOL]
    else IsRole(node, group)
  }

  ghost predicate HasGroup(node: Node) { exists g :: IsGroup(node, g) }

  method BuildNodeToGroupMap(nodes: seq<Node>) returns (result: Option<map<string, string>>)
    ensures result.Some? <==> forall n :: n in nodes ==> HasGroup(n)
    ensures result.Some? ==> MapsNodes(result.value, nodes, IsGroup)
  {
    var nodeToGroup: map<string, string> := map[];
    for k := 0 to |nodes|
      invariant forall i :: 0 <= i < k ==> HasGroup(nodes[i])
      invariant MapsNodes(nodeToGroup, nodes[..k], IsGroup)
    {
      var node := nodes[k];
      assert nodes[..k + 1][..k] == nodes[..k];
      if NODE_POOL in node.labels && node.labels[NODE_POOL] != "" {
        assert IsGroup(node, node.labels[NODE_POOL]);
        nodeToGroup := nodeToGroup[node.name := node.labels[NODE_POOL]];
        continue;
      }
      var role := GetNodeRole(node);
      if role.None? {
        assert node in nodes;
        return None;
      }
      assert IsGroup(node, role.value);
      nodeToGroup := nodeToGroup[node.name := role.value];
    }
    assert nodes[..|nodes|] == nodes;
    result := Some(nodeToGroup);
  }

  // ----- The node map of the program -----

  /** Every node names its pool, or else every node has a node pool or a role. */
  ghost predicate HasBaseMap(nodes: seq<Node>)
  {
    (forall n :: n in nodes ==> PoolOf(n).Some?) || (forall n :: n in nodes ==> HasGroup(n))
  }

  ghost predicate IsBaseMap(m: map<string, string>, nodes: seq<Node>)
  {
    MapsNodes(m, nodes, if forall n :: n in nodes ==> PoolOf(n).Some? then IsPool() else IsGroup)
  }

  function Names(nodes: seq<Node>): set<string> { set n | n in nodes :: n.name }

  /** A node map of the cluster: pools, or else node pools and roles, with the custom groups applied. */
  ghost predicate IsNodeMap(m: map<string, string>, nodes: seq<Node>, custom: set<string>, matches: Selector)
  {
    exists base :: IsBaseMap(base, nodes) && Regrouped(m, base, matches, nodes, custom)
  }

  /** The two maps and the overrides, as the exporter and the collection of sockets both build them. It
      succeeds exactly when there is a first map and every custom selector matches a node, no node two. */
  method BuildNodeMap(nodes: seq<Node>, custom: set<string>, matches: Selector)
    returns (result: Option<map<string, string>>)
    ensures result.Some? <==> HasBaseMap(nodes) && Applicable(matches, nodes, custom, Names(nodes))
    ensures result.Some? ==> IsNodeMap(result.value, nodes, custom, matches)
  {
    var base := ResolveNodeToPool(nodes);
    if base.None? {
      base := BuildNodeToGroupMap(nodes);
      if base.None? {
        return None;
      }
    }
    MapsAllNames(base.value, nodes);
    var groups := new NodeGroups(base.value);
    var ok := groups.ApplyCustomNodeGroupOverrides(custom, matches, nodes);
    result := if ok then Some(groups.nodeToGroup) else None;
  }

  lemma {:induction false} NamedExactly(nodes: seq<Node>, name: string)
    ensures NodeNamed(nodes, name).Some? <==> name in Names(nodes)
    ensures NodeNamed(nodes, name).Some? ==> NodeNamed(nodes, name).value in nodes
  {
    if nodes != [] {
      NamedExactly(nodes[..|nodes| - 1], name);
      assert nodes == nodes[..|nodes| - 1] + [nodes[|nodes| - 1]];
    }
  }

  lemma MapsAllNames(m: map<string, string>, nodes: seq<Node>)
    requires IsBaseMap(m, nodes)
    ensures m.Keys == Names(nodes)
  {
    forall name ensures name in m <==> name in Names(nodes) { NamedExactly(nodes, name); }
  }

  ghost predicate OneGroupEach(nodes: seq<Node>)
  {
    forall n, g, h :: n in nodes && IsGroup(n, g) && IsGroup(n, h) ==> g == h
  }

  /** Where no node has a choice of role labels, the whole map is determined, whatever the order in which
      labels, groups and nodes are walked. */
  lemma NodeMapIsUnique(nodes: seq<Node>, custom: set<string>, matches: Selector, m: map<string, string>,
                        other: map<string, string>)
    requires IsNodeMap(m, nodes, custom, matches) && IsNodeMap(other, nodes, custom, matches)
    requires OneGroupEach(nodes)
    ensures m == other
  {
    var a :| IsBaseMap(a, nodes) && Regrouped(m, a, matches, nodes, custom);
    var b :| IsBaseMap(b, nodes) && Regrouped(other, b, matches, nodes, custom);
    BaseMapIsUnique(nodes, a, b);
    MapsAllNames(a, nodes);
    OutcomeIsUnique(a, matches, nodes, custom, m, other);
  }

  lemma BaseMapIsUnique(nodes: seq<Node>, a: map<string, string>, b: map<string, string>)
    requires IsBaseMap(a, nodes) && IsBaseMap(b, nodes) && OneGroupEach(nodes)
    ensures a == b
  {
    MapsAllNames(a, nodes);
    MapsAllNames(b, nodes);
    forall name | name in a ensures a[name] == b[name] {
      NamedExactly(nodes, name);
      var n := NodeNamed(nodes, name).value;
      assert n in nodes;
    }
  }
}
