/** Cluster nodes, and the node groups they belong to. */
module Nodes {
  import opened Text

  datatype Node = Node(name: string, labels: map<string, string>, annotations: map<string, string>)

  const MASTER := "node-role.kubernetes.io/master"
  const CONTROL_PLANE := "node-role.kubernetes.io/control-plane"
  const WORKER := "node-role.kubernetes.io/worker"

  /** The roles that static entries are written for. */
  predicate HoldsRole(n: Node, role: string)
  {
    || (role == "master" && (MASTER in n.labels || CONTROL_PLANE in n.labels))
    || (role == "worker" && WORKER in n.labels)
  }

  /** The last node listed under a name. */
  function NodeNamed(nodes: seq<Node>, name: string): Option<Node>
  {
    if nodes == [] then None
    else if nodes[|nodes| - 1].name == name then Some(nodes[|nodes| - 1])
    else NodeNamed(nodes[..|nodes| - 1], name)
  }

  /** The map names every node, and gives it a group of the last node listed under its name. */
  ghost predicate MapsNodes(m: map<string, string>, nodes: seq<Node>, isGroup: (Node, string) -> bool)
  {
    forall name ::
      && (name in m <==> NodeNamed(nodes, name).Some?)
      && (name in m ==> isGroup(NodeNamed(nodes, name).value, m[name]))
  }

  /** The node has the group that the map gives it, or none and the empty group. */
  predicate InGroup(nodeToGroup: map<string, string>, name: string, g: string)
  {
    (name in nodeToGroup && nodeToGroup[name] == g) || (name !in nodeToGroup && g == "")
  }

  /** A lookup in the node map; Go gives an unmapped node the empty group. */
  function GroupOf(nodeToGroup: map<string, string>, name: string): (g: string)
    ensures forall h :: InGroup(nodeToGroup, name, h) <==> h == g
  {
    if name in nodeToGroup then nodeToGroup[name] else ""
  }

  ghost predicate RoleInPool(nodes: seq<Node>, nodeToPool: map<string, string>, pool: string, role: string)
  {
    exists n :: n in nodes && InGroup(nodeToPool, n.name, pool) && HoldsRole(n, role)
  }

  predicate Observed(roles: map<string, seq<string>>, pool: string, role: string)
  {
    pool in roles && role in roles[pool]
  }

  /** A pool lists a role exactly when one of its nodes holds it; pools without roles are not listed. */
  method GetPoolRolesForStaticEntriesExpansion(nodes: seq<Node>, nodeToPool: map<string, string>)
    returns (observedRoles: map<string, seq<string>>)
    ensures forall pool, role :: Observed(observedRoles, pool, role) <==> RoleInPool(nodes, nodeToPool, pool, role)
    ensures forall pool :: pool in observedRoles ==> observedRoles[pool] != []
  {
    observedRoles := map[];
    for i := 0 to |nodes|
      invariant forall pool, role ::
        Observed(observedRoles, pool, role) <==> RoleInPool(nodes[..i], nodeToPool, pool, role)
      invariant forall pool :: pool in observedRoles ==> observedRoles[pool] != []
    {
      var node := nodes[i];
      assert nodes[..i + 1] == nodes[..i] + [node];
      var pool := GroupOf(nodeToPool, node.name);
      ghost var before := observedRoles;
      if (MASTER in node.labels || CONTROL_PLANE in node.labels) && !Observed(observedRoles, pool, "master") {
        observedRoles := AddRole(observedRoles, pool, "master");
      }
      if WORKER in node.labels && !Observed(observedRoles, pool, "worker") {
        observedRoles := AddRole(observedRoles, pool, "worker");
      }
      forall p, role
        ensures Observed(observedRoles, p, role) <==> RoleInPool(nodes[..i + 1], nodeToPool, p, role)
      {
        assert Observed(observedRoles, p, role) <==> Observed(before, p, role) || (p == pool && HoldsRole(node, role));
        assert RoleInPool(nodes[..i + 1], nodeToPool, p, role)
          <==> RoleInPool(nodes[..i], nodeToPool, p, role) || (p == pool && HoldsRole(node, role));
      }
    }
    assert nodes[..|nodes|] == nodes;
  }

  function AddRole(roles: map<string, seq<string>>, pool: string, role: string): (r: map<string, seq<string>>)
    ensures forall p, q :: Observed(r, p, q) <==> Observed(roles, p, q) || (p == pool && q == role)
  {
    roles[pool := (if pool in roles then roles[pool] else []) + [role]]
  }
}
