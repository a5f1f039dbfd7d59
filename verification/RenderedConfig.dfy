/** The MachineConfigPool of a node, read from the name of its rendered configuration. */
module RenderedConfig {
  import opened Nodes
  import opened Text

  const PREFIX := "rendered-"

  const CURRENT_CONFIG := "machineconfiguration.openshift.io/currentConfig"

  function PoolNameFromRenderedConfig(currentConfig: string): Option<string>
  {
    if !(PREFIX <= currentConfig) then None
    else
      var trimmed := currentConfig[|PREFIX|..];
      var lastDash := LastIndex(trimmed, '-');
      if lastDash <= 0 then None else Some(trimmed[..lastDash])
  }

  ghost predicate IsRendered(name: string, pool: string, hash: string)
  {
    name == PREFIX + pool + "-" + hash && pool != "" && '-' !in hash
  }

  /** A name yields the pool P exactly when it is "rendered-", a non-empty P, "-" and a hyphen-free
      hash; P itself may hold hyphens. */
  lemma PoolNameIsInverse(name: string, pool: string)
    ensures PoolNameFromRenderedConfig(name) == Some(pool) <==> exists hash :: IsRendered(name, pool, hash)
  {
    if PREFIX <= name {
      var trimmed := name[|PREFIX|..];
      assert name == PREFIX + trimmed;
      CutAtLast(trimmed, '-', pool);
      forall hash ensures IsRendered(name, pool, hash) <==> trimmed == pool + "-" + hash && '-' !in hash && pool != "" {
        assert PREFIX + pool + "-" + hash == PREFIX + (pool + "-" + hash);
        assert (PREFIX + (pool + "-" + hash))[|PREFIX|..] == pool + "-" + hash;
      }
      var i := LastIndex(trimmed, '-');
      assert i > 0 && trimmed[..i] == pool <==> i == |pool| && pool <= trimmed && pool != "";
    } else {
      forall hash ensures !IsRendered(name, pool, hash) {
        assert PREFIX <= PREFIX + pool + "-" + hash;
      }
    }
  }

  /** The pool that the annotation of a node names, if it has one and it is well formed. */
  function PoolOf(node: Node): Option<string>
  {
    if CURRENT_CONFIG !in node.annotations then None else PoolNameFromRenderedConfig(node.annotations[CURRENT_CONFIG])
  }

  ghost function IsPool(): (Node, string) -> bool { (n: Node, pool: string) => PoolOf(n) == Some(pool) }

  /** All nodes or nothing: the map holds the pool of the last node of each name. */
  method ResolveNodeToPool(nodes: seq<Node>) returns (result: Option<map<string, string>>)
    ensures result.Some? <==> forall n :: n in nodes ==> PoolOf(n).Some?
    ensures result.Some? ==> MapsNodes(result.value, nodes, IsPool()) && "" !in result.value.Values
  {
    var nodeToPool: map<string, string> := map[];
    for k := 0 to |nodes|
      invariant forall i :: 0 <= i < k ==> PoolOf(nodes[i]).Some?
      invariant MapsNodes(nodeToPool, nodes[..k], IsPool()) && "" !in nodeToPool.Values
    {
      var node := nodes[k];
      assert nodes[..k + 1][..k] == nodes[..k];
      if CURRENT_CONFIG !in node.annotations {
        assert node in nodes;
        return None;
      }
      var current := node.annotations[CURRENT_CONFIG];
      var pool := PoolNameFromRenderedConfig(current);
      PoolNameIsNotEmpty(current);
      if pool.None? || pool.value == "" {
        assert node in nodes;
        return None;
      }
      nodeToPool := nodeToPool[node.name := pool.value];
    }
    assert nodes[..|nodes|] == nodes;
    result := Some(nodeToPool);
  }

  lemma PoolNameIsNotEmpty(name: string)
    ensures PoolNameFromRenderedConfig(name) != Some("")
  {
    PoolNameIsInverse(name, "");
  }
}
