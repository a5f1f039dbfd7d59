/** Moving nodes to custom groups by label selector, walking the maps of groups and nodes in any order. */
module CustomGroups {
  import opened Nodes
  import opened Text

  /** Whether the selector of a group matches the labels of a node; any fixed predicate. */
  type Selector = (string, map<string, string>) -> bool

  /** The group's selector matches the node of that name. */
  function Selects(matches: Selector, nodes: seq<Node>): (string, string) -> bool
  {
    (group: string, name: string) =>
      var node := NodeNamed(nodes, name);
      node.Some? && matches(group, node.value.labels)
  }

  ghost predicate SelectsSome(selects: (string, string) -> bool, group: string, names: set<string>)
  {
    exists name :: name in names && selects(group, name)
  }

  /** Every group's selector matches a mapped node. */
  ghost predicate AllSelectSome(selects: (string, string) -> bool, groups: set<string>, names: set<string>)
  {
    forall g | g in groups :: SelectsSome(selects, g, names)
  }

  /** No node that is mapped matches two of the groups. */
  ghost predicate Unambiguous(selects: (string, string) -> bool, groups: set<string>, names: set<string>)
  {
    forall name, g, h | name in names && g in groups && h in groups && selects(g, name) && selects(h, name) :: g == h
  }

  ghost predicate CanApply(selects: (string, string) -> bool, groups: set<string>, names: set<string>)
  {
    AllSelectSome(selects, groups, names) && Unambiguous(selects, groups, names)
  }

  /** `matchedBy` records, for the mapped nodes that match one of the groups, the only one they match. */
  ghost predicate Records(matchedBy: map<string, string>, selects: (string, string) -> bool, groups: set<string>,
                          names: set<string>)
  {
    && (forall name | name in matchedBy :: name in names && matchedBy[name] in groups && selects(matchedBy[name], name))
    && (forall name, g | name in names && g in groups && selects(g, name) :: name in matchedBy && matchedBy[name] == g)
  }

  /** `now` is `original` with the recorded groups in place of the original ones. */
  ghost predicate Overrides(now: map<string, string>, original: map<string, string>, matchedBy: map<string, string>)
  {
    && now.Keys == original.Keys && matchedBy.Keys <= original.Keys
    && (forall name | name in now :: now[name] == if name in matchedBy then matchedBy[name] else original[name])
  }

  /** `matchedBy` adds to `init` the nodes among `seen` that the group selects, none of them recorded before. */
  ghost predicate Extends(init: map<string, string>, matchedBy: map<string, string>,
                          selects: (string, string) -> bool, group: string, seen: set<string>)
  {
    && (forall name | name in init :: name in matchedBy && matchedBy[name] == init[name])
    && (forall name | name in matchedBy && name !in init ::
      name in seen && selects(group, name) && matchedBy[name] == group)
    && (forall name | name in seen && selects(group, name) :: name in matchedBy && name !in init)
  }

  ghost predicate SelectedBy(selects: (string, string) -> bool, groups: set<string>, name: string)
  {
    exists g :: g in groups && selects(g, name)
  }

  /** Matched nodes hold a custom group that matches them, all others the group they had. */
  ghost predicate IsOutcome(now: map<string, string>, original: map<string, string>,
                            selects: (string, string) -> bool, groups: set<string>)
  {
    && now.Keys == original.Keys
    && (forall name | name in now ::
      if SelectedBy(selects, groups, name) then now[name] in groups && selects(now[name], name)
      else now[name] == original[name])
  }

  /** Failed or not, a node holds the group it had or a custom group that matches it. */
  ghost predicate OnlyMovesToSelected(now: map<string, string>, original: map<string, string>,
                                      selects: (string, string) -> bool, groups: set<string>)
  {
    forall name | name in now && name in original && now[name] != original[name] ::
      now[name] in groups && selects(now[name], name)
  }

  class NodeGroups {
    var nodeToGroup: map<string, string>

    constructor (m: map<string, string>)
      ensures nodeToGroup == m
    {
      nodeToGroup := m;
    }

    /** `custom` are the names of the custom groups. Success does not depend on the order of the walks, and
        neither do the groups on success. Failed or not, a node holds the group it had or a custom one whose
        selector matches its labels. */
    method ApplyCustomNodeGroupOverrides(custom: set<string>, matches: Selector, nodes: seq<Node>) returns (ok: bool)
      modifies this
      ensures ok <==> Applicable(matches, nodes, custom, old(nodeToGroup).Keys)
      ensures ok ==> Regrouped(nodeToGroup, old(nodeToGroup), matches, nodes, custom)
      ensures nodeToGroup.Keys == old(nodeToGroup).Keys
      ensures OnlyMovesToMatching(nodeToGroup, old(nodeToGroup), matches, nodes, custom)
    {
      ok := ApplyAll(custom, matches, nodes);
      ApplicableExactly(matches, nodes, custom, old(nodeToGroup).Keys);
      if ok { OutcomeIsRegrouping(nodeToGroup, old(nodeToGroup), matches, nodes, custom); }
      MovesAreMatching(nodeToGroup, old(nodeToGroup), matches, nodes, custom);
    }

    /** The outer loop, over the custom groups. */
    method ApplyAll(custom: set<string>, matches: Selector, nodes: seq<Node>) returns (ok: bool)
      modifies this
      ensures ok <==> CanApply(Selects(matches, nodes), custom, old(nodeToGroup).Keys)
      ensures ok ==> IsOutcome(nodeToGroup, old(nodeToGroup), Selects(matches, nodes), custom)
      ensures nodeToGroup.Keys == old(nodeToGroup).Keys
      ensures OnlyMovesToSelected(nodeToGroup, old(nodeToGroup), Selects(matches, nodes), custom)
    {
      var selects := Selects(matches, nodes);
      ghost var original := nodeToGroup;
      var matchedBy: map<string, string> := map[];
      var remaining := custom;
      assert custom - remaining == {};
      while remaining != {}
        invariant remaining <= custom
        invariant Records(matchedBy, selects, custom - remaining, original.Keys)
        invariant Overrides(nodeToGroup, original, matchedBy)
        invariant AllSelectSome(selects, custom - remaining, original.Keys)
      {
        var customGroup :| customGroup in remaining;
        ghost var done := custom - remaining;
        ok, matchedBy := ApplyNext(customGroup, selects, matchedBy, original, done, custom);
        if !ok {
          return;
        }
        remaining := remaining - {customGroup};
        assert custom - remaining == done + {customGroup};
      }
      assert custom - remaining == custom;
      RecordedIsUnambiguous(matchedBy, selects, custom, original.Keys);
      RecordedMoves(nodeToGroup, original, matchedBy, selects, custom, custom);
      ok := true;
    }

    /** The body of the outer loop: it fails on a clash, or when the group's selector matched nothing. */
    method ApplyNext(customGroup: string, selects: (string, string) -> bool, init: map<string, string>,
                     ghost original: map<string, string>, ghost done: set<string>, ghost custom: set<string>)
      returns (ok: bool, matchedBy: map<string, string>)
      requires Overrides(nodeToGroup, original, init) && Records(init, selects, done, original.Keys)
      requires done <= custom && customGroup in custom && customGroup !in done
      modifies this
      ensures nodeToGroup.Keys == original.Keys
      ensures ok ==> Overrides(nodeToGroup, original, matchedBy)
      ensures ok ==> Records(matchedBy, selects, done + {customGroup}, original.Keys)
      ensures ok ==> SelectsSome(selects, customGroup, original.Keys)
      ensures !ok ==> !CanApply(selects, custom, original.Keys)
      ensures !ok ==> OnlyMovesToSelected(nodeToGroup, original, selects, custom)
    {
      var prevLen := |init|;
      var clash;
      clash, matchedBy := ApplyGroup(customGroup, selects, init, original);
      if clash {
        ClashIsAmbiguous(selects, custom, done, original.Keys, init, customGroup);
        ClashMoves(nodeToGroup, original, init, selects, done, custom, customGroup);
        return false, matchedBy;
      }
      ExtendedRecords(init, matchedBy, selects, customGroup, done, original.Keys);
      ExtendedCount(init, matchedBy, selects, customGroup, original.Keys);
      ok := |matchedBy| != prevLen;
      if !ok {
        RecordedMoves(nodeToGroup, original, matchedBy, selects, done + {customGroup}, custom);
      }
    }

    /** The inner loop over the mapped nodes, for one group; a clash is a node recorded before. */
    method ApplyGroup(customGroup: string, selects: (string, string) -> bool, init: map<string, string>,
                      ghost original: map<string, string>)
      returns (clash: bool, matchedBy: map<string, string>)
      requires Overrides(nodeToGroup, original, init)
      modifies this
      ensures nodeToGroup.Keys == original.Keys
      ensures clash ==> exists name :: name in init && selects(customGroup, name)
      ensures forall name | name in nodeToGroup && name !in init ::
        nodeToGroup[name] == original[name] || (nodeToGroup[name] == customGroup && selects(customGroup, name))
      ensures forall name | name in init :: nodeToGroup[name] == init[name]
      ensures !clash ==> Overrides(nodeToGroup, original, matchedBy)
      ensures !clash ==> Extends(init, matchedBy, selects, customGroup, original.Keys)
    {
      matchedBy := init;
      var remaining := nodeToGroup.Keys;
      while remaining != {}
        invariant remaining <= original.Keys
        invariant Overrides(nodeToGroup, original, matchedBy)
        invariant Extends(init, matchedBy, selects, customGroup, original.Keys - remaining)
      {
        var nodeName :| nodeName in remaining;
        if selects(customGroup, nodeName) {
          if nodeName in matchedBy {
            return true, matchedBy;
          }
          matchedBy := matchedBy[nodeName := customGroup];
          nodeToGroup := nodeToGroup[nodeName := customGroup];
        }
        remaining := remaining - {nodeName};
      }
      assert original.Keys - remaining == original.Keys;
      clash := false;
    }
  }

  lemma ClashIsAmbiguous(selects: (string, string) -> bool, custom: set<string>, done: set<string>, names: set<string>,
                         matchedBy: map<string, string>, group: string)
    requires Records(matchedBy, selects, done, names) && done <= custom && group in custom && group !in done
    requires exists name :: name in matchedBy && selects(group, name)
    ensures !Unambiguous(selects, custom, names)
  {
    var name :| name in matchedBy && selects(group, name);
    assert matchedBy[name] in done && selects(matchedBy[name], name);
  }

  lemma ExtendedRecords(init: map<string, string>, extended: map<string, string>, selects: (string, string) -> bool,
                        group: string, done: set<string>, names: set<string>)
    requires Records(init, selects, done, names) && group !in done
    requires Extends(init, extended, selects, group, names)
    ensures Records(extended, selects, done + {group}, names)
  {}

  lemma ExtendedCount(init: map<string, string>, extended: map<string, string>, selects: (string, string) -> bool,
                      group: string, names: set<string>)
    requires Extends(init, extended, selects, group, names)
    ensures |extended| == |init| <==> !SelectsSome(selects, group, names)
  {
    var added := extended.Keys - init.Keys;
    assert extended.Keys == init.Keys + added;
    assert |extended.Keys| == |init.Keys| + |added|;
    if SelectsSome(selects, group, names) {
      var name :| name in names && selects(group, name);
      assert name in added;
    } else {
      assert added == {};
    }
  }

  lemma RecordedMoves(now: map<string, string>, original: map<string, string>, matchedBy: map<string, string>,
                      selects: (string, string) -> bool, groups: set<string>, custom: set<string>)
    requires Records(matchedBy, selects, groups, original.Keys) && groups <= custom
    requires Overrides(now, original, matchedBy)
    ensures OnlyMovesToSelected(now, original, selects, custom)
    ensures IsOutcome(now, original, selects, groups)
  {}

  lemma ClashMoves(now: map<string, string>, original: map<string, string>, init: map<string, string>,
                   selects: (string, string) -> bool, done: set<string>, custom: set<string>, group: string)
    requires Records(init, selects, done, original.Keys) && done <= custom && group in custom
    requires now.Keys == original.Keys
    requires forall name | name in now && name !in init ::
      now[name] == original[name] || (now[name] == group && selects(group, name))
    requires forall name | name in init :: now[name] == init[name]
    ensures OnlyMovesToSelected(now, original, selects, custom)
  {}

  lemma RecordedIsUnambiguous(matchedBy: map<string, string>, selects: (string, string) -> bool, groups: set<string>,
                              names: set<string>)
    requires Records(matchedBy, selects, groups, names)
    ensures Unambiguous(selects, groups, names)
  {}

  // ----- In terms of nodes and selectors -----

  /** `n` is the node that its name stands for: the last one listed under it. */
  ghost predicate Stands(nodes: seq<Node>, n: Node)
  {
    exists i :: 0 <= i < |nodes| && nodes[i] == n && forall j :: i < j < |nodes| ==> nodes[j].name != n.name
  }

  ghost predicate Mapped(nodes: seq<Node>, names: set<string>, n: Node) { n.name in names && Stands(nodes, n) }

  ghost predicate MatchesSome(matches: Selector, nodes: seq<Node>, names: set<string>, group: string)
  {
    exists n :: Mapped(nodes, names, n) && matches(group, n.labels)
  }

  /** Every custom selector matches a mapped node, and no mapped node matches two of them. */
  ghost predicate Applicable(matches: Selector, nodes: seq<Node>, custom: set<string>, names: set<string>)
  {
    && (forall g :: g in custom ==> MatchesSome(matches, nodes, names, g))
    && (forall n, g, h | Mapped(nodes, names, n) && MatchesBoth(matches, custom, n, g, h) :: g == h)
  }

  ghost predicate MatchesBoth(matches: Selector, custom: set<string>, n: Node, g: string, h: string)
  {
    g in custom && h in custom && matches(g, n.labels) && matches(h, n.labels)
  }

  ghost predicate MatchesNone(matches: Selector, custom: set<string>, n: Node)
  {
    forall g :: g in custom ==> !matches(g, n.labels)
  }

  /** A mapped node that a custom selector matches is in that group, one that none matches is where it was,
      and so is a name without a node. */
  ghost predicate Regrouped(now: map<string, string>, original: map<string, string>, matches: Selector,
                            nodes: seq<Node>, custom: set<string>)
  {
    && now.Keys == original.Keys
    && (forall n, g :: Mapped(nodes, original.Keys, n) && g in custom && matches(g, n.labels) ==> now[n.name] == g)
    && (forall n :: Mapped(nodes, original.Keys, n) && MatchesNone(matches, custom, n) ==>
          now[n.name] == original[n.name])
    && (forall name :: name in original && (forall n :: n in nodes ==> n.name != name) ==> now[name] == original[name])
  }

  ghost predicate OnlyMovesToMatching(now: map<string, string>, original: map<string, string>, matches: Selector,
                                      nodes: seq<Node>, custom: set<string>)
  {
    forall name | name in now && name in original && now[name] != original[name] ::
      now[name] in custom && exists n :: Stands(nodes, n) && n.name == name && matches(now[name], n.labels)
  }

  lemma {:induction false} NamedStands(nodes: seq<Node>, name: string)
    ensures NodeNamed(nodes, name).None? <==> forall n :: n in nodes ==> n.name != name
    ensures forall n :: NodeNamed(nodes, name) == Some(n) <==> Stands(nodes, n) && n.name == name
  {
    if nodes != [] {
      var front, last := nodes[..|nodes| - 1], nodes[|nodes| - 1];
      NamedStands(front, name);
      assert nodes == front + [last];
      forall n ensures Stands(nodes, n) <==> n == last || (n.name != last.name && Stands(front, n)) {
        StandsNext(front, last, n);
      }
    }
  }

  lemma StandsNext(front: seq<Node>, last: Node, n: Node)
    ensures Stands(front + [last], n) <==> n == last || (n.name != last.name && Stands(front, n))
  {
    var nodes := front + [last];
    if n == last {
      assert nodes[|front|] == n;
    } else if n.name != last.name && Stands(front, n) {
      var i :| 0 <= i < |front| && front[i] == n && forall j :: i < j < |front| ==> front[j].name != n.name;
      assert nodes[i] == n;
    }
    if Stands(nodes, n) && n != last {
      var i :| 0 <= i < |nodes| && nodes[i] == n && forall j :: i < j < |nodes| ==> nodes[j].name != n.name;
      assert i < |front| && front[i] == n;
      assert nodes[|front|] == last;
      assert forall j :: i < j < |front| ==> front[j] == nodes[j];
    }
  }

  lemma SelectsMatching(matches: Selector, nodes: seq<Node>)
    ensures forall g, name ::
      Selects(matches, nodes)(g, name) <==> exists n :: Stands(nodes, n) && n.name == name && matches(g, n.labels)
    ensures forall n, g :: Stands(nodes, n) ==> (Selects(matches, nodes)(g, n.name) <==> matches(g, n.labels))
  {
    forall g, name
      ensures Selects(matches, nodes)(g, name) <==>
        exists n :: Stands(nodes, n) && n.name == name && matches(g, n.labels)
      ensures forall n :: Stands(nodes, n) && n.name == name ==>
        (Selects(matches, nodes)(g, name) <==> matches(g, n.labels))
    {
      NamedStands(nodes, name);
    }
  }

  lemma ApplicableExactly(matches: Selector, nodes: seq<Node>, custom: set<string>, names: set<string>)
    ensures Applicable(matches, nodes, custom, names) <==> CanApply(Selects(matches, nodes), custom, names)
  {
    var selects := Selects(matches, nodes);
    SelectsMatching(matches, nodes);
    forall g ensures MatchesSome(matches, nodes, names, g) <==> SelectsSome(selects, g, names) {}
    if CanApply(selects, custom, names) {
      forall n, g, h | Mapped(nodes, names, n) && MatchesBoth(matches, custom, n, g, h) ensures g == h {
        assert selects(g, n.name) && selects(h, n.name);
      }
    }
    if Applicable(matches, nodes, custom, names) {
      forall name, g, h | name in names && g in custom && h in custom && selects(g, name) && selects(h, name)
        ensures g == h
      {
        var n :| Stands(nodes, n) && n.name == name && matches(g, n.labels);
        assert Mapped(nodes, names, n) && MatchesBoth(matches, custom, n, g, h);
      }
    }
  }

  lemma OutcomeIsRegrouping(now: map<string, string>, original: map<string, string>, matches: Selector,
                            nodes: seq<Node>, custom: set<string>)
    requires IsOutcome(now, original, Selects(matches, nodes), custom)
    requires CanApply(Selects(matches, nodes), custom, original.Keys)
    ensures Regrouped(now, original, matches, nodes, custom)
  {
    var selects := Selects(matches, nodes);
    SelectsMatching(matches, nodes);
    forall n, g | Mapped(nodes, original.Keys, n) && g in custom && matches(g, n.labels) ensures now[n.name] == g {
      assert selects(g, n.name) && SelectedBy(selects, custom, n.name);
    }
    forall n | Mapped(nodes, original.Keys, n) && MatchesNone(matches, custom, n)
      ensures now[n.name] == original[n.name]
    {
      assert !SelectedBy(selects, custom, n.name);
    }
    forall name | name in original && (forall n :: n in nodes ==> n.name != name)
      ensures now[name] == original[name]
    {
      NamedStands(nodes, name);
      assert !SelectedBy(selects, custom, name);
    }
  }

  lemma MovesAreMatching(now: map<string, string>, original: map<string, string>, matches: Selector,
                         nodes: seq<Node>, custom: set<string>)
    requires OnlyMovesToSelected(now, original, Selects(matches, nodes), custom)
    ensures OnlyMovesToMatching(now, original, matches, nodes, custom)
  {
    SelectsMatching(matches, nodes);
  }

  /** The groups on success are the same map for every order in which groups and nodes are walked. */
  lemma OutcomeIsUnique(original: map<string, string>, matches: Selector, nodes: seq<Node>, custom: set<string>,
                        now: map<string, string>, other: map<string, string>)
    requires Regrouped(now, original, matches, nodes, custom) && Regrouped(other, original, matches, nodes, custom)
    ensures now == other
  {
    forall name | name in now ensures now[name] == other[name] {
      NamedStands(nodes, name);
      if NodeNamed(nodes, name).Some? {
        var n := NodeNamed(nodes, name).value;
        assert Mapped(nodes, original.Keys, n);
        if !MatchesNone(matches, custom, n) {
          var g :| g in custom && matches(g, n.labels);
          assert now[n.name] == g == other[n.name];
        }
      }
    }
  }

  /** With distinct node names every listed node stands for its name. */
  lemma DistinctNamesStand(nodes: seq<Node>, n: Node)
    requires forall i, j :: 0 <= i < j < |nodes| ==> nodes[i].name != nodes[j].name
    ensures Stands(nodes, n) <==> n in nodes
  {
    if n in nodes {
      var i :| 0 <= i < |nodes| && nodes[i] == n;
    }
  }

  /** With distinct node names, a node is found under its name. */
  lemma {:induction false} DistinctNamesAreFound(nodes: seq<Node>, i: nat)
    requires i < |nodes| && forall j :: 0 <= j < |nodes| && j != i ==> nodes[j].name != nodes[i].name
    ensures NodeNamed(nodes, nodes[i].name) == Some(nodes[i])
  {
    if i < |nodes| - 1 { DistinctNamesAreFound(nodes[..|nodes| - 1], i); }
  }
}
