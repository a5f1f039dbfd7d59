/** The communication matrix as an object: merging, normalising and splitting by node group. */
module Matrix {
  import opened NormalForm
  import opened Seqs
  import opened Sorting
  import opened Squash
  import opened Types

  /** A matrix held by value: what a ComMatrix holds, and what the map of SeparateMatrixByGroup holds. */
  datatype MatrixValue = MatrixValue(ports: seq<ComDetails>, ranges: seq<DynamicRange>)

  class ComMatrix {
    var Ports: seq<ComDetails>
    var DynamicRanges: DynamicRangeList

    constructor (ports: seq<ComDetails>, ranges: seq<DynamicRange>)
      ensures Ports == ports && Ranges() == ranges && fresh(RangeStorage())
    {
      Ports := ports;
      DynamicRanges := new DynamicRangeList(ranges);
    }

    ghost function Value(): MatrixValue
      reads this, RangeStorage()
    {
      MatrixValue(Ports, Ranges())
    }

    ghost function Ranges(): seq<DynamicRange>
      reads this, RangeStorage()
    {
      DynamicRanges.items[..]
    }

    /** Where the ranges live: the slice and its backing array. */
    ghost function RangeStorage(): set<object>
      reads this, DynamicRanges
    {
      {DynamicRanges, DynamicRanges.items}
    }

    method Contains(cd: ComDetails) returns (found: bool)
      ensures found <==> HasKey(Ports, Key(cd))
    {
      for i := 0 to |Ports|
        invariant forall j :: 0 <= j < i ==> Key(Ports[j]) != Key(cd)
      {
        if Equals(Ports[i], cd) {
          return true;
        }
      }
      return false;
    }

    method SortAndRemoveDuplicates()
      modifies this`Ports
      ensures Ports == Normalise(old(Ports)) && InOrder(Ports)
    {
      var allKeys: map<string, bool> := map[];
      var res := [];
      for i := 0 to |Ports|
        invariant Ports == old(Ports)
        invariant res == FirstByKey(Ports[..i])
        invariant forall k :: k in allKeys <==> HasKey(res, k)
      {
        assert Ports[..i + 1][..i] == Ports[..i];
        var item := Ports[i];
        var str := Key(item);
        if str !in allKeys {
          allKeys := allKeys[str := true];
          KeysOfAppend(res, item);
          res := res + [item];
        }
      }
      assert Ports[..|Ports|] == Ports;
      var slice := new ComDetails[|res|](i requires 0 <= i < |res| => res[i]);
      assert slice[..] == res;
      CompareDetailsIsComparator();
      SortFunc(slice, CompareDetails);
      AnySortNormalises(Ports, slice[..]);
      NormaliseIsInOrder(Ports);
      Ports := slice[..];
    }

    /** Nil matrices included. Two matrices give a fresh one that shares no storage with either. */
    static method Merge(m: ComMatrix?, other: ComMatrix?) returns (result: ComMatrix)
      ensures m == null && other == null ==> fresh(result) && result.Ports == [] && result.Ranges() == []
      ensures m == null && other != null ==> result == other
      ensures m != null && other == null ==> result == m
      ensures m != null && other != null ==>
        && fresh(result) && fresh(result.RangeStorage())
        && result.Ports == Normalise(m.Ports + other.Ports) && result.Ranges() == m.Ranges() + other.Ranges()
        && result.Value() == MergedValue(m.Value(), other.Value())
    {
      if m == null && other == null {
        result := new ComMatrix([], []);
      } else if m == null {
        result := other;
      } else if other == null {
        result := m;
      } else {
        result := new ComMatrix(m.Ports + other.Ports, m.DynamicRanges.items[..] + other.DynamicRanges.items[..]);
        result.SortAndRemoveDuplicates();
      }
    }

    /** Each non-empty group gets its entries in order, and every range. */
    method SeparateMatrixByGroup() returns (res: map<string, MatrixValue>)
      ensures forall g :: g in res <==> g != "" && exists cd :: cd in Ports && cd.nodeGroup == g
      ensures forall g :: g in res ==>
        res[g] == MatrixValue(Filter(Ports, (cd: ComDetails) => cd.nodeGroup == g), Ranges())
    {
      res := map[];
      for i := 0 to |Ports|
        invariant forall g :: g in res <==> g != "" && exists cd :: cd in Ports[..i] && cd.nodeGroup == g
        invariant forall g :: g in res ==> res[g].ports == GroupEntries(Ports[..i], g)
        invariant forall g :: g != "" && g !in res ==> GroupEntries(Ports[..i], g) == []
      {
        assert Ports[..i + 1][..i] == Ports[..i];
        assert Ports[..i + 1] == Ports[..i] + [Ports[i]];
        var entry := Ports[i];
        var pool := entry.nodeGroup;
        if pool != "" {
          var cm := if pool in res then res[pool] else MatrixValue([], []);
          cm := cm.(ports := cm.ports + [entry]);
          res := res[pool := cm];
        }
      }
      assert Ports[..|Ports|] == Ports;
      res := AttachRanges(res, DynamicRanges.items[..]);
    }
  }

  /** The second loop of SeparateMatrixByGroup, over the map it rewrites. */
  method AttachRanges(split: map<string, MatrixValue>,
                      ranges: seq<DynamicRange>) returns (res: map<string, MatrixValue>)
    ensures res.Keys == split.Keys
    ensures forall g :: g in res ==> res[g] == MatrixValue(split[g].ports, ranges)
  {
    res := split;
    var pools := res.Keys;
    while pools != {}
      invariant pools <= res.Keys == split.Keys
      invariant forall g :: g in res ==> res[g].ports == split[g].ports
      invariant forall g :: g in res && g !in pools ==> res[g].ranges == ranges
    {
      var pool :| pool in pools;
      res := res[pool := res[pool].(ranges := ranges)];
      pools := pools - {pool};
    }
  }

  function GroupEntries(ports: seq<ComDetails>, g: string): seq<ComDetails>
  {
    Filter(ports, (cd: ComDetails) => cd.nodeGroup == g)
  }

  lemma KeysOfAppend(s: seq<ComDetails>, x: ComDetails)
    ensures forall k :: HasKey(s + [x], k) <==> HasKey(s, k) || k == Key(x)
  {
    forall k ensures HasKey(s + [x], k) <==> HasKey(s, k) || k == Key(x) {
      if y :| y in s && Key(y) == k { assert y in s + [x]; }
      assert x in s + [x];
    }
  }

  // ----- The algebra of Merge -----

  /** The merge of two matrices: ports normalised, ranges one after the other. */
  ghost function MergedValue(a: MatrixValue, b: MatrixValue): MatrixValue
  {
    MatrixValue(Normalise(a.ports + b.ports), a.ranges + b.ranges)
  }

  lemma MergeIsAssociative(a: MatrixValue, b: MatrixValue, c: MatrixValue)
    ensures MergedValue(MergedValue(a, b), c) == MergedValue(a, MergedValue(b, c))
  {
    NormaliseAbsorbs(a.ports + b.ports, c.ports);
    NormaliseAbsorbs(a.ports, b.ports + c.ports);
    assert (a.ports + b.ports) + c.ports == a.ports + (b.ports + c.ports);
    assert (a.ranges + b.ranges) + c.ranges == a.ranges + (b.ranges + c.ranges);
  }

  /** The left operand's entry wins: the right gives only entries whose key the left does not have. */
  lemma MergeIsLeftBiased(a: MatrixValue, b: MatrixValue, x: ComDetails)
    ensures x in MergedValue(a, b).ports <==>
      x in Normalise(a.ports) || (x in Normalise(b.ports) && !HasKey(a.ports, Key(x)))
  {
    NormaliseIsNormalForm(a.ports + b.ports);
    NormaliseIsNormalForm(a.ports);
    NormaliseIsNormalForm(b.ports);
    FirstOfAppend(a.ports, b.ports, Key(x));
    FirstOfFinds(a.ports, Key(x));
  }

  lemma MergeKeysCommute(a: MatrixValue, b: MatrixValue, k: string)
    ensures HasKey(MergedValue(a, b).ports, k) <==> HasKey(a.ports, k) || HasKey(b.ports, k)
    ensures HasKey(MergedValue(a, b).ports, k) <==> HasKey(MergedValue(b, a).ports, k)
  {
    FirstOfNormalise(a.ports + b.ports, k);
    FirstOfNormalise(b.ports + a.ports, k);
    HasKeyAppend(a.ports, b.ports, k);
    HasKeyAppend(b.ports, a.ports, k);
  }

  lemma HasKeyAppend(s: seq<ComDetails>, t: seq<ComDetails>, k: string)
    ensures HasKey(s + t, k) <==> HasKey(s, k) || HasKey(t, k)
  {
    FirstOfFinds(s + t, k);
    FirstOfFinds(s, k);
    FirstOfFinds(t, k);
    FirstOfAppend(s, t, k);
  }

  // ----- Ports outside the ranges -----

  predicate InRange(cd: ComDetails, dr: DynamicRange)
  {
    cd.protocol == dr.protocol && dr.minPort <= cd.port <= dr.maxPort
  }

  predicate OutsideRanges(cd: ComDetails, ranges: seq<DynamicRange>)
  {
    forall dr :: dr in ranges ==> !InRange(cd, dr)
  }

  method FilterOutPortsInDynamicRanges(ports: seq<ComDetails>, ranges: seq<DynamicRange>) returns (res: seq<ComDetails>)
    ensures res == Filter(ports, (cd: ComDetails) => OutsideRanges(cd, ranges))
  {
    res := [];
    for i := 0 to |ports|
      invariant res == Filter(ports[..i], (cd: ComDetails) => OutsideRanges(cd, ranges))
    {
      assert ports[..i + 1][..i] == ports[..i];
      var skip := false;
      for j := 0 to |ranges|
        invariant !skip
        invariant forall k :: 0 <= k < j ==> !InRange(ports[i], ranges[k])
      {
        if ports[i].protocol == ranges[j].protocol {
          if ports[i].port >= ranges[j].minPort && ports[i].port <= ranges[j].maxPort {
            skip := true;
            assert InRange(ports[i], ranges[j]);
            break;
          }
        }
      }
      if !skip {
        res := res + [ports[i]];
      }
    }
    assert ports[..|ports|] == ports;
  }

  /** Filtering against squashed ranges gives the same ports as filtering against the originals. */
  lemma SquashKeepsTheFilter(ports: seq<ComDetails>, ranges: seq<DynamicRange>, squashed: seq<DynamicRange>)
    requires SquashesTo(ranges, squashed)
    ensures Filter(ports, (cd: ComDetails) => OutsideRanges(cd, squashed))
         == Filter(ports, (cd: ComDetails) => OutsideRanges(cd, ranges))
  {
    SquashKeepsCover(ranges, squashed);
    forall cd | cd in ports ensures OutsideRanges(cd, squashed) == OutsideRanges(cd, ranges) {
      SameCoverSameOutside(cd, ranges, squashed);
      SameCoverSameOutside(cd, squashed, ranges);
    }
    FilterAgrees(ports, (cd: ComDetails) => OutsideRanges(cd, squashed), (cd: ComDetails) => OutsideRanges(cd, ranges));
  }

  lemma SameCoverSameOutside(cd: ComDetails, s: seq<DynamicRange>, t: seq<DynamicRange>)
    requires SameCover(s, t)
    ensures OutsideRanges(cd, s) ==> OutsideRanges(cd, t)
  {
    if OutsideRanges(cd, s) {
      forall dr | dr in t ensures !InRange(cd, dr) {
        assert Covers(s, dr.direction, cd.protocol, cd.port) <==> Covers(t, dr.direction, cd.protocol, cd.port);
        assert Holds(dr, dr.direction, cd.protocol, cd.port) ==> Covers(t, dr.direction, cd.protocol, cd.port);
        assert forall r :: r in s && Holds(r, dr.direction, cd.protocol, cd.port) ==> InRange(cd, r);
      }
    }
  }
}
