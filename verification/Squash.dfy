/** Squashing a list of port ranges: sort it, then fold every range that overlaps or touches its
    predecessor of the same flow into that predecessor. */
module Squash {
  import opened Sorting
  import opened Seqs
  import opened Text
  import opened Types

  // ----- The operations -----

  function CanMerge(dr: DynamicRange, next: DynamicRange): bool
  {
    && dr.direction == next.direction
    && dr.protocol == next.protocol
    && next.minPort >= dr.minPort
    && next.minPort <= dr.maxPort + 1
  }

  function Merged(dr: DynamicRange, next: DynamicRange): DynamicRange
  {
    dr.(maxPort := if next.maxPort > dr.maxPort then next.maxPort else dr.maxPort,
        description := dr.description + " " + next.description,
        optional := dr.optional && next.optional)
  }

  /** One step of the sweep: `next` goes into the last range, or becomes the last range. */
  function Fold(m: seq<DynamicRange>, next: DynamicRange): (r: seq<DynamicRange>)
    ensures |m| <= |r| <= |m| + 1 && r != []
  {
    if m != [] && CanMerge(m[|m| - 1], next) then m[..|m| - 1] + [Merged(m[|m| - 1], next)] else m + [next]
  }

  /** The sweep after the sort, on values. */
  function Sweep(s: seq<DynamicRange>): (m: seq<DynamicRange>)
    ensures s != [] ==> m != []
  {
    if s == [] then [] else Fold(Sweep(s[..|s| - 1]), s[|s| - 1])
  }

  /** `r` is what Squash may leave of `s`, for some sorting algorithm. */
  ghost predicate SquashesTo(s: seq<DynamicRange>, r: seq<DynamicRange>)
  {
    exists t :: IsSortOf(CompareRanges, t, s) && r == Sweep(t)
  }

  /** `DynamicRange.Merge` through a pointer to the element `a[i]`. */
  method Merge(a: array<DynamicRange>, i: nat, next: DynamicRange) returns (merged: bool)
    requires i < a.Length
    modifies a
    ensures merged == CanMerge(old(a[i]), next)
    ensures a[..] == old(a[..])[i := if merged then Merged(old(a[i]), next) else old(a[i])]
  {
    if !CanMerge(a[i], next) {
      return false;
    }
    if next.maxPort > a[i].maxPort {
      a[i] := a[i].(maxPort := next.maxPort);
    }
    a[i] := a[i].(description := a[i].description + " " + next.description);
    a[i] := a[i].(optional := a[i].optional && next.optional);
    return true;
  }

  lemma SweepOfOne(s: seq<DynamicRange>)
    requires |s| <= 1
    ensures Sweep(s) == s
  {
    if s != [] { assert s[..0] == [] && Sweep(s[..0]) == []; }
  }

  /** The body of the sweep: the first `count` elements of `merged` are the result so far. */
  method FoldInto(merged: array<DynamicRange>, count: nat, next: DynamicRange) returns (newCount: nat)
    requires 0 < count < merged.Length
    modifies merged
    ensures count <= newCount <= count + 1
    ensures merged[..newCount] == Fold(old(merged[..count]), next)
  {
    ghost var m := merged[..count];
    var ok := Merge(merged, count - 1, next);
    if ok {
      newCount := count;
    } else {
      merged[count] := next;
      newCount := count + 1;
    }
    assert merged[..newCount] == Fold(m, next);
  }

  /** The sweep: `merged` starts with the first range and takes the others one by one. */
  method MergeAdjacent(sorted: array<DynamicRange>) returns (result: array<DynamicRange>)
    requires sorted.Length > 0
    ensures fresh(result) && result[..] == Sweep(sorted[..])
  {
    var first := sorted[0];
    var merged := new DynamicRange[sorted.Length](_ => first);
    var count := 1;
    ghost var s := sorted[..];
    SweepOfOne(s[..1]);
    for i := 1 to sorted.Length
      invariant 1 <= count <= i
      invariant merged[..count] == Sweep(s[..i])
      invariant sorted[..] == s
    {
      SweepNext(s, i);
      count := FoldInto(merged, count, sorted[i]);
    }
    assert s[..sorted.Length] == s;
    result := new DynamicRange[count](j requires 0 <= j < count <= merged.Length reads merged => merged[j]);
    assert result[..] == merged[..count];
  }

  lemma SweepNext(s: seq<DynamicRange>, i: nat)
    requires i < |s|
    ensures Sweep(s[..i + 1]) == Fold(Sweep(s[..i]), s[i])
  {
    assert s[..i + 1][..i] == s[..i];
  }

  /** A slice of ranges: Squash sorts its storage in place and then replaces it. */
  class DynamicRangeList {
    var items: array<DynamicRange>

    constructor (s: seq<DynamicRange>)
      ensures fresh(items) && items[..] == s
    {
      items := new DynamicRange[|s|](i requires 0 <= i < |s| => s[i]);
    }

    /** The old storage is left sorted, which anything else that holds it sees. */
    method Squash()
      modifies this, items
      ensures old(items).Length < 2 ==> items == old(items) && items[..] == old(items[..])
      ensures old(items).Length >= 2 ==>
        fresh(items) && IsSortOf(CompareRanges, old(items)[..], old(items[..]))
      ensures items[..] == Sweep(old(items)[..])
      ensures SquashesTo(old(items[..]), items[..])
    {
      if items.Length < 2 {
        assert IsSortOf(CompareRanges, items[..], items[..]);
        SweepOfOne(items[..]);
        return;
      }
      CompareRangesIsComparator();
      SortFunc(items, CompareRanges);
      items := MergeAdjacent(items);
    }
  }

  // ----- Coverage -----

  predicate SameFlow(a: DynamicRange, b: DynamicRange)
  {
    a.direction == b.direction && a.protocol == b.protocol
  }

  predicate Holds(r: DynamicRange, direction: string, protocol: string, port: int)
  {
    r.direction == direction && r.protocol == protocol && r.minPort <= port <= r.maxPort
  }

  predicate Covers(s: seq<DynamicRange>, direction: string, protocol: string, port: int)
  {
    exists r :: r in s && Holds(r, direction, protocol, port)
  }

  ghost predicate SameCover(s: seq<DynamicRange>, t: seq<DynamicRange>)
  {
    forall direction, protocol, port :: Covers(s, direction, protocol, port) <==> Covers(t, direction, protocol, port)
  }

  /** The sweep keeps coverage whatever the order and even for inverted ranges: Merge only ever folds
      a range whose ports continue those it is folded into. */
  lemma {:induction false} SweepKeepsCover(s: seq<DynamicRange>, d: string, p: string, port: int)
    ensures Covers(Sweep(s), d, p, port) <==> Covers(s, d, p, port)
  {
    if s != [] {
      var front, next := s[..|s| - 1], s[|s| - 1];
      SweepKeepsCover(front, d, p, port);
      FoldKeepsCover(front, Sweep(front), next, d, p, port);
      assert s == front + [next];
    }
  }

  lemma FoldKeepsCover(front: seq<DynamicRange>, m: seq<DynamicRange>, next: DynamicRange, d: string, p: string,
                       port: int)
    requires Covers(m, d, p, port) <==> Covers(front, d, p, port)
    ensures Covers(Fold(m, next), d, p, port) <==> Covers(front + [next], d, p, port)
  {
    CoversAppend(front, next, d, p, port);
    if m != [] && CanMerge(m[|m| - 1], next) {
      var init, last := m[..|m| - 1], m[|m| - 1];
      assert m == init + [last];
      CoversAppend(init, last, d, p, port);
      CoversAppend(init, Merged(last, next), d, p, port);
    } else {
      CoversAppend(m, next, d, p, port);
    }
  }

  lemma CoversAppend(s: seq<DynamicRange>, r: DynamicRange, d: string, p: string, port: int)
    ensures Covers(s + [r], d, p, port) <==> Covers(s, d, p, port) || Holds(r, d, p, port)
  {
    if Covers(s, d, p, port) {
      var x :| x in s && Holds(x, d, p, port);
      assert x in s + [r];
    }
    if Holds(r, d, p, port) { assert r in s + [r]; }
  }

  lemma SquashKeepsCover(s: seq<DynamicRange>, r: seq<DynamicRange>)
    requires SquashesTo(s, r)
    ensures SameCover(s, r)
  {
    var t :| IsSortOf(CompareRanges, t, s) && r == Sweep(t);
    SameElements(t, s);
    forall d, p, port ensures Covers(s, d, p, port) <==> Covers(r, d, p, port) {
      SweepKeepsCover(t, d, p, port);
    }
  }

  /** The descriptions, joined by spaces, are those of the sorted input: none is lost or moved. */
  lemma {:induction false} SweepKeepsDescriptions(s: seq<DynamicRange>)
    ensures Join(Map(Sweep(s), Describe), " ") == Join(Map(s, Describe), " ")
  {
    if s == [] {
      assert Map(s, Describe) == [];
    } else {
      var front, next := s[..|s| - 1], s[|s| - 1];
      SweepKeepsDescriptions(front);
      FoldKeepsDescriptions(Sweep(front), next);
      assert s == front + [next];
      MapNext(front, next, Describe);
      JoinNext(Map(front, Describe), next.description);
    }
  }

  function JoinedWith(text: string, isEmpty: bool, next: string): string
  {
    if isEmpty then next else text + " " + next
  }

  lemma JoinNext(ds: seq<string>, next: string)
    ensures Join(ds + [next], " ") == JoinedWith(Join(ds, " "), ds == [], next)
  {
    if ds != [] { JoinAppend(ds, [next], " "); }
  }

  lemma FoldKeepsDescriptions(m: seq<DynamicRange>, next: DynamicRange)
    ensures Join(Map(Fold(m, next), Describe), " ")
         == JoinedWith(Join(Map(m, Describe), " "), m == [], next.description)
  {
    if m != [] && CanMerge(m[|m| - 1], next) {
      var init, last := m[..|m| - 1], m[|m| - 1];
      var ds := Map(init, Describe);
      assert m == init + [last];
      MapNext(init, last, Describe);
      MapNext(init, Merged(last, next), Describe);
      JoinNext(ds, last.description);
      JoinNext(ds, last.description + " " + next.description);
      AppendIsAssociative(Join(ds, " ") + " ", last.description, " " + next.description);
    } else {
      MapNext(m, next, Describe);
      JoinNext(Map(m, Describe), next.description);
    }
  }

  function Describe(r: DynamicRange): string { r.description }

  // ----- The shape of the result -----

  predicate WellFormed(s: seq<DynamicRange>)
  {
    forall r :: r in s ==> r.minPort <= r.maxPort
  }

  /** `a` comes before `b`, and if they belong to one flow a port lies between them. */
  predicate Before(a: DynamicRange, b: DynamicRange)
  {
    CompareRanges(a, b) <= 0 && (SameFlow(a, b) ==> a.maxPort + 1 < b.minPort)
  }

  ghost predicate Separated(m: seq<DynamicRange>)
  {
    forall i, j :: 0 <= i < j < |m| ==> Before(m[i], m[j])
  }

  ghost predicate Canonical(m: seq<DynamicRange>)
  {
    WellFormed(m) && Separated(m)
  }

  /** `x` lies inside `o`. */
  predicate Within(x: DynamicRange, o: DynamicRange)
  {
    SameFlow(x, o) && o.minPort <= x.minPort && x.maxPort <= o.maxPort
  }

  lemma RangeOrder(a: DynamicRange, b: DynamicRange)
    ensures CompareRanges(a, b) == 0 <==> SameFlow(a, b) && a.minPort == b.minPort
    ensures SameFlow(a, b) ==> CompareRanges(a, b) == CompareInts(a.minPort, b.minPort)
    ensures CompareRanges(a, b) == -CompareRanges(b, a)
  {
    CompareIsZeroOnlyWhenEqual(a.direction, b.direction);
    CompareIsZeroOnlyWhenEqual(a.protocol, b.protocol);
    CompareFlips(a.direction, b.direction);
    CompareFlips(a.protocol, b.protocol);
  }

  /** Between two ranges of one flow the order admits only ranges of that flow. */
  lemma FlowsAreContiguous(a: DynamicRange, b: DynamicRange, c: DynamicRange)
    requires CompareRanges(a, b) <= 0 && CompareRanges(b, c) <= 0
    ensures CompareRanges(a, c) <= 0
    ensures CompareRanges(a, b) < 0 ==> CompareRanges(a, c) < 0
    ensures SameFlow(a, c) ==> SameFlow(a, b)
  {
    CompareIsTransitive(a.direction, b.direction, c.direction);
    CompareIsZeroOnlyWhenEqual(a.direction, b.direction);
    CompareIsZeroOnlyWhenEqual(b.direction, c.direction);
    CompareIsZeroOnlyWhenEqual(a.direction, c.direction);
    CompareIsZeroOnlyWhenEqual(a.protocol, b.protocol);
    CompareIsZeroOnlyWhenEqual(b.protocol, c.protocol);
    CompareIsZeroOnlyWhenEqual(a.protocol, c.protocol);
    if a.direction == b.direction == c.direction {
      CompareIsTransitive(a.protocol, b.protocol, c.protocol);
    }
  }

  /** The last range of a sweep belongs to the last input's flow and starts no later than it. */
  lemma LastOfSweep(s: seq<DynamicRange>)
    requires s != []
    ensures var m := Sweep(s);
      SameFlow(m[|m| - 1], s[|s| - 1]) && CompareRanges(m[|m| - 1], s[|s| - 1]) <= 0
  {
    var m := Sweep(s);
    RangeOrder(m[|m| - 1], s[|s| - 1]);
  }

  lemma {:induction false} SweepIsSeparated(s: seq<DynamicRange>)
    requires Sorted(CompareRanges, s)
    ensures Separated(Sweep(s))
  {
    if s != [] {
      var front, next := s[..|s| - 1], s[|s| - 1];
      SweepIsSeparated(front);
      if front != [] {
        LastOfSweep(front);
        FoldIsSeparated(Sweep(front), front[|front| - 1], next);
      }
    }
  }

  lemma FoldIsSeparated(m: seq<DynamicRange>, previous: DynamicRange, next: DynamicRange)
    requires Separated(m) && m != []
    requires SameFlow(m[|m| - 1], previous) && CompareRanges(m[|m| - 1], previous) <= 0
    requires CompareRanges(previous, next) <= 0
    ensures Separated(Fold(m, next))
  {
    var init, last := m[..|m| - 1], m[|m| - 1];
    assert forall i :: 0 <= i < |init| ==> Before(init[i], last);
    FlowsAreContiguous(last, previous, next);
    RangeOrder(last, next);
    if CanMerge(last, next) {
      forall i | 0 <= i < |init| ensures Before(init[i], Merged(last, next)) {
        assert Before(init[i], last);
      }
      SeparatedAppend(init, Merged(last, next));
    } else {
      assert Before(last, next);
      forall i | 0 <= i < |m| ensures Before(m[i], next) {
        if i < |init| {
          assert Before(m[i], last);
          FlowsAreContiguous(m[i], last, next);
        }
      }
      SeparatedAppend(m, next);
    }
  }

  lemma SeparatedAppend(m: seq<DynamicRange>, next: DynamicRange)
    requires Separated(m)
    requires forall i :: 0 <= i < |m| ==> Before(m[i], next)
    ensures Separated(m + [next])
  {}

  lemma {:induction false} SweepIsWellFormed(s: seq<DynamicRange>)
    requires WellFormed(s)
    ensures WellFormed(Sweep(s))
  {
    if s != [] { SweepIsWellFormed(s[..|s| - 1]); }
  }

  lemma SweepIsCanonical(s: seq<DynamicRange>)
    requires Sorted(CompareRanges, s) && WellFormed(s)
    ensures Canonical(Sweep(s))
  {
    SweepIsSeparated(s);
    SweepIsWellFormed(s);
  }

  /** A maximal run of covered ports belongs to every canonical list that covers it. */
  lemma CanonicalRangeIsShared(a: seq<DynamicRange>, b: seq<DynamicRange>, i: nat) returns (j: nat)
    requires Canonical(a) && Canonical(b) && SameCover(a, b) && i < |a|
    ensures j < |b| && Bare(b[j]) == Bare(a[i])
  {
    var x := a[i];
    var d, p := x.direction, x.protocol;
    assert x in a && Holds(x, d, p, x.minPort);
    assert Covers(b, d, p, x.minPort);
    var y :| y in b && Holds(y, d, p, x.minPort);
    j :| 0 <= j < |b| && b[j] == y;
    StartsNoLater(b, a, j, i);
    StartsNoLater(a, b, i, j);
    EndsNoEarlier(b, a, j, i);
    EndsNoEarlier(a, b, i, j);
  }

  /** A canonical range that meets one of another list with the same coverage starts no later. */
  lemma StartsNoLater(a: seq<DynamicRange>, b: seq<DynamicRange>, i: nat, j: nat)
    requires Canonical(a) && SameCover(a, b) && i < |a| && j < |b| && SameFlow(a[i], b[j])
    requires b[j].minPort <= a[i].maxPort && a[i].minPort <= b[j].maxPort
    ensures a[i].minPort <= b[j].minPort
  {
    var x, y := a[i], b[j];
    if y.minPort < x.minPort {
      PortHasOneRange(a, b, i, j, x.minPort - 1);
    }
  }

  lemma EndsNoEarlier(a: seq<DynamicRange>, b: seq<DynamicRange>, i: nat, j: nat)
    requires Canonical(a) && SameCover(a, b) && i < |a| && j < |b| && SameFlow(a[i], b[j])
    requires b[j].minPort <= a[i].maxPort && a[i].minPort <= b[j].maxPort
    ensures b[j].maxPort <= a[i].maxPort
  {
    var x, y := a[i], b[j];
    if x.maxPort < y.maxPort {
      PortHasOneRange(a, b, i, j, x.maxPort + 1);
    }
  }

  /** A port next to `a[i]` is not covered by `a`, hence not held by `b[j]`. */
  lemma PortHasOneRange(a: seq<DynamicRange>, b: seq<DynamicRange>, i: nat, j: nat, port: int)
    requires Canonical(a) && SameCover(a, b) && i < |a| && j < |b| && SameFlow(a[i], b[j])
    requires port == a[i].minPort - 1 || port == a[i].maxPort + 1
    ensures !Holds(b[j], a[i].direction, a[i].protocol, port)
  {
    var x := a[i];
    GapIsUncovered(a, i, port);
    assert b[j] in b;
    assert Covers(a, x.direction, x.protocol, port) <==> Covers(b, x.direction, x.protocol, port);
  }

  lemma GapIsUncovered(a: seq<DynamicRange>, i: nat, port: int)
    requires Canonical(a) && i < |a|
    requires port == a[i].minPort - 1 || port == a[i].maxPort + 1
    ensures !Covers(a, a[i].direction, a[i].protocol, port)
  {
    forall z | z in a ensures !Holds(z, a[i].direction, a[i].protocol, port) {
      var k :| 0 <= k < |a| && a[k] == z;
      assert k == i || (k < i && Before(a[k], a[i])) || (i < k && Before(a[i], a[k]));
    }
  }

  /** A range without its bookkeeping: Direction, Protocol, MinPort and MaxPort only. */
  function Bare(r: DynamicRange): DynamicRange
  {
    r.(description := "", optional := false)
  }

  lemma CanonicalIsStrict(m: seq<DynamicRange>)
    requires Canonical(m)
    ensures StrictlySorted(CompareRanges, m) && StrictlySorted(CompareRanges, Map(m, Bare))
  {
    forall i, j | 0 <= i < j < |m| ensures CompareRanges(m[i], m[j]) < 0 && CompareRanges(Bare(m[i]), Bare(m[j])) < 0 {
      assert Before(m[i], m[j]) && m[i] in m;
      RangeOrder(m[i], m[j]);
    }
  }

  lemma CanonicalIsUnique(a: seq<DynamicRange>, b: seq<DynamicRange>)
    requires Canonical(a) && Canonical(b) && SameCover(a, b)
    ensures Map(a, Bare) == Map(b, Bare)
  {
    CanonicalIsStrict(a);
    CanonicalIsStrict(b);
    CompareRangesIsComparator();
    forall x ensures x in Map(a, Bare) <==> x in Map(b, Bare) {
      if x in Map(a, Bare) {
        var i :| 0 <= i < |a| && Map(a, Bare)[i] == x;
        var j := CanonicalRangeIsShared(a, b, i);
        assert Map(b, Bare)[j] == x;
      }
      if x in Map(b, Bare) {
        var i :| 0 <= i < |b| && Map(b, Bare)[i] == x;
        var j := CanonicalRangeIsShared(b, a, i);
        assert Map(a, Bare)[j] == x;
      }
    }
    StrictSortIsUnique(CompareRanges, Map(a, Bare), Map(b, Bare));
  }

  /** Whatever the input, ranges of one flow leave a port between them; no inverted range goes in, none
      comes out. */
  lemma SquashSeparates(s: seq<DynamicRange>, r: seq<DynamicRange>)
    requires SquashesTo(s, r)
    ensures Separated(r)
    ensures WellFormed(s) ==> WellFormed(r)
  {
    var t :| IsSortOf(CompareRanges, t, s) && r == Sweep(t);
    SameElements(t, s);
    SweepIsSeparated(t);
    if WellFormed(s) { SweepIsWellFormed(t); }
  }

  /** In fields: by direction, then protocol, then ports, with a port left out between two of one flow. */
  lemma SquashIsInOrder(s: seq<DynamicRange>, r: seq<DynamicRange>, i: nat, j: nat)
    requires SquashesTo(s, r) && i < j < |r|
    ensures Less(r[i].direction, r[j].direction) || (r[i].direction == r[j].direction &&
      (Less(r[i].protocol, r[j].protocol) || (r[i].protocol == r[j].protocol && r[i].maxPort + 1 < r[j].minPort)))
  {
    SquashSeparates(s, r);
    assert Before(r[i], r[j]);
    RangeOrder(r[i], r[j]);
    var x := ComDetails("", "", 0, "", "", "", "", "", false);
    ComparatorsOrderFields(x, x, r[i], r[j]);
  }

  function IsUpright(): DynamicRange -> bool { (r: DynamicRange) => r.minPort <= r.maxPort }

  /** The ranges of a list that are not inverted. */
  function Upright(m: seq<DynamicRange>): seq<DynamicRange> { Filter(m, IsUpright()) }

  lemma {:induction false} UprightOfWellFormed(m: seq<DynamicRange>)
    requires WellFormed(m)
    ensures Upright(m) == m
  {
    if m != [] {
      UprightOfWellFormed(m[..|m| - 1]);
      assert m == m[..|m| - 1] + [m[|m| - 1]];
    }
  }

  lemma {:induction false} UprightIsCanonical(m: seq<DynamicRange>)
    requires Separated(m)
    ensures Canonical(Upright(m)) && SameCover(m, Upright(m))
  {
    FilterHas(m, IsUpright());
    if m != [] {
      var front, last := m[..|m| - 1], m[|m| - 1];
      UprightIsCanonical(front);
      FilterHas(front, IsUpright());
      var u := Upright(front);
      forall k | 0 <= k < |u| ensures Before(u[k], last) {
        assert u[k] in u;
        var i :| 0 <= i < |front| && front[i] == u[k];
        assert Before(m[i], m[|m| - 1]);
      }
      if IsUpright()(last) { SeparatedAppend(u, last); }
    }
  }

  /** Whatever the input, its order, the way it was cut into ranges and the sorting algorithm, the ranges of
      the result that are not inverted depend on the covered ports alone. With no inverted range in the
      inputs, that is the whole result. */
  lemma SquashDependsOnCoverOnly(s: seq<DynamicRange>, t: seq<DynamicRange>, r: seq<DynamicRange>, q: seq<DynamicRange>)
    requires SquashesTo(s, r) && SquashesTo(t, q) && SameCover(s, t)
    ensures Map(Upright(r), Bare) == Map(Upright(q), Bare)
    ensures WellFormed(s) && WellFormed(t) ==> Map(r, Bare) == Map(q, Bare)
  {
    SquashKeepsCover(s, r);
    SquashKeepsCover(t, q);
    SquashSeparates(s, r);
    SquashSeparates(t, q);
    UprightIsCanonical(r);
    UprightIsCanonical(q);
    SameCoverIsEquivalence(s, r, t);
    SameCoverIsEquivalence(r, Upright(r), t);
    SameCoverIsEquivalence(t, q, Upright(r));
    SameCoverIsEquivalence(Upright(r), t, t);
    SameCoverIsEquivalence(t, Upright(r), q);
    SameCoverIsEquivalence(q, Upright(q), Upright(r));
    SameCoverIsEquivalence(Upright(q), Upright(r), q);
    CanonicalIsUnique(Upright(r), Upright(q));
    if WellFormed(s) && WellFormed(t) {
      UprightOfWellFormed(r);
      UprightOfWellFormed(q);
    }
  }

  lemma SameCoverIsEquivalence(s: seq<DynamicRange>, t: seq<DynamicRange>, u: seq<DynamicRange>)
    requires SameCover(s, t)
    ensures SameCover(t, s)
    ensures SameCover(s, u) ==> SameCover(t, u)
  {
    forall d, p, port
      ensures SameCover(s, u) ==> (Covers(t, d, p, port) <==> Covers(u, d, p, port))
    {
      assert Covers(s, d, p, port) <==> Covers(t, d, p, port);
      assert SameCover(s, u) ==> (Covers(s, d, p, port) <==> Covers(u, d, p, port));
    }
  }

  // ----- Bookkeeping -----

  /** `o` is optional exactly when every input inside it is. */
  ghost predicate OptionalIsAnd(s: seq<DynamicRange>, o: DynamicRange)
  {
    o.optional <==> forall x :: x in s && Within(x, o) ==> x.optional
  }

  /** A range with a port lies inside at most one range of a separated list. */
  lemma Apart(m: seq<DynamicRange>, x: DynamicRange)
    requires Separated(m) && x.minPort <= x.maxPort
    ensures forall k, l :: 0 <= k < l < |m| ==> !(Within(x, m[k]) && Within(x, m[l]))
  {
    forall k, l | 0 <= k < l < |m| ensures !(Within(x, m[k]) && Within(x, m[l])) {
      assert Before(m[k], m[l]);
    }
  }

  ghost predicate Contained(x: DynamicRange, m: seq<DynamicRange>)
  {
    exists k :: 0 <= k < |m| && Within(x, m[k])
  }

  lemma {:induction false} SweepContains(s: seq<DynamicRange>)
    ensures forall x :: x in s ==> Contained(x, Sweep(s))
  {
    if s != [] {
      var front, next := s[..|s| - 1], s[|s| - 1];
      SweepContains(front);
      FoldContains(Sweep(front), next);
      assert s == front + [next];
    }
  }

  lemma FoldContains(m: seq<DynamicRange>, next: DynamicRange)
    ensures forall x :: Contained(x, m) || x == next ==> Contained(x, Fold(m, next))
    ensures Within(next, Fold(m, next)[|Fold(m, next)| - 1])
    ensures forall k, x :: 0 <= k < |m| && Within(x, m[k]) ==> Within(x, Fold(m, next)[k])
  {
    var r := Fold(m, next);
    forall k, x | 0 <= k < |m| && Within(x, m[k]) ensures Within(x, r[k]) {
      if k < |m| - 1 { assert r[k] == m[k]; }
    }
    assert Within(next, r[|r| - 1]);
    forall x | Contained(x, m) ensures Contained(x, r) {
      var k :| 0 <= k < |m| && Within(x, m[k]);
      assert Within(x, r[k]);
    }
  }

  lemma {:induction false} SweepOptional(s: seq<DynamicRange>)
    requires Sorted(CompareRanges, s) && WellFormed(s)
    ensures forall k :: 0 <= k < |Sweep(s)| ==> OptionalIsAnd(s, Sweep(s)[k])
  {
    if s != [] {
      var front, next := s[..|s| - 1], s[|s| - 1];
      SweepOptional(front);
      SweepContains(front);
      SweepIsCanonical(s);
      assert s == front + [next];
      FoldOptional(front, Sweep(front), next);
    }
  }

  /** Folding the next range captures no earlier input: each stays inside the one range that held it. */
  lemma FoldCaptures(m: seq<DynamicRange>, next: DynamicRange, x: DynamicRange)
    requires Canonical(Fold(m, next)) && x.minPort <= x.maxPort && Contained(x, m)
    ensures forall k :: 0 <= k < |m| ==> (Within(x, Fold(m, next)[k]) <==> Within(x, m[k]))
    ensures |Fold(m, next)| > |m| ==> !Within(x, Fold(m, next)[|m|])
  {
    Apart(Fold(m, next), x);
    FoldContains(m, next);
    var k :| 0 <= k < |m| && Within(x, m[k]);
    assert Within(x, Fold(m, next)[k]);
  }

  lemma FoldOptional(front: seq<DynamicRange>, m: seq<DynamicRange>, next: DynamicRange)
    requires Canonical(Fold(m, next)) && WellFormed(front) && next.minPort <= next.maxPort
    requires forall x :: x in front ==> Contained(x, m)
    requires forall k :: 0 <= k < |m| ==> OptionalIsAnd(front, m[k])
    ensures forall k :: 0 <= k < |Fold(m, next)| ==> OptionalIsAnd(front + [next], Fold(m, next)[k])
  {
    var r := Fold(m, next);
    Apart(r, next);
    FoldContains(m, next);
    forall k | 0 <= k < |r| ensures OptionalIsAnd(front + [next], r[k]) {
      forall x | x in front
        ensures k < |m| ==> (Within(x, r[k]) <==> Within(x, m[k]))
        ensures k == |m| ==> !Within(x, r[k])
      {
        FoldCaptures(m, next, x);
      }
      NextOptional(front, next, m, r, k);
    }
  }

  lemma NextOptional(front: seq<DynamicRange>, next: DynamicRange, m: seq<DynamicRange>, r: seq<DynamicRange>, k: nat)
    requires r == Fold(m, next) && k < |r|
    requires k < |m| ==> OptionalIsAnd(front, m[k])
    requires Within(next, r[k]) <==> k == |r| - 1
    requires k < |m| ==> forall x :: x in front ==> (Within(x, r[k]) <==> Within(x, m[k]))
    requires k == |m| ==> forall x :: x in front ==> !Within(x, r[k])
    ensures OptionalIsAnd(front + [next], r[k])
  {
    var s := front + [next];
    assert next in s && forall x :: x in s <==> x in front || x == next;
    if k < |m| {
      assert (forall x :: x in front && Within(x, m[k]) ==> x.optional)
        <==> (forall x :: x in front && Within(x, r[k]) ==> x.optional);
    }
  }

  /** Every input that is not inverted lies in exactly one output, whatever the others are. */
  lemma SquashContainsOnce(s: seq<DynamicRange>, r: seq<DynamicRange>, x: DynamicRange)
    requires SquashesTo(s, r) && x in s && x.minPort <= x.maxPort
    ensures exists k :: 0 <= k < |r| && Within(x, r[k]) && forall l :: 0 <= l < |r| && Within(x, r[l]) ==> l == k
  {
    var t :| IsSortOf(CompareRanges, t, s) && r == Sweep(t);
    SameElements(t, s);
    SweepIsSeparated(t);
    SweepContains(t);
    assert Contained(x, r);
    var k :| 0 <= k < |r| && Within(x, r[k]);
    Apart(r, x);
  }

  /** An output is optional exactly when all the inputs inside it are. */
  lemma SquashJoinsOptional(s: seq<DynamicRange>, r: seq<DynamicRange>, k: nat)
    requires SquashesTo(s, r) && WellFormed(s) && k < |r|
    ensures r[k].optional <==> forall x :: x in s && Within(x, r[k]) ==> x.optional
  {
    var t :| IsSortOf(CompareRanges, t, s) && r == Sweep(t);
    SameElements(t, s);
    SweepOptional(t);
    assert OptionalIsAnd(t, r[k]);
  }

  /** The order of the input, and how the sort treats ties, show in nothing but the descriptions. */
  lemma SquashIgnoresOrder(s: seq<DynamicRange>, t: seq<DynamicRange>, r: seq<DynamicRange>, q: seq<DynamicRange>)
    requires SquashesTo(s, r) && SquashesTo(t, q)
    requires multiset(s) == multiset(t) && WellFormed(s)
    ensures |r| == |q| && forall k :: 0 <= k < |r| ==> q[k] == r[k].(description := q[k].description)
  {
    SameElements(s, t);
    SquashDependsOnCoverOnly(s, t, r, q);
    forall k | 0 <= k < |r| ensures q[k] == r[k].(description := q[k].description) {
      assert Map(r, Bare)[k] == Map(q, Bare)[k];
      SquashJoinsOptional(s, r, k);
      SquashJoinsOptional(t, q, k);
      assert forall x :: Within(x, r[k]) <==> Within(x, q[k]);
    }
  }

  /** The port after an output is covered by no input. */
  lemma SquashLeavesGaps(s: seq<DynamicRange>, r: seq<DynamicRange>, i: nat)
    requires SquashesTo(s, r) && WellFormed(s) && i < |r|
    ensures !Covers(s, r[i].direction, r[i].protocol, r[i].minPort - 1)
    ensures !Covers(s, r[i].direction, r[i].protocol, r[i].maxPort + 1)
  {
    SquashSeparates(s, r);
    SquashKeepsCover(s, r);
    GapIsUncovered(r, i, r[i].minPort - 1);
    GapIsUncovered(r, i, r[i].maxPort + 1);
  }

  lemma {:induction false} SweepOfCanonical(m: seq<DynamicRange>)
    requires Canonical(m)
    ensures Sweep(m) == m
  {
    if m != [] {
      var front, next := m[..|m| - 1], m[|m| - 1];
      SweepOfCanonical(front);
      assert front != [] ==> Before(m[|m| - 2], m[|m| - 1]);
      FoldOfSeparated(front, next);
      assert m == front + [next];
    }
  }

  lemma FoldOfSeparated(m: seq<DynamicRange>, next: DynamicRange)
    requires m != [] ==> Before(m[|m| - 1], next)
    ensures Fold(m, next) == m + [next]
  {}

  /** Squashing again changes nothing, descriptions included, whichever sort either run uses. */
  lemma SquashIsIdempotent(s: seq<DynamicRange>, r: seq<DynamicRange>, q: seq<DynamicRange>)
    requires SquashesTo(s, r) && SquashesTo(r, q) && WellFormed(s)
    ensures q == r
  {
    SquashSeparates(s, r);
    CompareRangesIsComparator();
    CanonicalIsStrict(r);
    var t :| IsSortOf(CompareRanges, t, r) && q == Sweep(t);
    SortOfStrict(CompareRanges, t, r);
    SweepOfCanonical(r);
  }
}
