/** The entries of a communication matrix. */
module Types {
  import opened Text
  import opened Sorting

  /** One open port of a node group. */
  datatype ComDetails = ComDetails(
    direction: string, protocol: string, port: int, namespace: string, service: string,
    pod: string, container: string, nodeGroup: string, optional: bool)

  /** A range of ports, `minPort` to `maxPort` inclusive; empty when they are inverted. */
  datatype DynamicRange = DynamicRange(
    direction: string, protocol: string, minPort: int, maxPort: int, description: string, optional: bool)

  function CompareInts(a: int, b: int): int
  {
    if a < b then -1 else if a > b then 1 else 0
  }

  /** Compares two strings and a number; the first difference decides. */
  function CompareTriples(a: (string, string, int), b: (string, string, int)): int
  {
    var c := Compare(a.0, b.0);
    if c != 0 then c
    else
      var c := Compare(a.1, b.1);
      if c != 0 then c else CompareInts(a.2, b.2)
  }

  /** The comparator of `Squash`: Direction, Protocol, MinPort. */
  function CompareRanges(a: DynamicRange, b: DynamicRange): int
  {
    CompareTriples((a.direction, a.protocol, a.minPort), (b.direction, b.protocol, b.minPort))
  }

  /** The comparator of `SortAndRemoveDuplicates`: NodeGroup, Protocol, Port. */
  function CompareDetails(a: ComDetails, b: ComDetails): int
  {
    CompareTriples((a.nodeGroup, a.protocol, a.port), (b.nodeGroup, b.protocol, b.port))
  }

  /** By node group, then protocol, then port. */
  ghost predicate DetailsLess(a: ComDetails, b: ComDetails)
  {
    || Less(a.nodeGroup, b.nodeGroup)
    || (a.nodeGroup == b.nodeGroup && Less(a.protocol, b.protocol))
    || (a.nodeGroup == b.nodeGroup && a.protocol == b.protocol && a.port < b.port)
  }

  /** By direction, then protocol, then first port. */
  ghost predicate RangeLess(a: DynamicRange, b: DynamicRange)
  {
    || Less(a.direction, b.direction)
    || (a.direction == b.direction && Less(a.protocol, b.protocol))
    || (a.direction == b.direction && a.protocol == b.protocol && a.minPort < b.minPort)
  }

  /** What the comparators compare, in the fields. */
  lemma ComparatorsOrderFields(a: ComDetails, b: ComDetails, r: DynamicRange, q: DynamicRange)
    ensures CompareDetails(a, b) < 0 <==> DetailsLess(a, b)
    ensures CompareRanges(r, q) < 0 <==> RangeLess(r, q)
  {
    CompareIsLexicographic(a.nodeGroup, b.nodeGroup);
    CompareIsLexicographic(a.protocol, b.protocol);
    CompareIsZeroOnlyWhenEqual(a.nodeGroup, b.nodeGroup);
    CompareIsZeroOnlyWhenEqual(a.protocol, b.protocol);
    CompareIsLexicographic(r.direction, q.direction);
    CompareIsLexicographic(r.protocol, q.protocol);
    CompareIsZeroOnlyWhenEqual(r.direction, q.direction);
    CompareIsZeroOnlyWhenEqual(r.protocol, q.protocol);
  }

  lemma TriplesCompare(x: (string, string, int), y: (string, string, int), z: (string, string, int))
    ensures Opposite(CompareTriples, x, y)
    ensures Transitive(CompareTriples, x, y, z)
    ensures CompareTriples(x, y) == 0 <==> x == y
  {
    CompareFlips(x.0, y.0);
    CompareFlips(x.1, y.1);
    CompareIsZeroOnlyWhenEqual(x.0, y.0);
    CompareIsZeroOnlyWhenEqual(x.1, y.1);
    if CompareTriples(x, y) <= 0 && CompareTriples(y, z) <= 0 {
      CompareIsTransitive(x.0, y.0, z.0);
      if x.0 == y.0 == z.0 { CompareIsTransitive(x.1, y.1, z.1); }
    }
  }

  lemma CompareRangesLaws(x: DynamicRange, y: DynamicRange, z: DynamicRange)
    ensures Opposite(CompareRanges, x, y) && Transitive(CompareRanges, x, y, z)
  {
    TriplesCompare((x.direction, x.protocol, x.minPort), (y.direction, y.protocol, y.minPort),
                   (z.direction, z.protocol, z.minPort));
  }

  lemma CompareRangesIsComparator()
    ensures IsComparator(CompareRanges)
  {
    forall x, y ensures Opposite(CompareRanges, x, y) { CompareRangesLaws(x, y, y); }
    forall x, y, z ensures Transitive(CompareRanges, x, y, z) { CompareRangesLaws(x, y, z); }
  }

  lemma CompareDetailsLaws(x: ComDetails, y: ComDetails, z: ComDetails)
    ensures Opposite(CompareDetails, x, y) && Transitive(CompareDetails, x, y, z)
  {
    TriplesCompare((x.nodeGroup, x.protocol, x.port), (y.nodeGroup, y.protocol, y.port),
                   (z.nodeGroup, z.protocol, z.port));
  }

  lemma CompareDetailsIsComparator()
    ensures IsComparator(CompareDetails)
  {
    forall x, y ensures Opposite(CompareDetails, x, y) { CompareDetailsLaws(x, y, y); }
    forall x, y, z ensures Transitive(CompareDetails, x, y, z) { CompareDetailsLaws(x, y, z); }
  }

  lemma CompareLaws(x: string, y: string, z: string)
    ensures Opposite(Compare, x, y) && Transitive(Compare, x, y, z)
  {
    TriplesCompare((x, "", 0), (y, "", 0),
                   (z, "", 0));
  }

  lemma CompareIsComparator()
    ensures IsComparator(Compare)
  {
    forall x, y ensures Opposite(Compare, x, y) { CompareLaws(x, y, y); }
    forall x, y, z ensures Transitive(Compare, x, y, z) { CompareLaws(x, y, z); }
  }
}
