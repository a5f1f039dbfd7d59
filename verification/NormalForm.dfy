/** Removing duplicates by printed key and sorting: what SortAndRemoveDuplicates computes, and the
    algebra that follows. */
module NormalForm {
  import opened Seqs
  import opened Sorting
  import opened Text
  import opened Types

  // ----- The key -----

  /** The format `"%s-%d-%s"` of node group, port and protocol. */
  function Key(cd: ComDetails): string
  {
    cd.nodeGroup + "-" + Itoa(cd.port) + "-" + cd.protocol
  }

  predicate Equals(a: ComDetails, b: ComDetails) { Key(a) == Key(b) }

  predicate SameTriple(a: ComDetails, b: ComDetails)
  {
    a.nodeGroup == b.nodeGroup && a.port == b.port && a.protocol == b.protocol
  }

  /** Ports are non-negative and protocols free of hyphens; node groups are arbitrary. */
  predicate Plain(cd: ComDetails) { cd.port >= 0 && '-' !in cd.protocol }

  predicate AllPlain(s: seq<ComDetails>) { forall cd :: cd in s ==> Plain(cd) }

  /** Entries that tie in the comparator share a key, whatever their fields hold. */
  lemma TiesShareKey(a: ComDetails, b: ComDetails)
    ensures CompareDetails(a, b) == 0 <==> SameTriple(a, b)
    ensures CompareDetails(a, b) == 0 ==> Key(a) == Key(b)
  {
    var x, y := (a.nodeGroup, a.protocol, a.port), (b.nodeGroup, b.protocol, b.port);
    TriplesCompare(x, y, y);
  }

  // ----- When keys collide -----

  /** What follows the group in a key. */
  function Tail(cd: ComDetails): string { "-" + Itoa(cd.port) + "-" + cd.protocol }

  ghost predicate EndsWith(s: string, tail: string) { exists x :: s == x + tail }

  lemma KeyIsGroupAndTail(cd: ComDetails)
    ensures Key(cd) == cd.nodeGroup + Tail(cd)
  {
    assert cd.nodeGroup + ("-" + Itoa(cd.port) + "-" + cd.protocol) == Key(cd);
  }

  lemma TailIsInjective(a: ComDetails, b: ComDetails)
    requires Tail(a) == Tail(b)
    ensures a.port == b.port && a.protocol == b.protocol
  {
    SecondOfTail(a);
    SecondOfTail(b);
    if a.port >= 0 {
      UnsignedTail(a, b);
    } else {
      SignedTail(a);
      SignedTail(b);
      assert Tail(a)[1..] == Tail(b)[1..];
      UnsignedTail(a.(port := -a.port), b.(port := -b.port));
    }
  }

  /** The second character of a tail is the sign, if there is one. */
  lemma SecondOfTail(a: ComDetails)
    ensures |Tail(a)| > 1 && Tail(a)[0] == '-'
    ensures Tail(a)[1] == '-' <==> a.port < 0
  {
    ItoaShape(a.port);
    assert Tail(a)[1] == Itoa(a.port)[0];
    assert a.port >= 0 ==> Itoa(a.port)[0] in Itoa(a.port);
  }

  lemma SignedTail(a: ComDetails)
    requires a.port < 0
    ensures Tail(a) == "-" + Tail(a.(port := -a.port))
  {}

  lemma UnsignedTail(a: ComDetails, b: ComDetails)
    requires a.port >= 0 && b.port >= 0 && Tail(a) == Tail(b)
    ensures a.port == b.port && a.protocol == b.protocol
  {
    TailWithoutHyphen(a);
    TailWithoutHyphen(b);
    ItoaShape(a.port);
    ItoaShape(b.port);
    FirstSeparatorIsUnique('-', Itoa(a.port), a.protocol, Itoa(b.port), b.protocol);
    AtoiInvertsItoa(a.port);
    AtoiInvertsItoa(b.port);
  }

  lemma TailWithoutHyphen(a: ComDetails)
    ensures Tail(a)[1..] == Itoa(a.port) + "-" + a.protocol
  {
    assert Tail(a) == "-" + (Itoa(a.port) + "-" + a.protocol);
  }

  /** Where a shorter tail can start within another: after the first hyphen, if a sign follows, or in the
      protocol with its hyphen. */
  predicate StartsAt(a: ComDetails, b: ComDetails, x: string)
  {
    || (a.port < 0 && b.port == -a.port && a.protocol == b.protocol && x == "-")
    || (("-" + Itoa(a.port)) <= x && "-" + a.protocol == x[|Itoa(a.port)| + 1..] + Tail(b))
  }

  lemma TailStartsExactly(a: ComDetails, b: ComDetails, x: string)
    requires a.port != b.port || a.protocol != b.protocol
    ensures Tail(a) == x + Tail(b) <==> StartsAt(a, b, x)
  {
    var head := "-" + Itoa(a.port);
    assert Tail(a) == head + ("-" + a.protocol);
    if StartsAt(a, b, x) {
      if head <= x {
        assert x == head + x[|head|..];
        AppendIsAssociative(head, x[|head|..], Tail(b));
      }
      if a.port < 0 { SignedTail(a); }
    } else if Tail(a) == x + Tail(b) {
      if |head| <= |x| {
        SuffixOfSuffix(head, "-" + a.protocol, x, Tail(b));
      } else {
        StartsInTheNumber(a, b, x);
      }
    }
  }

  lemma SuffixOfSuffix(head: string, rest: string, x: string, tail: string)
    requires head + rest == x + tail && |head| <= |x|
    ensures head <= x && rest == x[|head|..] + tail
  {
    assert (head + rest)[..|head|] == head && (x + tail)[..|head|] == x[..|head|];
    assert (head + rest)[|head|..] == rest && (x + tail)[|head|..] == x[|head|..] + tail;
  }

  lemma StartsInTheNumber(a: ComDetails, b: ComDetails, x: string)
    requires a.port != b.port || a.protocol != b.protocol
    requires Tail(a) == x + Tail(b) && |x| <= |Itoa(a.port)|
    ensures a.port < 0 && b.port == -a.port && a.protocol == b.protocol && x == "-"
  {
    HyphensOfTail(a, |x|);
    SecondOfTail(b);
    assert (x + Tail(b))[|x|] == '-';
    if |x| == 0 {
      assert x + Tail(b) == Tail(b);
      TailIsInjective(a, b);
    } else {
      SignedTail(a);
      assert x == (x + Tail(b))[..1] == "-";
      assert ("-" + Tail(b))[1..] == Tail(b) && ("-" + Tail(a.(port := -a.port)))[1..] == Tail(a.(port := -a.port));
      TailIsInjective(a.(port := -a.port), b);
    }
  }

  /** Before the protocol, a tail holds a hyphen at the start and perhaps a sign. */
  lemma HyphensOfTail(a: ComDetails, k: nat)
    requires k <= |Itoa(a.port)|
    ensures k < |Tail(a)| && Tail(a)[0] == '-'
    ensures Tail(a)[k] == '-' ==> k == 0 || (k == 1 && a.port < 0)
  {
    ItoaShape(a.port);
    if k > 0 {
      assert Tail(a)[k] == Itoa(a.port)[k - 1];
      if a.port >= 0 {
        assert Itoa(a.port)[k - 1] in Itoa(a.port);
      } else if k > 1 {
        assert Itoa(a.port)[k - 1] == Itoa(a.port)[1..][k - 2];
        assert Itoa(a.port)[1..][k - 2] in Itoa(a.port)[1..];
      }
    }
  }

  /** The tail of one entry ends with that of another, of a different port or protocol, exactly when the ports
      are opposite numbers and it is the negative one, or the protocol with its hyphen ends so. */
  lemma TailEndsExactly(a: ComDetails, b: ComDetails)
    requires a.port != b.port || a.protocol != b.protocol
    ensures EndsWith(Tail(a), Tail(b)) <==>
      || (a.port < 0 && b.port == -a.port && a.protocol == b.protocol)
      || EndsWith("-" + a.protocol, Tail(b))
  {
    if x :| Tail(a) == x + Tail(b) { TailStartsExactly(a, b, x); }
    if a.port < 0 && b.port == -a.port && a.protocol == b.protocol { TailStartsExactly(a, b, "-"); }
    if y :| "-" + a.protocol == y + Tail(b) {
      var x := "-" + Itoa(a.port) + y;
      assert x[|Itoa(a.port)| + 1..] == y;
      TailStartsExactly(a, b, x);
    }
  }

  /** The key of `a` can be read as that of `b`: either the sign of the port goes into the group, or the
      port and the front of the protocol do. */
  ghost predicate ReadsAs(a: ComDetails, b: ComDetails)
  {
    || (a.port < 0 && b.port == -a.port && a.protocol == b.protocol && b.nodeGroup == a.nodeGroup + "-")
    || (exists y :: "-" + a.protocol == y + Tail(b) && b.nodeGroup == a.nodeGroup + "-" + Itoa(a.port) + y)
  }

  predicate Collide(a: ComDetails, b: ComDetails) { Key(a) == Key(b) && !SameTriple(a, b) }

  /** Two distinct flows have one key exactly when the key of one reads as the other. */
  lemma KeysCollideExactly(a: ComDetails, b: ComDetails)
    ensures Collide(a, b) <==> ReadsAs(a, b) || ReadsAs(b, a)
  {
    KeyIsGroupAndTail(a);
    KeyIsGroupAndTail(b);
    if ReadsAs(a, b) { ReadersCollide(a, b); }
    if ReadsAs(b, a) { ReadersCollide(b, a); }
    if Collide(a, b) {
      if |a.nodeGroup| <= |b.nodeGroup| { CollidersRead(a, b); } else { CollidersRead(b, a); }
    }
  }

  lemma ReadersCollide(a: ComDetails, b: ComDetails)
    requires ReadsAs(a, b)
    ensures Collide(a, b)
  {
    KeyIsGroupAndTail(a);
    KeyIsGroupAndTail(b);
    if a.port < 0 && b.port == -a.port && a.protocol == b.protocol && b.nodeGroup == a.nodeGroup + "-" {
      SignedTail(a);
      AppendIsAssociative(a.nodeGroup, "-", Tail(b));
    } else {
      var y :| "-" + a.protocol == y + Tail(b) && b.nodeGroup == a.nodeGroup + "-" + Itoa(a.port) + y;
      var head := "-" + Itoa(a.port);
      assert b.nodeGroup == a.nodeGroup + (head + y);
      assert Tail(a) == head + ("-" + a.protocol);
      AppendIsAssociative(head, y, Tail(b));
      AppendIsAssociative(a.nodeGroup, head + y, Tail(b));
    }
  }

  lemma CollidersRead(a: ComDetails, b: ComDetails)
    requires Collide(a, b) && |a.nodeGroup| <= |b.nodeGroup|
    ensures ReadsAs(a, b)
  {
    KeyIsGroupAndTail(a);
    KeyIsGroupAndTail(b);
    SuffixOfSuffix(a.nodeGroup, Tail(a), b.nodeGroup, Tail(b));
    var x := b.nodeGroup[|a.nodeGroup|..];
    assert b.nodeGroup == a.nodeGroup + x;
    if Tail(a) == Tail(b) { SameTailSameGroup(a.nodeGroup, b.nodeGroup, Tail(a)); }
    TailStartsExactly(a, b, x);
    var head := "-" + Itoa(a.port);
    if head <= x {
      assert b.nodeGroup == a.nodeGroup + "-" + Itoa(a.port) + x[|head|..];
    }
  }

  /** A plain entry reads as no other: the protocol has no hyphen, and a tail has two. */
  lemma PlainReadsAsNone(a: ComDetails, b: ComDetails)
    requires Plain(a)
    ensures !ReadsAs(a, b)
  {
    forall y ensures "-" + a.protocol != y + Tail(b) {
      var i, j := |y|, |y| + 1 + |Itoa(b.port)|;
      assert (y + Tail(b))[i] == '-' && (y + Tail(b))[j] == '-';
      assert forall k :: 0 < k < |"-" + a.protocol| ==> ("-" + a.protocol)[k] in a.protocol;
    }
  }

  /** On plain entries the key is as good as the triple, hyphens in group names notwithstanding. */
  lemma KeyIsInjective(a: ComDetails, b: ComDetails)
    requires Plain(a) && Plain(b)
    ensures Equals(a, b) <==> SameTriple(a, b)
  {
    KeysCollideExactly(a, b);
    PlainReadsAsNone(a, b);
    PlainReadsAsNone(b, a);
  }

  lemma SameTailSameGroup(g: string, h: string, tail: string)
    requires g + tail == h + tail
    ensures g == h
  {
    assert |g| == |h|;
    assert (g + tail)[..|g|] == g && (h + tail)[..|g|] == h;
  }

  // ----- First occurrences -----

  predicate HasKey(s: seq<ComDetails>, k: string)
  {
    exists x :: x in s && Key(x) == k
  }

  ghost predicate SameKeys(s: seq<ComDetails>, t: seq<ComDetails>) { forall k :: HasKey(s, k) <==> HasKey(t, k) }

  function PrintsKey(k: string): ComDetails -> bool { (cd: ComDetails) => Key(cd) == k }

  /** The first entry of `s` that prints the key `k`. */
  function FirstOf(s: seq<ComDetails>, k: string): Option<ComDetails> { First(s, PrintsKey(k)) }

  lemma FirstOfFinds(s: seq<ComDetails>, k: string)
    ensures FirstOf(s, k).Some? <==> HasKey(s, k)
    ensures FirstOf(s, k).Some? ==> FirstOf(s, k).value in s && Key(FirstOf(s, k).value) == k
  {
    FirstFinds(s, PrintsKey(k));
  }

  lemma FirstOfAppend(s: seq<ComDetails>, t: seq<ComDetails>, k: string)
    ensures FirstOf(s + t, k) == if FirstOf(s, k).Some? then FirstOf(s, k) else FirstOf(t, k)
  {
    FirstAppend(s, t, PrintsKey(k));
  }

  /** The loop over `allKeys`: each key once, with its first entry. */
  function FirstByKey(s: seq<ComDetails>): seq<ComDetails>
  {
    if s == [] then []
    else
      var r := FirstByKey(s[..|s| - 1]);
      var x := s[|s| - 1];
      if HasKey(r, Key(x)) then r else r + [x]
  }

  lemma {:induction false} FirstByKeyHas(s: seq<ComDetails>, x: ComDetails)
    ensures x in FirstByKey(s) <==> FirstOf(s, Key(x)) == Some(x)
    ensures HasKey(FirstByKey(s), Key(x)) <==> FirstOf(s, Key(x)).Some?
  {
    if s != [] {
      var r, last := FirstByKey(s[..|s| - 1]), s[|s| - 1];
      FirstByKeyHas(s[..|s| - 1], x);
      assert HasKey(r + [last], Key(x)) <==> HasKey(r, Key(x)) || Key(last) == Key(x) by {
        if HasKey(r, Key(x)) {
          var y :| y in r && Key(y) == Key(x);
          assert y in r + [last];
        }
        assert last in r + [last];
      }
      FirstByKeyHas(s[..|s| - 1], last);
    }
  }

  lemma {:induction false} FirstByKeyHasNoTies(s: seq<ComDetails>)
    ensures forall i, j :: 0 <= i < j < |FirstByKey(s)| ==> Key(FirstByKey(s)[i]) != Key(FirstByKey(s)[j])
  {
    if s != [] {
      FirstByKeyHasNoTies(s[..|s| - 1]);
    }
  }

  // ----- The normal form -----

  /** Insert into a strictly sorted sequence. */
  function Place(r: seq<ComDetails>, x: ComDetails): seq<ComDetails>
  {
    if r == [] || CompareDetails(x, r[0]) < 0 then [x] + r else [r[0]] + Place(r[1..], x)
  }

  function Arrange(s: seq<ComDetails>): seq<ComDetails>
  {
    if s == [] then [] else Place(Arrange(s[..|s| - 1]), s[|s| - 1])
  }

  /** `r` is strictly increasing by (NodeGroup, Protocol, Port) and holds exactly the entries of `s`
      that are first with their key. */
  ghost predicate IsNormalForm(s: seq<ComDetails>, r: seq<ComDetails>)
  {
    StrictlySorted(CompareDetails, r) && forall x :: x in r <==> FirstOf(s, Key(x)) == Some(x)
  }

  lemma {:induction false} PlaceKeepsOrder(r: seq<ComDetails>, x: ComDetails)
    requires StrictlySorted(CompareDetails, r)
    requires forall y :: y in r ==> CompareDetails(x, y) != 0
    ensures StrictlySorted(CompareDetails, Place(r, x))
    ensures forall y :: y in Place(r, x) <==> y == x || y in r
  {
    if r != [] {
      var y := r[0];
      CompareDetailsLaws(y, x, x);
      CompareDetailsLaws(x, y, y);
      assert r == [y] + r[1..];
      if CompareDetails(x, y) < 0 {
        forall z | z in r ensures CompareDetails(x, z) < 0 { CompareDetailsLaws(x, y, z); }
        PrependKeepsOrder(x, r);
      } else {
        PlaceKeepsOrder(r[1..], x);
        PrependKeepsOrder(y, Place(r[1..], x));
      }
    }
  }

  lemma PrependKeepsOrder(y: ComDetails, r: seq<ComDetails>)
    requires StrictlySorted(CompareDetails, r) && forall z :: z in r ==> CompareDetails(y, z) < 0
    ensures StrictlySorted(CompareDetails, [y] + r)
  {}

  lemma {:induction false} ArrangeSorts(s: seq<ComDetails>)
    requires forall i, j :: 0 <= i < j < |s| ==> Key(s[i]) != Key(s[j])
    ensures StrictlySorted(CompareDetails, Arrange(s))
    ensures forall x :: x in Arrange(s) <==> x in s
  {
    if s != [] {
      var front, x := s[..|s| - 1], s[|s| - 1];
      assert s == front + [x];
      ArrangeSorts(front);
      forall y | y in Arrange(front) ensures CompareDetails(x, y) != 0 { TiesShareKey(x, y); }
      PlaceKeepsOrder(Arrange(front), x);
    }
  }

  /** The normal form exists: arrange the first entries in order. */
  lemma NormalFormExists(s: seq<ComDetails>)
    ensures IsNormalForm(s, Arrange(FirstByKey(s)))
  {
    forall x ensures x in FirstByKey(s) <==> FirstOf(s, Key(x)) == Some(x) { FirstByKeyHas(s, x); }
    FirstByKeyHasNoTies(s);
    ArrangeSorts(FirstByKey(s));
  }

  /** The normal form of `s`; by NormalFormIsUnique there is only one. */
  ghost function Normalise(s: seq<ComDetails>): seq<ComDetails>
  {
    NormalFormExists(s);
    var r :| IsNormalForm(s, r);
    r
  }

  lemma NormaliseIsNormalForm(s: seq<ComDetails>)
    ensures IsNormalForm(s, Normalise(s))
  {
    NormalFormExists(s);
  }

  /** By node group, then protocol, then port, each strictly. */
  ghost predicate InOrder(r: seq<ComDetails>) { forall i, j :: 0 <= i < j < |r| ==> DetailsLess(r[i], r[j]) }

  lemma NormaliseIsInOrder(s: seq<ComDetails>)
    ensures InOrder(Normalise(s))
  {
    NormaliseIsNormalForm(s);
    var r := Normalise(s);
    forall i, j | 0 <= i < j < |r| ensures DetailsLess(r[i], r[j]) {
      var x := DynamicRange("", "", 0, 0, "", false);
      ComparatorsOrderFields(r[i], r[j], x, x);
    }
  }

  lemma NormalFormIsUnique(s: seq<ComDetails>, r: seq<ComDetails>)
    requires IsNormalForm(s, r)
    ensures r == Normalise(s)
  {
    NormaliseIsNormalForm(s);
    CompareDetailsIsComparator();
    StrictSortIsUnique(CompareDetails, r, Normalise(s));
  }

  /** Deduplicate, then sort with any algorithm at all: the answer is the normal form. */
  lemma AnySortNormalises(s: seq<ComDetails>, r: seq<ComDetails>)
    requires IsSortOf(CompareDetails, r, FirstByKey(s))
    ensures r == Normalise(s)
  {
    FirstByKeyHasNoTies(s);
    CompareDetailsIsComparator();
    SameElements(r, FirstByKey(s));
    var d := FirstByKey(s);
    DistinctStaysDistinct(r, d);
    forall i, j | 0 <= i < j < |r| ensures CompareDetails(r[i], r[j]) < 0 {
      assert r[i] in d && r[j] in d;
      TiesShareKey(r[i], r[j]);
    }
    forall x ensures x in r <==> FirstOf(s, Key(x)) == Some(x) { FirstByKeyHas(s, x); }
    NormalFormIsUnique(s, r);
  }

  // ----- Algebra -----

  /** The normal form sees only which entry is first with each key. */
  lemma SameFirstsSameNormalForm(s: seq<ComDetails>, t: seq<ComDetails>)
    requires forall k :: FirstOf(s, k) == FirstOf(t, k)
    ensures Normalise(s) == Normalise(t)
  {
    NormaliseIsNormalForm(t);
    NormalFormIsUnique(s, Normalise(t));
  }

  lemma FirstOfNormalise(s: seq<ComDetails>, k: string)
    ensures FirstOf(Normalise(s), k) == FirstOf(s, k)
    ensures HasKey(Normalise(s), k) <==> HasKey(s, k)
  {
    NormaliseIsNormalForm(s);
    FirstOfFinds(s, k);
    FirstOfFinds(Normalise(s), k);
  }

  /** Normalising a part first makes no difference. */
  lemma NormaliseAbsorbs(s: seq<ComDetails>, t: seq<ComDetails>)
    ensures Normalise(Normalise(s) + t) == Normalise(s + t)
    ensures Normalise(s + Normalise(t)) == Normalise(s + t)
    ensures Normalise(Normalise(s)) == Normalise(s)
  {
    forall k
      ensures FirstOf(Normalise(s) + t, k) == FirstOf(s + t, k)
      ensures FirstOf(s + Normalise(t), k) == FirstOf(s + t, k)
      ensures FirstOf(Normalise(s), k) == FirstOf(s, k)
    {
      FirstOfNormalise(s, k);
      FirstOfNormalise(t, k);
      FirstOfAppend(s, t, k);
      FirstOfAppend(Normalise(s), t, k);
      FirstOfAppend(s, Normalise(t), k);
    }
    SameFirstsSameNormalForm(Normalise(s) + t, s + t);
    SameFirstsSameNormalForm(s + Normalise(t), s + t);
    SameFirstsSameNormalForm(Normalise(s), s);
  }

  // ----- Flows -----

  ghost predicate HasFlow(s: seq<ComDetails>, x: ComDetails) { exists y :: y in s && SameTriple(x, y) }

  /** Within `s`, entries that print one key are one flow. */
  ghost predicate KeysDecide(s: seq<ComDetails>)
  {
    forall a, b :: a in s && b in s && Key(a) == Key(b) ==> SameTriple(a, b)
  }

  /** Deduplication keeps every flow exactly when no two flows print the same key. */
  lemma NormaliseKeepsFlowsExactly(s: seq<ComDetails>)
    ensures (forall x :: x in s ==> HasFlow(Normalise(s), x)) <==> KeysDecide(s)
  {
    NormaliseIsNormalForm(s);
    if KeysDecide(s) {
      forall x | x in s ensures HasFlow(Normalise(s), x) { FirstIsKept(s, x); }
    }
    if forall x :: x in s ==> HasFlow(Normalise(s), x) {
      forall a, b | a in s && b in s && Key(a) == Key(b) ensures SameTriple(a, b) {
        assert HasFlow(Normalise(s), a) && HasFlow(Normalise(s), b);
        var y :| y in Normalise(s) && SameTriple(a, y);
        var z :| z in Normalise(s) && SameTriple(b, z);
        assert Key(y) == Key(z);
      }
    }
  }

  /** In fields: no key of `s` reads as another entry of `s`. */
  lemma KeysDecideExactly(s: seq<ComDetails>)
    ensures KeysDecide(s) <==> forall a, b :: a in s && b in s ==> !ReadsAs(a, b)
    ensures AllPlain(s) ==> KeysDecide(s)
  {
    forall a, b ensures Collide(a, b) <==> ReadsAs(a, b) || ReadsAs(b, a) { KeysCollideExactly(a, b); }
    if AllPlain(s) {
      forall a, b | a in s && b in s ensures !ReadsAs(a, b) { PlainReadsAsNone(a, b); }
    }
  }

  lemma FirstIsKept(s: seq<ComDetails>, x: ComDetails)
    requires KeysDecide(s) && x in s
    ensures HasFlow(Normalise(s), x)
  {
    NormaliseIsNormalForm(s);
    FirstOfFinds(s, Key(x));
    assert HasKey(s, Key(x));
    var first := FirstOf(s, Key(x)).value;
    assert first in Normalise(s) && SameTriple(x, first);
  }

  /** Then it also invents none. */
  lemma NormaliseKeepsFlows(s: seq<ComDetails>, x: ComDetails)
    requires KeysDecide(s)
    ensures HasFlow(s, x) <==> HasFlow(Normalise(s), x)
  {
    NormaliseIsNormalForm(s);
    forall y | y in Normalise(s) ensures y in s { FirstOfFinds(s, Key(y)); }
    if y :| y in s && SameTriple(x, y) { FirstIsKept(s, y); }
  }

  function Triple(cd: ComDetails): (string, string, int) { (cd.nodeGroup, cd.protocol, cd.port) }

  /** Where keys decide flows, the keys decide the whole sequence of (node group, protocol, port). */
  lemma KeysDecideTriples(s: seq<ComDetails>, t: seq<ComDetails>)
    requires KeysDecide(s + t) && SameKeys(s, t)
    ensures Map(Normalise(s), Triple) == Map(Normalise(t), Triple)
  {
    var a, b := Map(Normalise(s), Triple), Map(Normalise(t), Triple);
    NormaliseIsNormalForm(s);
    NormaliseIsNormalForm(t);
    forall x | x in Normalise(s) ensures HasKey(t, Key(x)) { FirstOfFinds(s, Key(x)); }
    forall x | x in Normalise(t) ensures HasKey(s, Key(x)) { FirstOfFinds(t, Key(x)); }
    TriplesAreShared(s, t);
    TriplesAreShared(t, s);
    assert IsComparator(CompareTriples) by {
      forall x, y ensures Opposite(CompareTriples, x, y) { TriplesCompare(x, y, y); }
      forall x, y, z ensures Transitive(CompareTriples, x, y, z) { TriplesCompare(x, y, z); }
    }
    StrictSortIsUnique(CompareTriples, a, b);
  }

  lemma TriplesAreShared(s: seq<ComDetails>, t: seq<ComDetails>)
    requires KeysDecide(s + t) || KeysDecide(t + s)
    requires forall x :: x in Normalise(s) ==> HasKey(t, Key(x))
    ensures forall x :: x in Map(Normalise(s), Triple) ==> x in Map(Normalise(t), Triple)
  {
    var a, b := Normalise(s), Normalise(t);
    forall x | x in Map(a, Triple) ensures x in Map(b, Triple) {
      var i :| 0 <= i < |a| && Map(a, Triple)[i] == x;
      assert a[i] in a;
      var y := SharedTriple(s, t, a[i]);
      var j :| 0 <= j < |b| && b[j] == y;
      assert Map(b, Triple)[j] == x;
    }
  }

  lemma SharedTriple(s: seq<ComDetails>, t: seq<ComDetails>, x: ComDetails) returns (y: ComDetails)
    requires KeysDecide(s + t) || KeysDecide(t + s)
    requires x in Normalise(s) && HasKey(t, Key(x))
    ensures y in Normalise(t) && Triple(y) == Triple(x)
  {
    NormaliseIsNormalForm(s);
    NormaliseIsNormalForm(t);
    FirstOfFinds(s, Key(x));
    FirstOfFinds(t, Key(x));
    y := FirstOf(t, Key(x)).value;
    assert x in s + t && y in s + t && x in t + s && y in t + s;
  }

  /** A negative port can collide: deduplication then drops a flow. */
  lemma NegativePortsCollide(a: ComDetails, b: ComDetails)
    requires a.nodeGroup == "a" && a.port == -1 && b.nodeGroup == "a-" && b.port == 1 && a.protocol == b.protocol
    ensures !SameTriple(a, b) && Normalise([a, b]) == [a]
  {
    assert Itoa(1) == "1" && Itoa(-1) == "-" + Itoa(1);
    assert "a" + "-" + "-1" == "a-" + "-" + "1";
    SecondIsDropped(a, b);
  }

  /** So can a hyphen in a protocol. */
  lemma HyphenatedProtocolsCollide(a: ComDetails, b: ComDetails)
    requires a.nodeGroup == "a" && a.port == 1 && b.nodeGroup == "a-1" && b.port == 2
    requires a.protocol == "2-" + b.protocol
    ensures !SameTriple(a, b) && Normalise([a, b]) == [a]
  {
    assert Itoa(1) == "1" && Itoa(2) == "2";
    assert Key(a) == "a" + "-" + "1" + "-" + ("2-" + b.protocol);
    assert "a" + "-" + "1" + "-" + ("2-" + b.protocol) == "a-1" + "-" + "2" + "-" + b.protocol;
    SecondIsDropped(a, b);
  }

  lemma SecondIsDropped(a: ComDetails, b: ComDetails)
    requires Key(a) == Key(b)
    ensures Normalise([a, b]) == [a]
  {
    forall x ensures x in [a] <==> FirstOf([a, b], Key(x)) == Some(x) {
      FirstNext([], a, PrintsKey(Key(x)));
      FirstNext([a], b, PrintsKey(Key(x)));
      assert [] + [a] == [a] && [a] + [b] == [a, b];
    }
    NormalFormIsUnique([a, b], [a]);
  }
}
