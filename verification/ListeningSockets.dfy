/** Collecting the listening sockets of all nodes at once: one goroutine a node, results appended under a
    lock. The steps are those between which the scheduler may switch. */
module ListeningSockets {
  import opened NormalForm
  import opened Seqs
  import opened Text
  import opened Types

  /** What `ss` on one node gives: its group, the parsed entries, and the raw texts. */
  datatype NodeResult = NodeResult(
    group: string, udpEntries: seq<ComDetails>, tcpEntries: seq<ComDetails>, ssTCP: string, ssUDP: string)

  /** The nodes by name. */
  type Cluster = map<string, NodeResult>

  function Stamp(group: string, protocol: string): ComDetails -> ComDetails
  {
    (cd: ComDetails) => cd.(protocol := protocol, nodeGroup := group, optional := false)
  }

  /** `createSSOutputFromNode`: the entries of a node, UDP before TCP, under the group of the node. */
  function NodeDetails(r: NodeResult): seq<ComDetails>
  {
    Map(r.udpEntries, Stamp(r.group, "UDP")) + Map(r.tcpEntries, Stamp(r.group, "TCP"))
  }

  function NodeText(name: string, text: string): string { "node: " + name + "\n" + text + "\n" }

  datatype Phase = Working | Locked | AddedDetails | AddedTCP | AddedUDP | Done | Failed

  datatype State = State(
    phases: map<string, Phase>, nLock: Option<string>, details: seq<ComDetails>, ssOutTCP: string, ssOutUDP: string)

  ghost predicate Init(c: Cluster, s: State)
  {
    s == State(map n | n in c :: Working, None, [], "", "")
  }

  predicate At(s: State, n: string, phase: Phase) { n in s.phases && s.phases[n] == phase }

  function Move(s: State, n: string, phase: Phase): State { s.(phases := s.phases[n := phase]) }

  /** The goroutine of node `n` moves on: it takes the lock, appends, appends, appends, releases. */
  ghost predicate Advance(c: Cluster, s: State, n: string, t: State)
  {
    n in c &&
    (|| (At(s, n, Working) && s.nLock.None? && t == Move(s, n, Locked).(nLock := Some(n)))
     || (At(s, n, Locked) && t == Move(s, n, AddedDetails).(details := s.details + NodeDetails(c[n])))
     || (At(s, n, AddedDetails) && t == Move(s, n, AddedTCP).(ssOutTCP := s.ssOutTCP + NodeText(n, c[n].ssTCP)))
     || (At(s, n, AddedTCP) && t == Move(s, n, AddedUDP).(ssOutUDP := s.ssOutUDP + NodeText(n, c[n].ssUDP)))
     || (At(s, n, AddedUDP) && t == Move(s, n, Done).(nLock := None)))
  }

  /** It may also fail, but only before it takes the lock. */
  ghost predicate Step(c: Cluster, s: State, n: string, t: State)
  {
    Advance(c, s, n, t) || (n in c && At(s, n, Working) && t == Move(s, n, Failed))
  }

  ghost predicate IsRun(c: Cluster, run: seq<State>)
  {
    run != [] && Init(c, run[0]) && forall i :: 0 <= i < |run| - 1 ==> Next(c, run[i], run[i + 1])
  }

  ghost predicate Next(c: Cluster, s: State, t: State) { exists n :: Step(c, s, n, t) }

  /** `g.Wait` returns when every goroutine has, and reports an error unless all succeeded. */
  predicate Succeeded(s: State) { forall n :: n in s.phases ==> s.phases[n] == Done }

  predicate Finished(s: State) { forall n :: n in s.phases ==> s.phases[n] == Done || s.phases[n] == Failed }

  // ----- Whole blocks in one order -----

  function Details(c: Cluster, order: seq<string>): seq<ComDetails>
    requires forall n :: n in order ==> n in c
  {
    if order == [] then [] else Details(c, order[..|order| - 1]) + NodeDetails(c[order[|order| - 1]])
  }

  function TCPText(c: Cluster, order: seq<string>): string
    requires forall n :: n in order ==> n in c
  {
    if order == [] then ""
    else TCPText(c, order[..|order| - 1]) + NodeText(order[|order| - 1], c[order[|order| - 1]].ssTCP)
  }

  function UDPText(c: Cluster, order: seq<string>): string
    requires forall n :: n in order ==> n in c
  {
    if order == [] then ""
    else UDPText(c, order[..|order| - 1]) + NodeText(order[|order| - 1], c[order[|order| - 1]].ssUDP)
  }

  predicate Holding(p: Phase) { p == Locked || p == AddedDetails || p == AddedTCP || p == AddedUDP }

  /** How many of its three blocks a node that has taken the lock has appended. */
  function Appended(p: Phase): nat
  {
    match p
    case AddedDetails => 1
    case AddedTCP => 2
    case AddedUDP => 3
    case Done => 3
    case _ => 0
  }

  /** The nodes whose first `k` blocks are in: all of `order`, but perhaps for the last. */
  function Added(s: State, order: seq<string>, k: nat): (r: seq<string>)
    ensures forall n :: n in r ==> n in order
  {
    if order != [] && order[|order| - 1] in s.phases && Appended(s.phases[order[|order| - 1]]) < k
    then order[..|order| - 1] else order
  }

  ghost function Entered(s: State): set<string>
  {
    set n | n in s.phases && s.phases[n] != Working && s.phases[n] != Failed
  }

  /** `order` is the order in which the lock was taken; the holder, if any, took it last. */
  ghost predicate LockInv(c: Cluster, s: State, order: seq<string>)
  {
    && s.phases.Keys == c.Keys
    && Visits(order, Entered(s))
    && (forall n :: n in c ==> (Holding(s.phases[n]) <==> s.nLock == Some(n)))
    && (s.nLock.Some? ==> order != [] && order[|order| - 1] == s.nLock.value)
  }

  ghost predicate TextInv(c: Cluster, s: State, order: seq<string>)
    requires forall n :: n in order ==> n in c
  {
    && s.details == Details(c, Added(s, order, 1))
    && s.ssOutTCP == TCPText(c, Added(s, order, 2))
    && s.ssOutUDP == UDPText(c, Added(s, order, 3))
  }

  ghost predicate Inv(c: Cluster, s: State, order: seq<string>)
  {
    LockInv(c, s, order) && TextInv(c, s, order)
  }

  function OrderAfter(s: State, n: string, t: State, order: seq<string>): seq<string>
  {
    if At(s, n, Working) && At(t, n, Locked) then order + [n] else order
  }

  lemma StepKeepsLockInv(c: Cluster, s: State, n: string, t: State, order: seq<string>)
    requires LockInv(c, s, order) && Step(c, s, n, t)
    ensures LockInv(c, t, OrderAfter(s, n, t, order))
  {
    if At(s, n, Working) && At(t, n, Locked) {
      LockTakenKeepsLockInv(c, s, n, t, order);
    } else {
      assert Entered(t) == Entered(s);
    }
  }

  lemma LockTakenKeepsLockInv(c: Cluster, s: State, n: string, t: State, order: seq<string>)
    requires LockInv(c, s, order) && n in c && At(s, n, Working) && s.nLock.None?
    requires t.phases == s.phases[n := Locked] && t.nLock == Some(n)
    ensures LockInv(c, t, order + [n])
  {
    assert n !in Entered(s);
    assert Entered(t) == Entered(s) + {n};
  }

  lemma StepKeepsTextInv(c: Cluster, s: State, n: string, t: State, order: seq<string>)
    requires Inv(c, s, order) && Step(c, s, n, t)
    requires LockInv(c, t, OrderAfter(s, n, t, order))
    ensures TextInv(c, t, OrderAfter(s, n, t, order))
  {
    if !At(s, n, Working) {
      HolderAppends(c, s, n, t, order);
    } else if At(t, n, Locked) {
      LockTakenKeepsTexts(c, s, n, t, order);
    } else {
      assert order != [] ==> order[|order| - 1] in order;
      OthersKeepTexts(c, s, n, t, order);
    }
  }

  lemma OthersKeepTexts(c: Cluster, s: State, n: string, t: State, order: seq<string>)
    requires (forall m :: m in order ==> m in c) && TextInv(c, s, order)
    requires order != [] ==> order[|order| - 1] != n
    requires t == Move(s, n, Failed)
    ensures TextInv(c, t, order)
  {
    assert forall k: nat :: Added(t, order, k) == Added(s, order, k);
  }

  lemma LockTakenKeepsTexts(c: Cluster, s: State, n: string, t: State, order: seq<string>)
    requires Inv(c, s, order) && n in c && At(s, n, Working) && s.nLock.None?
    requires t == Move(s, n, Locked).(nLock := Some(n))
    ensures TextInv(c, t, order + [n])
  {
    forall m | m in order ensures At(s, m, Done) { assert m in Entered(s); }
    forall k: nat | 1 <= k <= 3 ensures Added(t, order + [n], k) == Added(s, order, k) {
      LockTakenKeepsAdded(s, n, t, order, k);
    }
  }

  lemma LockTakenKeepsAdded(s: State, n: string, t: State, order: seq<string>, k: nat)
    requires At(t, n, Locked) && 1 <= k <= 3
    requires forall m :: m in order ==> At(s, m, Done)
    ensures Added(t, order + [n], k) == Added(s, order, k) == order
  {
    assert (order + [n])[..|order|] == order;
    assert order != [] ==> order[|order| - 1] in order;
  }

  /** The three texts with the holder `n` in a given phase. */
  ghost predicate HolderTexts(c: Cluster, s: State, front: seq<string>, n: string, phase: Phase)
    requires n in c && forall m :: m in front ==> m in c
  {
    && s.details == Details(c, front) + (if Appended(phase) < 1 then [] else NodeDetails(c[n]))
    && s.ssOutTCP == TCPText(c, front) + (if Appended(phase) < 2 then "" else NodeText(n, c[n].ssTCP))
    && s.ssOutUDP == UDPText(c, front) + (if Appended(phase) < 3 then "" else NodeText(n, c[n].ssUDP))
  }

  lemma TextsOfHolder(c: Cluster, s: State, order: seq<string>, n: string)
    requires forall m :: m in order ==> m in c
    requires order != [] && order[|order| - 1] == n && n in s.phases
    ensures TextInv(c, s, order) <==> HolderTexts(c, s, order[..|order| - 1], n, s.phases[n])
  {
    AddedDetailsText(c, s, order, n);
    AddedTCPText(c, s, order, n);
    AddedUDPText(c, s, order, n);
  }

  lemma AddedDetailsText(c: Cluster, s: State, order: seq<string>, n: string)
    requires forall m :: m in order ==> m in c
    requires order != [] && order[|order| - 1] == n && n in s.phases
    ensures Details(c, Added(s, order, 1)) ==
      Details(c, order[..|order| - 1]) + if Appended(s.phases[n]) < 1 then [] else NodeDetails(c[n])
  {}

  lemma AddedTCPText(c: Cluster, s: State, order: seq<string>, n: string)
    requires forall m :: m in order ==> m in c
    requires order != [] && order[|order| - 1] == n && n in s.phases
    ensures TCPText(c, Added(s, order, 2)) ==
      TCPText(c, order[..|order| - 1]) + if Appended(s.phases[n]) < 2 then "" else NodeText(n, c[n].ssTCP)
  {}

  lemma AddedUDPText(c: Cluster, s: State, order: seq<string>, n: string)
    requires forall m :: m in order ==> m in c
    requires order != [] && order[|order| - 1] == n && n in s.phases
    ensures UDPText(c, Added(s, order, 3)) ==
      UDPText(c, order[..|order| - 1]) + if Appended(s.phases[n]) < 3 then "" else NodeText(n, c[n].ssUDP)
  {}

  lemma HolderAppends(c: Cluster, s: State, n: string, t: State, order: seq<string>)
    requires Inv(c, s, order) && Step(c, s, n, t) && order != [] && order[|order| - 1] == n
    requires !At(s, n, Working)
    ensures TextInv(c, t, order)
  {
    TextsOfHolder(c, s, order, n);
    TextsOfHolder(c, t, order, n);
    HolderStep(c, s, n, t, order[..|order| - 1]);
  }

  lemma HolderStep(c: Cluster, s: State, n: string, t: State, front: seq<string>)
    requires Step(c, s, n, t) && !At(s, n, Working)
    requires forall m :: m in front ==> m in c
    requires HolderTexts(c, s, front, n, s.phases[n])
    ensures HolderTexts(c, t, front, n, t.phases[n])
  {
    assert Details(c, front) + [] == Details(c, front);
    assert TCPText(c, front) + "" == TCPText(c, front);
    assert UDPText(c, front) + "" == UDPText(c, front);
  }

  lemma {:induction false} RunKeepsInv(c: Cluster, run: seq<State>) returns (order: seq<string>)
    requires IsRun(c, run)
    ensures Inv(c, run[|run| - 1], order)
  {
    if |run| == 1 {
      order := [];
    } else {
      var s, t := run[|run| - 2], run[|run| - 1];
      order := RunKeepsInv(c, run[..|run| - 1]);
      assert Next(c, s, t);
      var n :| Step(c, s, n, t);
      StepKeepsLockInv(c, s, n, t, order);
      StepKeepsTextInv(c, s, n, t, order);
      order := OrderAfter(s, n, t, order);
    }
  }

  /** On every successful run each node is committed once, and the three results are whole blocks in one
      common order. */
  lemma SuccessIsOneOrder(c: Cluster, run: seq<State>) returns (order: seq<string>)
    requires IsRun(c, run) && Succeeded(run[|run| - 1])
    ensures Visits(order, c.Keys)
    ensures var s := run[|run| - 1];
      s.details == Details(c, order) && s.ssOutTCP == TCPText(c, order) && s.ssOutUDP == UDPText(c, order)
    ensures run[|run| - 1].ssOutTCP == Lines(FlatMap(order, TCPLines(c)))
    ensures run[|run| - 1].ssOutUDP == Lines(FlatMap(order, UDPLines(c)))
  {
    order := RunKeepsInv(c, run);
    var s := run[|run| - 1];
    assert Entered(s) == c.Keys;
    assert order != [] ==> order[|order| - 1] in order;
    assert forall k: nat | k <= 3 :: Added(s, order, k) == order;
    TextsAreLines(c, order);
  }

  // ----- The raw texts -----

  function TCPLines(c: Cluster): string -> seq<string>
  {
    (n: string) => if n in c then ["node: " + n] + Split(c[n].ssTCP, '\n') else []
  }

  function UDPLines(c: Cluster): string -> seq<string>
  {
    (n: string) => if n in c then ["node: " + n] + Split(c[n].ssUDP, '\n') else []
  }

  lemma NodeTextIsLines(name: string, output: string)
    ensures NodeText(name, output) == Lines(["node: " + name] + Split(output, '\n'))
  {
    LinesOfSplit(output);
    LinesOfRest(["node: " + name] + Split(output, '\n'));
  }

  /** The raw texts are, node after node, a line with its name and the lines of its listing. */
  lemma {:induction false} TextsAreLines(c: Cluster, order: seq<string>)
    requires forall n :: n in order ==> n in c
    ensures TCPText(c, order) == Lines(FlatMap(order, TCPLines(c)))
    ensures UDPText(c, order) == Lines(FlatMap(order, UDPLines(c)))
  {
    if order != [] {
      var front, n := order[..|order| - 1], order[|order| - 1];
      TextsAreLines(c, front);
      NodeTextIsLines(n, c[n].ssTCP);
      NodeTextIsLines(n, c[n].ssUDP);
      LinesAppend(FlatMap(front, TCPLines(c)), TCPLines(c)(n));
      LinesAppend(FlatMap(front, UDPLines(c)), UDPLines(c)(n));
    }
  }

  ghost predicate CanAdvance(c: Cluster, s: State, n: string) { exists t :: Advance(c, s, n, t) }

  /** At every reachable state at most one goroutine is between lock and release. If one is, it can move; if
      none is, every goroutine still working can take the lock, and there is one unless all have returned. */
  lemma ExclusionAndProgress(c: Cluster, run: seq<State>)
    requires IsRun(c, run)
    ensures var s := run[|run| - 1];
      && (forall m, n :: m in s.phases && n in s.phases && Holding(s.phases[m]) && Holding(s.phases[n]) ==> m == n)
      && (forall n :: n in s.phases && Holding(s.phases[n]) ==> CanAdvance(c, s, n))
      && (s.nLock.Some? <==> exists n :: n in s.phases && Holding(s.phases[n]))
      && (s.nLock.None? ==> forall n :: At(s, n, Working) ==> CanAdvance(c, s, n))
      && (s.nLock.None? && !Finished(s) ==> exists n :: At(s, n, Working))
  {
    var order := RunKeepsInv(c, run);
    var s := run[|run| - 1];
    forall n | n in s.phases && Holding(s.phases[n]) ensures CanAdvance(c, s, n) { HolderCanAdvance(c, s, n); }
    if s.nLock.None? {
      forall n | At(s, n, Working) ensures CanAdvance(c, s, n) {
        assert Advance(c, s, n, Move(s, n, Locked).(nLock := Some(n)));
      }
      if n :| n in s.phases && s.phases[n] != Done && s.phases[n] != Failed { assert At(s, n, Working); }
    } else {
      assert s.nLock.value in order && s.nLock.value in s.phases;
    }
  }

  lemma HolderCanAdvance(c: Cluster, s: State, n: string)
    requires n in c && n in s.phases && Holding(s.phases[n])
    ensures CanAdvance(c, s, n)
  {
    var t := match s.phases[n]
      case Locked => Move(s, n, AddedDetails).(details := s.details + NodeDetails(c[n]))
      case AddedDetails => Move(s, n, AddedTCP).(ssOutTCP := s.ssOutTCP + NodeText(n, c[n].ssTCP))
      case AddedTCP => Move(s, n, AddedUDP).(ssOutUDP := s.ssOutUDP + NodeText(n, c[n].ssUDP))
      case _ => Move(s, n, Done).(nLock := None);
    assert Advance(c, s, n, t);
  }

  // ----- Every run ends -----

  function PhaseRank(p: Phase): nat
  {
    match p
    case Working => 0
    case Locked => 1
    case AddedDetails => 2
    case AddedTCP => 3
    case AddedUDP => 4
    case Done => 5
    case Failed => 5
  }

  /** How far the goroutines of `nodes` have come together. */
  function Rank(s: State, nodes: seq<string>): nat
    requires forall n :: n in nodes ==> n in s.phases
  {
    if nodes == [] then 0 else Rank(s, nodes[..|nodes| - 1]) + PhaseRank(s.phases[nodes[|nodes| - 1]])
  }

  lemma StepRaisesPhase(c: Cluster, s: State, n: string, t: State)
    requires Step(c, s, n, t)
    ensures n in s.phases && n in t.phases && t.phases == s.phases[n := t.phases[n]]
    ensures PhaseRank(t.phases[n]) > PhaseRank(s.phases[n])
  {}

  lemma {:induction false} StepRaisesRank(s: State, n: string, t: State, nodes: seq<string>)
    requires n in s.phases && n in t.phases && t.phases == s.phases[n := t.phases[n]]
    requires PhaseRank(t.phases[n]) > PhaseRank(s.phases[n])
    requires forall m :: m in nodes ==> m in s.phases
    ensures Rank(t, nodes) >= Rank(s, nodes) + if n in nodes then 1 else 0
  {
    if nodes != [] {
      StepRaisesRank(s, n, t, nodes[..|nodes| - 1]);
      assert nodes == nodes[..|nodes| - 1] + [nodes[|nodes| - 1]];
    }
  }

  lemma {:induction false} RankIsBounded(s: State, nodes: seq<string>)
    requires forall n :: n in nodes ==> n in s.phases
    ensures Rank(s, nodes) <= 5 * |nodes|
  {
    if nodes != [] { RankIsBounded(s, nodes[..|nodes| - 1]); }
  }

  lemma {:induction false} RunRaisesRank(c: Cluster, run: seq<State>, nodes: seq<string>)
    requires IsRun(c, run) && Visits(nodes, c.Keys)
    ensures run[|run| - 1].phases.Keys == c.Keys
    ensures Rank(run[|run| - 1], nodes) >= |run| - 1
  {
    if |run| > 1 {
      var s, t := run[|run| - 2], run[|run| - 1];
      RunRaisesRank(c, run[..|run| - 1], nodes);
      assert Next(c, s, t);
      var n :| Step(c, s, n, t);
      StepRaisesPhase(c, s, n, t);
      StepRaisesRank(s, n, t, nodes);
    }
  }

  ghost predicate CanStep(c: Cluster, s: State) { exists t :: Next(c, s, t) }

  lemma AdvanceIsStep(c: Cluster, s: State, n: string)
    requires CanAdvance(c, s, n)
    ensures CanStep(c, s)
  {
    var t :| Advance(c, s, n, t);
    assert Step(c, s, n, t) && Next(c, s, t);
  }

  /** A run takes at most five steps a node, and where no step is left, all have returned. */
  lemma RunsEnd(c: Cluster, run: seq<State>)
    requires IsRun(c, run)
    ensures |run| <= 5 * |c| + 1
    ensures Finished(run[|run| - 1]) <==> !CanStep(c, run[|run| - 1])
  {
    var s := run[|run| - 1];
    var nodes := SomeOrder(c.Keys);
    RunRaisesRank(c, run, nodes);
    RankIsBounded(s, nodes);
    ExclusionAndProgress(c, run);
    if !Finished(s) {
      var n :| n in s.phases && (Holding(s.phases[n]) || s.nLock.None?) && CanAdvance(c, s, n);
      AdvanceIsStep(c, s, n);
    }
  }

  // ----- Every order is possible -----

  /** The state in which the nodes of `order` are done and no other has started on its results. */
  ghost function After(c: Cluster, order: seq<string>): State
    requires forall n :: n in order ==> n in c
  {
    State(map n | n in c :: if n in order then Done else Working, None, Details(c, order), TCPText(c, order),
          UDPText(c, order))
  }

  lemma BlockSteps(c: Cluster, s: State, n: string) returns (steps: seq<State>)
    requires n in c && At(s, n, Working) && s.nLock.None?
    ensures |steps| == 6 && steps[0] == s && forall i :: 0 <= i < 5 ==> Next(c, steps[i], steps[i + 1])
    ensures steps[5] == State(s.phases[n := Done], None, s.details + NodeDetails(c[n]),
                              s.ssOutTCP + NodeText(n, c[n].ssTCP), s.ssOutUDP + NodeText(n, c[n].ssUDP))
  {
    var s1 := Move(s, n, Locked).(nLock := Some(n));
    var s2 := Move(s1, n, AddedDetails).(details := s.details + NodeDetails(c[n]));
    var s3 := Move(s2, n, AddedTCP).(ssOutTCP := s.ssOutTCP + NodeText(n, c[n].ssTCP));
    var s4 := Move(s3, n, AddedUDP).(ssOutUDP := s.ssOutUDP + NodeText(n, c[n].ssUDP));
    var s5 := Move(s4, n, Done).(nLock := None);
    assert Step(c, s, n, s1) && Step(c, s1, n, s2) && Step(c, s2, n, s3) && Step(c, s3, n, s4) && Step(c, s4, n, s5);
    assert s5.phases == s.phases[n := Done];
    steps := [s, s1, s2, s3, s4, s5];
  }

  lemma {:induction false} OrderHasRun(c: Cluster, order: seq<string>) returns (run: seq<State>)
    requires forall n :: n in order ==> n in c
    requires forall i, j :: 0 <= i < j < |order| ==> order[i] != order[j]
    ensures IsRun(c, run) && run[|run| - 1] == After(c, order)
  {
    if order == [] {
      run := [After(c, [])];
    } else {
      var front, n := order[..|order| - 1], order[|order| - 1];
      assert order == front + [n];
      var before := OrderHasRun(c, front);
      var steps := BlockSteps(c, After(c, front), n);
      run := before + steps[1..];
      RunsConnect(c, before, steps);
      assert After(c, front).phases[n := Done] == After(c, order).phases;
    }
  }

  lemma RunsConnect(c: Cluster, run: seq<State>, steps: seq<State>)
    requires IsRun(c, run) && steps != [] && steps[0] == run[|run| - 1]
    requires forall i :: 0 <= i < |steps| - 1 ==> Next(c, steps[i], steps[i + 1])
    ensures IsRun(c, run + steps[1..]) && (run + steps[1..])[|run + steps[1..]| - 1] == steps[|steps| - 1]
  {
    var all := run + steps[1..];
    forall i | 0 <= i < |all| - 1 ensures Next(c, all[i], all[i + 1]) {
      if i >= |run| - 1 {
        assert all[i] == steps[i - |run| + 1] && all[i + 1] == steps[i - |run| + 2];
      }
    }
  }

  /** The converse of SuccessIsOneOrder: every order of the nodes is the order of some successful run. */
  lemma EveryOrderSucceeds(c: Cluster, order: seq<string>) returns (run: seq<State>)
    requires Visits(order, c.Keys)
    ensures IsRun(c, run) && Succeeded(run[|run| - 1])
    ensures var s := run[|run| - 1];
      s.details == Details(c, order) && s.ssOutTCP == TCPText(c, order) && s.ssOutUDP == UDPText(c, order)
  {
    run := OrderHasRun(c, order);
  }

  // ----- The matrix does not depend on the schedule -----

  lemma {:induction false} DetailsHas(c: Cluster, order: seq<string>, x: ComDetails)
    requires forall n :: n in order ==> n in c
    ensures x in Details(c, order) <==> exists n :: n in order && x in NodeDetails(c[n])
  {
    if order != [] {
      DetailsHas(c, order[..|order| - 1], x);
      assert order == order[..|order| - 1] + [order[|order| - 1]];
    }
  }

  ghost predicate DistinctGroups(c: Cluster)
  {
    forall m, n :: m in c && n in c && c[m].group == c[n].group ==> m == n
  }

  ghost predicate PortsAreNatural(c: Cluster)
  {
    forall n, cd :: n in c && (cd in c[n].udpEntries || cd in c[n].tcpEntries) ==> cd.port >= 0
  }

  /** `x` is the entry for the parsed socket `y` of a node: everything as parsed, but the protocol is that of
      the listing, the group that of the node, and nothing is optional. */
  predicate IsSocketOf(r: NodeResult, y: ComDetails, x: ComDetails)
  {
    && ((x.protocol == "TCP" && y in r.tcpEntries) || (x.protocol == "UDP" && y in r.udpEntries))
    && x.nodeGroup == r.group && !x.optional
    && x.direction == y.direction && x.port == y.port && x.namespace == y.namespace && x.service == y.service
    && x.pod == y.pod && x.container == y.container
  }

  lemma NodeDetailsExactly(r: NodeResult, x: ComDetails)
    ensures x in NodeDetails(r) <==> exists y :: IsSocketOf(r, y, x)
  {
    MapHas(r.udpEntries, Stamp(r.group, "UDP"), x);
    MapHas(r.tcpEntries, Stamp(r.group, "TCP"), x);
    forall y, protocol ensures x == Stamp(r.group, protocol)(y) <==> IsStamped(r.group, protocol, y, x) {}
    if y :| y in r.udpEntries && x == Stamp(r.group, "UDP")(y) { assert IsSocketOf(r, y, x); }
    if y :| y in r.tcpEntries && x == Stamp(r.group, "TCP")(y) { assert IsSocketOf(r, y, x); }
    if y :| IsSocketOf(r, y, x) { assert IsStamped(r.group, x.protocol, y, x); }
  }

  predicate IsStamped(group: string, protocol: string, y: ComDetails, x: ComDetails)
  {
    && x.nodeGroup == group && x.protocol == protocol && !x.optional
    && x.direction == y.direction && x.port == y.port && x.namespace == y.namespace && x.service == y.service
    && x.pod == y.pod && x.container == y.container
  }

  lemma NodeDetailsArePlain(c: Cluster, n: string, x: ComDetails)
    requires PortsAreNatural(c) && n in c && x in NodeDetails(c[n])
    ensures x.nodeGroup == c[n].group && Plain(x) && (x.protocol == "TCP" || x.protocol == "UDP")
  {
    NodeDetailsExactly(c[n], x);
    var y :| IsSocketOf(c[n], y, x);
  }

  lemma DetailsArePlain(c: Cluster, order: seq<string>)
    requires PortsAreNatural(c) && forall n :: n in order ==> n in c
    ensures AllPlain(Details(c, order))
  {
    forall x | x in Details(c, order) ensures Plain(x) {
      DetailsHas(c, order, x);
      var n :| n in order && x in NodeDetails(c[n]);
      NodeDetailsArePlain(c, n, x);
    }
  }

  /** What a successful run collects: the sockets of all nodes. */
  lemma CollectedExactly(c: Cluster, run: seq<State>, x: ComDetails)
    requires IsRun(c, run) && Succeeded(run[|run| - 1])
    ensures x in run[|run| - 1].details <==> exists n, y :: n in c && IsSocketOf(c[n], y, x)
  {
    var order := SuccessIsOneOrder(c, run);
    DetailsHas(c, order, x);
    forall n | n in c ensures x in NodeDetails(c[n]) <==> exists y :: IsSocketOf(c[n], y, x) {
      NodeDetailsExactly(c[n], x);
    }
    if n, y :| n in c && IsSocketOf(c[n], y, x) { assert n in order && x in NodeDetails(c[n]); }
  }

  lemma CollectedIsPlain(c: Cluster, run: seq<State>)
    requires IsRun(c, run) && Succeeded(run[|run| - 1]) && PortsAreNatural(c)
    ensures AllPlain(run[|run| - 1].details)
  {
    var order := SuccessIsOneOrder(c, run);
    DetailsArePlain(c, order);
  }

  /** All successful runs give the same keys, and the same sequence of (node group, protocol, port). */
  lemma RunsAgreeOnFlows(c: Cluster, run: seq<State>, other: seq<State>)
    requires IsRun(c, run) && Succeeded(run[|run| - 1])
    requires IsRun(c, other) && Succeeded(other[|other| - 1])
    ensures SameKeys(run[|run| - 1].details, other[|other| - 1].details)
    ensures PortsAreNatural(c) ==>
      Map(Normalise(run[|run| - 1].details), Triple) == Map(Normalise(other[|other| - 1].details), Triple)
  {
    var a, b := run[|run| - 1].details, other[|other| - 1].details;
    forall x ensures x in a <==> x in b {
      CollectedExactly(c, run, x);
      CollectedExactly(c, other, x);
    }
    forall k ensures HasKey(a, k) <==> HasKey(b, k) {}
    if PortsAreNatural(c) {
      CollectedIsPlain(c, run);
      CollectedIsPlain(c, other);
      KeysDecideExactly(a + b);
      KeysDecideTriples(a, b);
    }
  }

  /** On a successful run every socket of every node is in the matrix, as a group, protocol and port. */
  lemma SocketsAreKept(c: Cluster, run: seq<State>, n: string, y: ComDetails, x: ComDetails)
    requires IsRun(c, run) && Succeeded(run[|run| - 1]) && PortsAreNatural(c)
    requires n in c && IsSocketOf(c[n], y, x)
    ensures HasFlow(Normalise(run[|run| - 1].details), x)
  {
    var details := run[|run| - 1].details;
    CollectedExactly(c, run, x);
    CollectedIsPlain(c, run);
    KeysDecideExactly(details);
    NormaliseKeepsFlows(details, x);
    assert SameTriple(x, x);
  }

  /** A key belongs to one node, so its first entry is the first in the block of that node. */
  lemma {:induction false} FirstIsInBlock(c: Cluster, order: seq<string>, n: string, k: string)
    requires DistinctGroups(c) && PortsAreNatural(c)
    requires forall m :: m in order ==> m in c
    requires n in order && HasKey(NodeDetails(c[n]), k)
    ensures FirstOf(Details(c, order), k) == FirstOf(NodeDetails(c[n]), k)
  {
    var front, last := order[..|order| - 1], order[|order| - 1];
    assert order == front + [last];
    FirstOfAppend(Details(c, front), NodeDetails(c[last]), k);
    FirstOfFinds(Details(c, front), k);
    FirstOfFinds(NodeDetails(c[last]), k);
    var y :| y in NodeDetails(c[n]) && Key(y) == k;
    NodeDetailsArePlain(c, n, y);
    if n in front {
      FirstIsInBlock(c, front, n, k);
      FirstOfFinds(NodeDetails(c[n]), k);
    } else {
      forall x | x in Details(c, front) ensures Key(x) != k {
        DetailsHas(c, front, x);
        var m :| m in front && x in NodeDetails(c[m]);
        NodeDetailsArePlain(c, m, x);
        KeyIsInjective(x, y);
      }
    }
  }

  /** When no two nodes share a group, the matrix itself is the same for every schedule. */
  lemma ScheduleDoesNotShow(c: Cluster, run: seq<State>, other: seq<State>)
    requires IsRun(c, run) && Succeeded(run[|run| - 1])
    requires IsRun(c, other) && Succeeded(other[|other| - 1])
    requires DistinctGroups(c) && PortsAreNatural(c)
    ensures Normalise(run[|run| - 1].details) == Normalise(other[|other| - 1].details)
  {
    var a := SuccessIsOneOrder(c, run);
    var b := SuccessIsOneOrder(c, other);
    forall k ensures FirstOf(Details(c, a), k) == FirstOf(Details(c, b), k) {
      FirstOfFinds(Details(c, a), k);
      FirstOfFinds(Details(c, b), k);
      if x :| (x in Details(c, a) || x in Details(c, b)) && Key(x) == k {
        DetailsHas(c, a, x);
        DetailsHas(c, b, x);
        var n :| n in a && x in NodeDetails(c[n]);
        FirstIsInBlock(c, a, n, k);
        FirstIsInBlock(c, b, n, k);
      }
    }
    SameFirstsSameNormalForm(Details(c, a), Details(c, b));
  }
}
