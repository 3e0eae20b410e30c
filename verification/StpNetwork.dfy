/** The distributed election: any number of bridges on an arbitrary topology, exchanging
    honest BPDUs that may be delayed, lost, duplicated and reordered without limit. */
module StpNetwork {
  import opened Words
  import opened Stp

  /** BPDUs sent from `senderPort` of one bridge may arrive at `receiverPort` of another. */
  datatype Link = Link(sender: nat, senderPort: nat, receiver: nat, receiverPort: nat)

  datatype Topology = Topology(bridges: seq<BridgeState>, links: set<Link>)

  ghost predicate ValidTopology(t: Topology) {
    && (forall v :: 0 <= v < |t.bridges| ==> IsInitial(t.bridges[v]) && |t.bridges[v].ports| <= MAX_PORTS)
    && (forall u, v :: 0 <= u < v < |t.bridges| ==> t.bridges[u].id != t.bridges[v].id)
    && (forall l :: l in t.links ==>
          && l.sender < |t.bridges| && l.senderPort < |t.bridges[l.sender].ports|
          && l.receiver < |t.bridges| && l.receiverPort < |t.bridges[l.receiver].ports|)
  }

  /** One arrival: the BPDU that crossed `link` was sent when `sentAt` arrivals had happened. */
  datatype Delivery = Delivery(link: Link, sentAt: nat)

  /** A run is any sequence of arrivals of BPDUs sent earlier: each may arrive never, once or
      many times, after any delay. */
  ghost predicate ValidRun(t: Topology, run: seq<Delivery>) {
    && ValidTopology(t)
    && forall i :: 0 <= i < |run| ==> run[i].link in t.links && run[i].sentAt <= i
  }

  /** An honest BPDU carries the sender's current root, cost and identifier. */
  function Advertised(b: BridgeState, p: nat): Bpdu
    requires p < |b.ports|
  {
    Bpdu(b.rootId, b.rootPathCost, b.id, b.ports[p].portId)
  }

  ghost predicate SameHardware(b: BridgeState, c: BridgeState) {
    && b.id == c.id
    && |b.ports| == |c.ports|
    && forall p :: 0 <= p < |b.ports| ==> b.ports[p].pathCost == c.ports[p].pathCost
  }

  ghost predicate Healthy(t: Topology, net: seq<BridgeState>) {
    && |net| == |t.bridges|
    && forall v :: 0 <= v < |net| ==> Consistent(net[v]) && SameHardware(net[v], t.bridges[v])
  }

  /** All bridges after the first k arrivals of a run. */
  ghost function At(t: Topology, run: seq<Delivery>, k: nat): (net: seq<BridgeState>)
    requires ValidRun(t, run) && k <= |run|
    ensures Healthy(t, net)
    decreases k, 0
  {
    if k == 0 then t.bridges
    else
      var net := At(t, run, k - 1);
      var to := run[k - 1].link.receiver;
      var bpdu := Arriving(t, run, k - 1);
      ProcessedIsConsistent(net[to], run[k - 1].link.receiverPort, bpdu);
      net[to := Processed(net[to], run[k - 1].link.receiverPort, bpdu)]
  }

  /** The BPDU of arrival number i. */
  ghost function Arriving(t: Topology, run: seq<Delivery>, i: nat): Bpdu
    requires ValidRun(t, run) && i < |run|
    decreases i, 1
  {
    Advertised(At(t, run, run[i].sentAt)[run[i].link.sender], run[i].link.senderPort)
  }

  lemma AtNext(t: Topology, run: seq<Delivery>, k: nat)
    requires ValidRun(t, run) && k < |run|
    ensures var l := run[k].link;
            At(t, run, k + 1) == At(t, run, k)[l.receiver :=
              Processed(At(t, run, k)[l.receiver], l.receiverPort,
                        Advertised(At(t, run, run[k].sentAt)[l.sender], l.senderPort))]
  {
  }

  // ---------------------------------------------------------------- walks

  ghost function PortCost(t: Topology, l: Link): u32
    requires ValidTopology(t) && l in t.links
  {
    t.bridges[l.receiver].ports[l.receiverPort].pathCost
  }

  /** A walk leaves each bridge through the receiving port of a link, towards the link's sender. */
  ghost predicate IsWalk(t: Topology, v: nat, walk: seq<Link>, root: nat)
    decreases |walk|
  {
    if walk == [] then v == root
    else walk[0] in t.links && walk[0].receiver == v && IsWalk(t, walk[0].sender, walk[1..], root)
  }

  ghost function WalkCost(t: Topology, v: nat, walk: seq<Link>, root: nat): nat
    requires ValidTopology(t) && IsWalk(t, v, walk, root)
    decreases |walk|
  {
    if walk == [] then 0
    else PortCost(t, walk[0]) + WalkCost(t, walk[0].sender, walk[1..], root)
  }

  // ---------------------------------------------------------------- soundness

  /** The vector of bridge v describes a real walk to a real bridge, leaving through its root port. */
  ghost predicate Describes(t: Topology, v: nat, b: BridgeState, walk: seq<Link>, root: nat)
    requires ValidTopology(t)
  {
    && root < |t.bridges|
    && IsWalk(t, v, walk, root)
    && b.rootId == t.bridges[root].id
    && b.rootPathCost == WalkCost(t, v, walk, root) % TWO_32
    && (walk == [] <==> b.rootPort == -1)
    && (walk != [] ==> walk[0].receiverPort == b.rootPort)
  }

  ghost predicate SameVector(b: BridgeState, c: BridgeState) {
    b.rootId == c.rootId && b.rootPathCost == c.rootPathCost && b.rootPort == c.rootPort
  }

  /** Bridge state b holds the vector that the sender's state s offers over the link. */
  ghost predicate TookOver(t: Topology, link: Link, s: BridgeState, b: BridgeState)
    requires ValidTopology(t) && link in t.links
  {
    && b.rootId == s.rootId
    && b.rootPort == link.receiverPort
    && b.rootPathCost == Add32(s.rootPathCost, PortCost(t, link))
  }

  /** What an arrival over `link` from sender state s makes of the receiver's state b. */
  ghost predicate Effect(t: Topology, link: Link, s: BridgeState, b: BridgeState, b': BridgeState)
    requires ValidTopology(t) && link in t.links
  {
    && (SameVector(b, b') || TookOver(t, link, s, b'))
    && Rank(b'.rootId) == Min(Rank(b.rootId), Rank(s.rootId))
    && (b'.rootId == s.rootId && b'.rootPort != -1 ==>
          b'.rootPathCost <= Add32(s.rootPathCost, PortCost(t, link)))
    && (b'.rootId == b.rootId && !SameVector(b, b') ==>
          b.rootPort == link.receiverPort || b'.rootPathCost < b.rootPathCost)
    && (b.rootPort == link.receiverPort && s.rootId == b.rootId ==>
          b'.rootPathCost == Add32(s.rootPathCost, PortCost(t, link)))
  }

  lemma ProcessedEffect(t: Topology, link: Link, s: BridgeState, b: BridgeState)
    requires ValidTopology(t) && link in t.links
    requires Consistent(b) && SameHardware(b, t.bridges[link.receiver]) && link.senderPort < |s.ports|
    ensures Effect(t, link, s, b, Processed(b, link.receiverPort, Advertised(s, link.senderPort)))
  {
    var bpdu := Advertised(s, link.senderPort);
    ProcessedVector(b, link.receiverPort, bpdu);
    ProcessedIsConsistent(b, link.receiverPort, bpdu);
  }

  /** All states of a run. The lemmas below reason about this sequence one arrival at a time. */
  type Trace = seq<seq<BridgeState>>

  ghost predicate Records(t: Topology, run: seq<Delivery>, tr: Trace)
    requires ValidRun(t, run)
  {
    |tr| == |run| + 1 && forall k {:trigger tr[k]} :: 0 <= k <= |run| ==> tr[k] == At(t, run, k)
  }

  ghost predicate IsArrival(t: Topology, run: seq<Delivery>, tr: Trace, i: nat, v: nat)
    requires ValidTopology(t) && i < |run| && |tr| == |run| + 1 && v < |tr[i]| && v < |tr[i + 1]|
    requires run[i].link in t.links && run[i].sentAt <= i && run[i].link.sender < |tr[run[i].sentAt]|
  {
    if v == run[i].link.receiver then
      Effect(t, run[i].link, tr[run[i].sentAt][run[i].link.sender], tr[i][v], tr[i + 1][v])
    else
      tr[i + 1][v] == tr[i][v]
  }

  ghost predicate IsTrace(t: Topology, run: seq<Delivery>, tr: Trace) {
    && ValidRun(t, run)
    && |tr| == |run| + 1
    && tr[0] == t.bridges
    && (forall k :: 0 <= k < |tr| ==> |tr[k]| == |t.bridges|)
    && (forall i, v :: 0 <= i < |run| && 0 <= v < |t.bridges| ==> IsArrival(t, run, tr, i, v))
  }

  /** The sender's state when the BPDU of arrival number i left it. */
  ghost function SenderOf(t: Topology, run: seq<Delivery>, i: nat): BridgeState
    requires ValidRun(t, run) && i < |run|
  {
    At(t, run, run[i].sentAt)[run[i].link.sender]
  }

  lemma ReceiverInRun(t: Topology, run: seq<Delivery>, i: nat)
    requires ValidRun(t, run) && i < |run|
    ensures
      var v := run[i].link.receiver;
      Effect(t, run[i].link, SenderOf(t, run, i), At(t, run, i)[v], At(t, run, i + 1)[v])
  {
    var v := run[i].link.receiver;
    var s, b := SenderOf(t, run, i), At(t, run, i)[v];
    var b' := Processed(b, run[i].link.receiverPort, Advertised(s, run[i].link.senderPort));
    assert At(t, run, i + 1)[v] == b';
    ProcessedEffect(t, run[i].link, s, b);
  }

  lemma OthersInRun(t: Topology, run: seq<Delivery>, i: nat, v: nat)
    requires ValidRun(t, run) && i < |run| && v < |t.bridges| && v != run[i].link.receiver
    ensures At(t, run, i + 1)[v] == At(t, run, i)[v]
  {
  }

  lemma ArrivalInRun(t: Topology, run: seq<Delivery>, tr: Trace, i: nat, v: nat)
    requires ValidRun(t, run) && i < |run| && v < |t.bridges| && |tr| == |run| + 1
    requires tr[i] == At(t, run, i) && tr[i + 1] == At(t, run, i + 1)
    requires tr[run[i].sentAt] == At(t, run, run[i].sentAt)
    ensures IsArrival(t, run, tr, i, v)
  {
    if v == run[i].link.receiver {
      ReceiverInRun(t, run, i);
    } else {
      OthersInRun(t, run, i, v);
    }
  }

  lemma RecordedRunIsTrace(t: Topology, run: seq<Delivery>, tr: Trace)
    requires ValidRun(t, run) && Records(t, run, tr)
    ensures IsTrace(t, run, tr)
  {
    forall i, v | 0 <= i < |run| && 0 <= v < |t.bridges|
      ensures IsArrival(t, run, tr, i, v)
    {
      ArrivalInRun(t, run, tr, i, v);
    }
  }

  lemma Record(t: Topology, run: seq<Delivery>) returns (tr: Trace)
    requires ValidRun(t, run)
    ensures Records(t, run, tr) && IsTrace(t, run, tr)
  {
    tr := seq(|run| + 1, k requires 0 <= k <= |run| => At(t, run, k));
    RecordedRunIsTrace(t, run, tr);
  }

  /** A vector taken over from a BPDU describes the sender's walk, one hop longer. */
  lemma ExtendWalk(t: Topology, link: Link, s: BridgeState, b: BridgeState, tail: seq<Link>, root: nat)
    requires ValidTopology(t) && link in t.links
    requires Describes(t, link.sender, s, tail, root) && TookOver(t, link, s, b)
    ensures Describes(t, link.receiver, b, [link] + tail, root)
  {
    assert ([link] + tail)[1..] == tail;
    ModAdd(WalkCost(t, link.sender, tail, root), PortCost(t, link));
    WrapIsModular(s.rootPathCost, PortCost(t, link), 0);
  }

  lemma KeepWalk(t: Topology, v: nat, b: BridgeState, c: BridgeState, walk: seq<Link>, root: nat)
    requires ValidTopology(t)
    requires Describes(t, v, b, walk, root) && SameVector(b, c)
    ensures Describes(t, v, c, walk, root)
  {
  }

  lemma {:induction false} FindWalk(t: Topology, run: seq<Delivery>, tr: Trace, k: nat, v: nat)
    returns (walk: seq<Link>, root: nat)
    requires IsTrace(t, run, tr) && k <= |run| && v < |t.bridges|
    ensures Describes(t, v, tr[k][v], walk, root)
    decreases k
  {
    if k == 0 {
      return [], v;
    }
    var i := k - 1;
    assert IsArrival(t, run, tr, i, v);
    if SameVector(tr[i][v], tr[k][v]) {
      walk, root := FindWalk(t, run, tr, i, v);
      KeepWalk(t, v, tr[i][v], tr[k][v], walk, root);
    } else {
      var link := run[i].link;
      walk, root := FindWalk(t, run, tr, run[i].sentAt, link.sender);
      ExtendWalk(t, link, tr[run[i].sentAt][link.sender], tr[k][v], walk, root);
      walk := [link] + walk;
    }
  }

  ghost predicate IsExplained(t: Topology, v: nat, b: BridgeState)
    requires ValidTopology(t)
  {
    exists walk, root :: Describes(t, v, b, walk, root)
  }

  // ---------------------------------------------------------------- sums that fit 32 bits

  /** No cost sum reaches 2^32 in the run. */
  ghost predicate SumsFit(t: Topology, run: seq<Delivery>)
    requires ValidRun(t, run)
  {
    forall i :: 0 <= i < |run| ==> SenderOf(t, run, i).rootPathCost + PortCost(t, run[i].link) < TWO_32
  }

  lemma SumsFitTheTrace(t: Topology, run: seq<Delivery>, tr: Trace)
    requires ValidRun(t, run) && Records(t, run, tr) && IsTrace(t, run, tr) && SumsFit(t, run)
    ensures NoWrap(t, run, tr)
  {
    forall i | 0 <= i < |run| ensures Offer(t, run, tr, i) < TWO_32 {
      assert tr[run[i].sentAt] == At(t, run, run[i].sentAt);
      assert SenderOf(t, run, i) == SentState(t, run, tr, i);
    }
  }

  /** The same on the recorded trace. */
  ghost predicate NoWrap(t: Topology, run: seq<Delivery>, tr: Trace)
    requires IsTrace(t, run, tr)
  {
    forall i :: 0 <= i < |run| ==> Offer(t, run, tr, i) < TWO_32
  }

  ghost function SentState(t: Topology, run: seq<Delivery>, tr: Trace, i: nat): BridgeState
    requires IsTrace(t, run, tr) && i < |run|
  {
    tr[run[i].sentAt][run[i].link.sender]
  }

  /** The cost that arrival number i offers its receiver. */
  ghost function Offer(t: Topology, run: seq<Delivery>, tr: Trace, i: nat): nat
    requires IsTrace(t, run, tr) && i < |run|
  {
    SentState(t, run, tr, i).rootPathCost + PortCost(t, run[i].link)
  }

  /** Arrival i, seen from its receiver v, with sums that do not wrap. */
  lemma ArrivalAt(t: Topology, run: seq<Delivery>, tr: Trace, i: nat, v: nat)
    requires IsTrace(t, run, tr) && NoWrap(t, run, tr) && i < |run| && v < |t.bridges|
    ensures v != run[i].link.receiver ==> tr[i + 1][v] == tr[i][v]
    ensures v == run[i].link.receiver ==>
      var s, b, b' := SentState(t, run, tr, i), tr[i][v], tr[i + 1][v];
      && (SameVector(b, b')
          || (b'.rootId == s.rootId && b'.rootPort == run[i].link.receiverPort && b'.rootPathCost == Offer(t, run, tr, i)))
      && (b'.rootId == s.rootId && b'.rootPort != -1 ==> b'.rootPathCost <= Offer(t, run, tr, i))
      && (b'.rootId == b.rootId && !SameVector(b, b') ==>
            b.rootPort == run[i].link.receiverPort || b'.rootPathCost < b.rootPathCost)
      && (b.rootPort == run[i].link.receiverPort && s.rootId == b.rootId ==> b'.rootPathCost == Offer(t, run, tr, i))
  {
    assert IsArrival(t, run, tr, i, v);
    assert Offer(t, run, tr, i) < TWO_32;
  }

  /** The cost is that of the walk, and not only modulo 2^32. */
  ghost predicate DescribesExactly(t: Topology, v: nat, b: BridgeState, walk: seq<Link>, root: nat)
    requires ValidTopology(t)
  {
    Describes(t, v, b, walk, root) && b.rootPathCost == WalkCost(t, v, walk, root)
  }

  lemma {:induction false} FindExactWalk(t: Topology, run: seq<Delivery>, tr: Trace, k: nat, v: nat)
    returns (walk: seq<Link>, root: nat)
    requires IsTrace(t, run, tr) && NoWrap(t, run, tr) && k <= |run| && v < |t.bridges|
    ensures DescribesExactly(t, v, tr[k][v], walk, root)
    decreases k
  {
    if k == 0 {
      return [], v;
    }
    var i := k - 1;
    assert IsArrival(t, run, tr, i, v);
    if SameVector(tr[i][v], tr[k][v]) {
      walk, root := FindExactWalk(t, run, tr, i, v);
    } else {
      var link := run[i].link;
      walk, root := FindExactWalk(t, run, tr, run[i].sentAt, link.sender);
      assert Offer(t, run, tr, i) < TWO_32;
      ExtendWalk(t, link, tr[run[i].sentAt][link.sender], tr[k][v], walk, root);
      walk := [link] + walk;
    }
  }

  ghost predicate IsExactlyExplained(t: Topology, v: nat, b: BridgeState)
    requires ValidTopology(t)
  {
    exists walk, root :: DescribesExactly(t, v, b, walk, root)
  }

  /** With sums below 2^32, in every reachable state each bridge's root is a real bridge, its cost is
      exactly the cost of a real walk to that bridge through its root port, and it has no root port,
      and cost 0, exactly when it takes itself for the root. */
  lemma DistanceVectorSoundness(t: Topology, run: seq<Delivery>, k: nat, v: nat)
    requires ValidRun(t, run) && SumsFit(t, run) && k <= |run| && v < |t.bridges|
    ensures IsExactlyExplained(t, v, At(t, run, k)[v])
    ensures At(t, run, k)[v].rootPort == -1 <==> At(t, run, k)[v].rootId == t.bridges[v].id
    ensures At(t, run, k)[v].rootPort == -1 ==> At(t, run, k)[v].rootPathCost == 0
  {
    var tr := Record(t, run);
    SumsFitTheTrace(t, run, tr);
    var walk, root := FindExactWalk(t, run, tr, k, v);
  }

  /** Without any assumption on the sums the same holds with the cost taken modulo 2^32. */
  lemma SoundnessModulo(t: Topology, run: seq<Delivery>, k: nat, v: nat)
    requires ValidRun(t, run) && k <= |run| && v < |t.bridges|
    ensures IsExplained(t, v, At(t, run, k)[v])
    ensures At(t, run, k)[v].rootPort == -1 <==> At(t, run, k)[v].rootId == t.bridges[v].id
    ensures At(t, run, k)[v].rootPort == -1 ==> At(t, run, k)[v].rootPathCost == 0
  {
    var tr := Record(t, run);
    var walk, root := FindWalk(t, run, tr, k, v);
  }

  // ---------------------------------------------------------------- convergence of the root

  lemma {:induction false} RootNeverWorsens(t: Topology, run: seq<Delivery>, tr: Trace, j: nat, k: nat, v: nat)
    requires IsTrace(t, run, tr) && j <= k <= |run| && v < |t.bridges|
    ensures Rank(tr[k][v].rootId) <= Rank(tr[j][v].rootId)
    decreases k - j
  {
    if j < k {
      assert IsArrival(t, run, tr, k - 1, v);
      RootNeverWorsens(t, run, tr, j, k - 1, v);
    }
  }

  /** Bridge m has the smallest identifier of all. */
  ghost predicate IsBest(t: Topology, m: nat) {
    m < |t.bridges| && forall v :: 0 <= v < |t.bridges| ==> Rank(t.bridges[m].id) <= Rank(t.bridges[v].id)
  }

  lemma NobodyBeatsTheBest(t: Topology, run: seq<Delivery>, tr: Trace, k: nat, v: nat, m: nat)
    requires IsTrace(t, run, tr) && k <= |run| && v < |t.bridges| && IsBest(t, m)
    ensures Rank(t.bridges[m].id) <= Rank(tr[k][v].rootId)
  {
    var walk, root := FindWalk(t, run, tr, k, v);
  }

  /** The arrivals from..upto include, for every link, one that was also sent after `from`. */
  ghost predicate IsRound(t: Topology, run: seq<Delivery>, from: nat, upto: nat) {
    && from <= upto <= |run|
    && forall l :: l in t.links ==> CrossedIn(run, l, from, upto)
  }

  ghost predicate CrossedIn(run: seq<Delivery>, l: Link, from: nat, upto: nat)
    requires upto <= |run|
  {
    exists i :: from <= i < upto && run[i].link == l && from <= run[i].sentAt
  }

  /** `marks` cuts the run into consecutive rounds. */
  ghost predicate AreRounds(t: Topology, run: seq<Delivery>, marks: seq<nat>) {
    && |marks| > 0
    && marks[0] <= |run|
    && forall r :: 1 <= r < |marks| ==> IsRound(t, run, marks[r - 1], marks[r])
  }

  /** Once a BPDU naming the best bridge has arrived, the receiver keeps it as root for good. */
  lemma BestRootSticks(t: Topology, run: seq<Delivery>, tr: Trace, i: nat, m: nat, k: nat)
    requires IsTrace(t, run, tr) && i < k <= |run| && IsBest(t, m)
    requires tr[run[i].sentAt][run[i].link.sender].rootId == t.bridges[m].id
    ensures tr[k][run[i].link.receiver].rootId == t.bridges[m].id
  {
    var v := run[i].link.receiver;
    assert IsArrival(t, run, tr, i, v);
    RootNeverWorsens(t, run, tr, i + 1, k, v);
    NobodyBeatsTheBest(t, run, tr, k, v, m);
    IdCmpIsRankOrder(tr[k][v].rootId, t.bridges[m].id);
  }

  lemma BestKeepsItself(t: Topology, run: seq<Delivery>, tr: Trace, m: nat, k: nat)
    requires IsTrace(t, run, tr) && k <= |run| && IsBest(t, m)
    ensures tr[k][m].rootId == t.bridges[m].id
  {
    RootNeverWorsens(t, run, tr, 0, k, m);
    NobodyBeatsTheBest(t, run, tr, k, m, m);
    IdCmpIsRankOrder(tr[k][m].rootId, t.bridges[m].id);
  }

  lemma FindCrossing(t: Topology, run: seq<Delivery>, marks: seq<nat>, r: nat, l: Link) returns (i: nat)
    requires AreRounds(t, run, marks) && 1 <= r < |marks| && l in t.links
    ensures marks[r - 1] <= i < marks[r] <= |run| && run[i].link == l && marks[r - 1] <= run[i].sentAt
  {
    assert IsRound(t, run, marks[r - 1], marks[r]);
    assert CrossedIn(run, l, marks[r - 1], marks[r]);
    i :| marks[r - 1] <= i < marks[r] && run[i].link == l && marks[r - 1] <= run[i].sentAt;
  }

  /** After r rounds every bridge within r hops of the best bridge has it as root, for good. */
  lemma {:induction false} RootSpreads(t: Topology, run: seq<Delivery>, tr: Trace, marks: seq<nat>, r: nat,
                                       v: nat, walk: seq<Link>, m: nat, k: nat)
    requires IsTrace(t, run, tr) && AreRounds(t, run, marks) && r < |marks| && marks[r] <= k <= |run|
    requires IsBest(t, m) && IsWalk(t, v, walk, m) && |walk| <= r
    ensures v < |t.bridges| && tr[k][v].rootId == t.bridges[m].id
    decreases r
  {
    if walk == [] {
      BestKeepsItself(t, run, tr, m, k);
    } else {
      var i := FindCrossing(t, run, marks, r, walk[0]);
      RootSpreads(t, run, tr, marks, r - 1, walk[0].sender, walk[1..], m, run[i].sentAt);
      BestRootSticks(t, run, tr, i, m, k);
    }
  }

  ghost predicate WithinHops(t: Topology, v: nat, m: nat, r: nat) {
    exists walk :: IsWalk(t, v, walk, m) && |walk| <= r
  }

  ghost function RootRolePorts(b: BridgeState): set<nat> {
    set p: nat | p < |b.ports| && b.ports[p].role == RootPort
  }

  lemma RootRoleIsRootPort(b: BridgeState)
    requires Consistent(b)
    ensures RootRolePorts(b) == if b.rootId == b.id then {} else {b.rootPort}
  {
  }

  /** After r rounds, a bridge within r hops of the best bridge has it as root, and has exactly
      one port in the root role, its root port, unless it is the best bridge itself. */
  lemma ElectionConverges(t: Topology, run: seq<Delivery>, marks: seq<nat>, r: nat, m: nat, k: nat, v: nat)
    requires ValidRun(t, run) && AreRounds(t, run, marks) && r < |marks| && marks[r] <= k <= |run|
    requires IsBest(t, m) && v < |t.bridges| && WithinHops(t, v, m, r)
    ensures At(t, run, k)[v].rootId == t.bridges[m].id
    ensures At(t, run, k)[v].rootPort == -1 <==> v == m
    ensures RootRolePorts(At(t, run, k)[v]) == if v == m then {} else {At(t, run, k)[v].rootPort}
  {
    var tr := Record(t, run);
    var walk :| IsWalk(t, v, walk, m) && |walk| <= r;
    RootSpreads(t, run, tr, marks, r, v, walk, m, k);
    RootRoleIsRootPort(At(t, run, k)[v]);
  }
}
