/** Why shortest paths need bounded delay: a run in which every link is crossed in every round, and one
    stale BPDU at the end takes a bridge away from its shortest path. */
module StpStale {
  import opened Words
  import opened Stp
  import opened StpNetwork
  import StpTree

  const MAC := [0, 0, 0, 0, 0, 0]
  const M := BridgeId(0, MAC)
  const U := BridgeId(1, MAC)
  const V := BridgeId(2, MAC)

  /** Bridge m reaches u by two links, of cost 5 and 1; v lies behind u at cost 1. */
  const SLOW := Link(0, 0, 1, 0)
  const FAST := Link(0, 1, 1, 1)
  const DOWN := Link(1, 2, 2, 0)

  function Unheard(n: u16, cost: u32): Port {
    Port(n, DesignatedPort, cost, ZERO_BPDU)
  }

  function BridgeM(): BridgeState {
    BridgeState(M, M, 0, -1, [Unheard(0, 1), Unheard(1, 1)])
  }

  /** u at the start, after the slow link, after the fast one, and after the slow one again. */
  function BridgeU(n: nat): BridgeState {
    if n == 0 then BridgeState(U, U, 0, -1, [Unheard(0, 5), Unheard(1, 1), Unheard(2, 1)])
    else
      var slow := Bpdu(M, 0, M, 0);
      var fast := Bpdu(M, 0, M, 1);
      if n == 1 then
        BridgeState(U, M, 5, 0, [Port(0, RootPort, 5, slow), Unheard(1, 1), Unheard(2, 1)])
      else if n == 2 then
        BridgeState(U, M, 1, 1, [Port(0, DesignatedPort, 5, slow), Port(1, RootPort, 1, fast), Unheard(2, 1)])
      else
        BridgeState(U, M, 1, 1, [Port(0, AlternatePort, 5, slow), Port(1, RootPort, 1, fast), Unheard(2, 1)])
  }

  function StartV(): BridgeState {
    BridgeState(V, V, 0, -1, [Unheard(0, 1)])
  }

  /** v when u last told it the cost c. */
  function BridgeV(c: u32): BridgeState {
    BridgeState(V, M, Add32(c, 1), 0, [Port(0, RootPort, 1, Bpdu(M, c, U, 2))])
  }

  function Net(): Topology {
    Topology([BridgeM(), BridgeU(0), StartV()], {SLOW, FAST, DOWN})
  }

  function DeliveryAt(k: nat): Delivery {
    if k == 13 then Delivery(DOWN, 1)
    else if k == 1 || k == 4 || k == 7 || k == 10 then Delivery(FAST, k)
    else if k == 3 || k == 6 || k == 9 || k == 12 then Delivery(DOWN, k)
    else Delivery(SLOW, k)
  }

  /** The slow link, four rounds of all links with BPDUs just sent, and then what u sent down at first. */
  function Run(): seq<Delivery> {
    seq(14, k requires 0 <= k < 14 => DeliveryAt(k))
  }

  const MARKS: seq<nat> := [1, 4, 7, 10, 13]

  /** All bridges after the first k arrivals. */
  function After(k: nat): seq<BridgeState> {
    if k <= 3 then [BridgeM(), BridgeU(k), StartV()]
    else if k <= 13 then [BridgeM(), BridgeU(3), BridgeV(1)]
    else [BridgeM(), BridgeU(3), BridgeV(5)]
  }

  lemma NetIsValid()
    ensures ValidTopology(Net())
  {
    hide IsInitial;
    EveryoneStarts();
    forall l | l in Net().links
      ensures l.sender < 3 && l.senderPort < |Net().bridges[l.sender].ports|
      ensures l.receiver < 3 && l.receiverPort < |Net().bridges[l.receiver].ports|
    {
      LinksOfNet(l);
    }
  }

  lemma EveryoneStarts()
    ensures IsInitial(BridgeM()) && IsInitial(BridgeU(0)) && IsInitial(StartV())
    ensures |Net().bridges| == 3 && Net().bridges == [BridgeM(), BridgeU(0), StartV()]
  {
  }

  lemma RunIsValid()
    ensures ValidRun(Net(), Run()) && |Run()| == 14
  {
    NetIsValid();
  }

  lemma SameId(a: BridgeId)
    ensures IdCmp(a, a) == 0
  {
    IdCmpIsRankOrder(a, a);
  }

  lemma UHears()
    ensures Processed(BridgeU(0), 0, Advertised(BridgeM(), 0)) == BridgeU(1)
    ensures Processed(BridgeU(1), 1, Advertised(BridgeM(), 1)) == BridgeU(2)
    ensures Processed(BridgeU(2), 0, Advertised(BridgeM(), 0)) == BridgeU(3)
    ensures Processed(BridgeU(3), 1, Advertised(BridgeM(), 1)) == BridgeU(3)
    ensures Processed(BridgeU(3), 0, Advertised(BridgeM(), 0)) == BridgeU(3)
  {
    hide MemCmp;
    SameId(M);
  }

  lemma VHears(c: u32)
    ensures Processed(StartV(), 0, Advertised(BridgeU(3), 2)) == BridgeV(1)
    ensures Processed(BridgeV(c), 0, Advertised(BridgeU(3), 2)) == BridgeV(1)
    ensures Processed(BridgeV(c), 0, Advertised(BridgeU(1), 2)) == BridgeV(5)
  {
    hide MemCmp;
    SameId(M);
  }

  lemma AfterNext(k: nat)
    requires k < 14
    ensures var d := DeliveryAt(k);
            After(k + 1) == After(k)[d.link.receiver :=
              Processed(After(k)[d.link.receiver], d.link.receiverPort,
                        Advertised(After(d.sentAt)[d.link.sender], d.link.senderPort))]
  {
    hide Processed, Advertised;
    UHears();
    VHears(1);
  }

  lemma RunAt(k: nat)
    requires k < 14
    ensures |Run()| == 14 && Run()[k] == DeliveryAt(k) && DeliveryAt(k).sentAt <= k
  {
  }

  lemma {:induction false} Plays(k: nat)
    requires ValidRun(Net(), Run()) && k <= 14 == |Run()|
    ensures At(Net(), Run(), k) == After(k)
  {
    hide After, Processed, Advertised, DeliveryAt, Net, Run, At, ValidRun;
    if k == 0 {
      Starts();
      AtStart();
    } else {
      RunAt(k - 1);
      Plays(k - 1);
      Plays(Run()[k - 1].sentAt);
      AtNext(Net(), Run(), k - 1);
      AfterNext(k - 1);
    }
  }

  lemma AtStart()
    requires ValidRun(Net(), Run())
    ensures At(Net(), Run(), 0) == Net().bridges
  {
    hide Net, Run;
  }

  lemma Starts()
    ensures After(0) == Net().bridges
  {
  }

  lemma LinksOfNet(l: Link)
    ensures l in Net().links <==> l == SLOW || l == FAST || l == DOWN
  {
  }

  lemma RoundIsComplete(r: nat)
    requires 1 <= r < |MARKS| && ValidRun(Net(), Run())
    ensures IsRound(Net(), Run(), MARKS[r - 1], MARKS[r])
  {
    hide Net, Run, ValidRun;
    var i, upto := MARKS[r - 1], MARKS[r];
    RunAt(i);
    RunAt(i + 1);
    RunAt(i + 2);
    forall l | l in Net().links ensures CrossedIn(Run(), l, i, upto) {
      LinksOfNet(l);
      assert Run()[i].link == FAST && Run()[i + 1].link == SLOW && Run()[i + 2].link == DOWN;
    }
  }

  lemma WalksToM()
    requires ValidTopology(Net())
    ensures IsWalk(Net(), 0, [], 0) && WalkCost(Net(), 0, [], 0) == 0
    ensures IsWalk(Net(), 1, [FAST], 0) && WalkCost(Net(), 1, [FAST], 0) == 1
    ensures IsWalk(Net(), 2, [DOWN, FAST], 0) && WalkCost(Net(), 2, [DOWN, FAST], 0) == 2
  {
    assert [FAST][1..] == [] && [DOWN, FAST][1..] == [FAST];
  }

  lemma CostsOfNet(l: Link)
    requires ValidTopology(Net()) && l in Net().links
    ensures PortCost(Net(), l) == if l == SLOW then 5 else 1
  {
  }

  lemma CostsAfter(k: nat)
    ensures |After(k)| == 3
    ensures After(k)[0].rootPathCost == 0 && After(k)[1].rootPathCost <= 5 && After(k)[2].rootPathCost <= 6
  {
  }

  lemma SumsAreSmall()
    requires ValidRun(Net(), Run()) && |Run()| == 14
    ensures SumsFit(Net(), Run())
  {
    hide Net, Run, At, After, DeliveryAt;
    forall i | 0 <= i < |Run()|
      ensures SenderOf(Net(), Run(), i).rootPathCost + PortCost(Net(), Run()[i].link) < TWO_32
    {
      RunAt(i);
      var l, k := Run()[i].link, Run()[i].sentAt;
      LinksOfNet(l);
      CostsOfNet(l);
      Plays(k);
      CostsAfter(k);
      assert l.sender == 0 || l.sender == 1;
    }
  }

  lemma BestIsM()
    ensures IsBest(Net(), 0)
  {
    hide Rank;
    IdCmpIsRankOrder(M, U);
    IdCmpIsRankOrder(M, V);
    forall v | 0 <= v < |Net().bridges| ensures Rank(Net().bridges[0].id) <= Rank(Net().bridges[v].id) {
      assert v == 0 || v == 1 || v == 2;
    }
  }

  lemma LinksArePlain()
    requires ValidTopology(Net())
    ensures StpTree.PointToPoint(Net()) && StpTree.PositiveCosts(Net())
  {
    hide Net;
    forall l, l' | l in Net().links && l' in Net().links && l.receiver == l'.receiver && l.receiverPort == l'.receiverPort
      ensures l == l'
    {
      LinksOfNet(l);
      LinksOfNet(l');
    }
    forall l | l in Net().links ensures PortCost(Net(), l) > 0 {
      CostsOfNet(l);
    }
  }

  lemma EveryoneReachesM()
    requires ValidTopology(Net())
    ensures StpTree.Connected(Net(), 0)
  {
    hide IsWalk;
    WalksToM();
    forall v | 0 <= v < |Net().bridges| ensures StpTree.Reaches(Net(), v, 0) {
      assert v == 0 || v == 1 || v == 2;
    }
  }

  lemma NotTimely()
    requires |Run()| == 14
    ensures !StpTree.Timely(Run(), MARKS)
  {
    hide Run;
    RunAt(13);
    assert !StpTree.TimelyRound(Run(), MARKS, 3);
  }

  /** The network meets every condition of the shortest-path theorem, and so do the rounds but for one BPDU,
      which was sent before the second of them and arrives after the last. Just before it v is at its
      shortest distance, just after it v is not. */
  lemma OneStaleBpduSpoilsIt()
    ensures ValidRun(Net(), Run()) && SumsFit(Net(), Run())
    ensures IsBest(Net(), 0) && StpTree.Connected(Net(), 0)
    ensures StpTree.PointToPoint(Net()) && StpTree.PositiveCosts(Net())
    ensures AreRounds(Net(), Run(), MARKS) && |MARKS| == 2 * (|Net().bridges| - 1) + 1 && MARKS[4] == 13
    ensures !StpTree.Timely(Run(), MARKS) && |Run()| == 14
    ensures At(Net(), Run(), 13)[2].rootPathCost == 2 && At(Net(), Run(), 14)[2].rootPathCost == 6
    ensures !StpTree.IsShortest(Net(), 2, 0, 6)
  {
    hide Run, At, StpTree.Timely, StpTree.Connected, StpTree.PointToPoint, StpTree.PositiveCosts, SumsFit, IsBest, IsRound;
    RunIsValid();
    SumsAreSmall();
    BestIsM();
    EveryoneReachesM();
    LinksArePlain();
    forall r | 1 <= r < |MARKS| ensures IsRound(Net(), Run(), MARKS[r - 1], MARKS[r]) {
      RoundIsComplete(r);
    }
    NotTimely();
    Plays(13);
    Plays(14);
    WalksToM();
  }
}
