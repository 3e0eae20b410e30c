/** Go-Back-N as a two-party protocol: a sender and a receiver joined by a segment channel
    and an acknowledgement channel that may lose, duplicate and reorder what they carry. */
module GoBackN {
  import opened Words
  import opened Rdt

  /** Each channel is the set of copies under way. Delivery leaves the copy in place, so it
      may be delivered again, at any later time and in any order; `Lose` events drop copies. */
  datatype Net = Net(snd: SenderState, rcv: ReceiverState, segs: set<Segment>, acks: set<u32>)

  datatype Event =
    | Send(data: seq<byte>)
    | Transmit(i: nat)
    | Timeout
    | DeliverSegment(seg: Segment)
    | DeliverAck(ackNum: u32)
    | LoseSegment(lostSeg: Segment)
    | LoseAck(lostAck: u32)

  function Init(windowSize: u32): Net {
    Net(InitSender(windowSize), InitReceiver(), {}, {})
  }

  predicate Enabled(n: Net, e: Event) {
    match e
    case Send(data) => CanSend(n.snd, data)
    case Transmit(i) => i < |n.snd.segments|
    case Timeout => n.snd.base <= |n.snd.segments|
    case DeliverSegment(seg) => seg in n.segs
    case DeliverAck(a) => a in n.acks && n.snd.base <= |n.snd.segments|
    case LoseSegment(_) => true
    case LoseAck(_) => true
  }

  function Retransmitted(s: SenderState): set<Segment>
    requires s.base <= |s.segments|
  {
    set i | s.base <= i < TimeoutEnd(s) :: s.segments[i]
  }

  function Step(n: Net, e: Event): Net
    requires Enabled(n, e)
  {
    match e
    case Send(data) => n.(snd := Sent(n.snd, data))
    case Transmit(i) => n.(segs := n.segs + {n.snd.segments[i]})
    case Timeout => n.(snd := TimedOut(n.snd), segs := n.segs + Retransmitted(n.snd))
    case DeliverSegment(seg) =>
      var rcv := Received(n.rcv, seg);
      n.(rcv := rcv, acks := n.acks + {rcv.expected})
    case DeliverAck(a) => n.(snd := Acked(n.snd, a))
    case LoseSegment(seg) => n.(segs := n.segs - {seg})
    case LoseAck(a) => n.(acks := n.acks - {a})
  }

  /** The net after a run, or None when some event of it is not possible. */
  function Exec(n: Net, run: seq<Event>): Option<Net>
    decreases |run|
  {
    if run == [] then Some(n)
    else if Enabled(n, run[0]) then Exec(Step(n, run[0]), run[1..])
    else None
  }

  /** The payloads of segments 0..k, in order. */
  function Payloads(segments: seq<Segment>, k: nat): seq<byte>
    requires k <= |segments|
  {
    if k == 0 then [] else Payloads(segments, k - 1) + segments[k - 1].data
  }

  // ---------------------------------------------------------------- the inductive invariant

  ghost predicate Inv(n: Net) {
    && WellFormed(n.snd)
    && n.snd.base <= n.rcv.expected <= |n.snd.segments|
    && n.rcv.stream == Cut(Payloads(n.snd.segments, n.rcv.expected))
    && (forall seg :: seg in n.segs ==> seg.seqNo < |n.snd.segments| && seg.data == n.snd.segments[seg.seqNo].data)
    && (forall a :: a in n.acks ==> a <= n.rcv.expected)
  }

  lemma {:induction false} PayloadsDependOnData(s: seq<Segment>, t: seq<Segment>, k: nat)
    requires k <= |s| && k <= |t|
    requires forall i :: 0 <= i < k ==> s[i].data == t[i].data
    ensures Payloads(s, k) == Payloads(t, k)
  {
    if k > 0 {
      PayloadsDependOnData(s, t, k - 1);
    }
  }

  lemma CutAppend(s: seq<byte>, t: seq<byte>)
    ensures Cut(Cut(s) + t) == Cut(s + t)
  {
  }

  lemma SendKeepsInv(n: Net, data: seq<byte>)
    requires Inv(n) && CanSend(n.snd, data)
    ensures Inv(Step(n, Send(data)))
  {
    PayloadsDependOnData(n.snd.segments, Sent(n.snd, data).segments, n.rcv.expected);
  }

  lemma RetransmissionKeepsInv(n: Net, i: nat)
    requires Inv(n)
    ensures Inv(Step(n, Timeout))
    ensures i < |n.snd.segments| ==> Inv(Step(n, Transmit(i)))
  {
  }

  lemma DeliveryKeepsInv(n: Net, seg: Segment)
    requires Inv(n) && seg in n.segs
    ensures Inv(Step(n, DeliverSegment(seg)))
  {
    CutAppend(Payloads(n.snd.segments, n.rcv.expected), seg.data);
  }

  lemma AckKeepsInv(n: Net, a: u32)
    requires Inv(n) && a in n.acks
    ensures Inv(Step(n, DeliverAck(a)))
  {
    PayloadsDependOnData(n.snd.segments, Acked(n.snd, a).segments, n.rcv.expected);
  }

  lemma StepKeepsInv(n: Net, e: Event)
    requires Inv(n) && Enabled(n, e)
    ensures Inv(Step(n, e))
  {
    match e {
      case Send(data) => SendKeepsInv(n, data);
      case Transmit(i) => RetransmissionKeepsInv(n, i);
      case Timeout => RetransmissionKeepsInv(n, 0);
      case DeliverSegment(seg) => DeliveryKeepsInv(n, seg);
      case DeliverAck(a) => AckKeepsInv(n, a);
      case LoseSegment(_) =>
      case LoseAck(_) =>
    }
  }

  lemma {:induction false} RunKeepsInv(n: Net, run: seq<Event>)
    requires Inv(n) && Exec(n, run).Some?
    ensures Inv(Exec(n, run).value)
    decreases |run|
  {
    if run != [] {
      StepKeepsInv(n, run[0]);
      RunKeepsInv(Step(n, run[0]), run[1..]);
    }
  }

  lemma StartsInv(windowSize: u32)
    ensures Inv(Init(windowSize))
  {
  }

  /** The window never changes; one of 0 counts as 1. */
  lemma {:induction false} WindowStays(n: Net, run: seq<Event>)
    requires Exec(n, run).Some?
    ensures Exec(n, run).value.snd.windowSize == n.snd.windowSize
    decreases |run|
  {
    if run != [] {
      WindowStays(Step(n, run[0]), run[1..]);
    }
  }

  // ---------------------------------------------------------------- what was given to the sender

  /** The data of the Send events of a run, in order. */
  function GivenData(run: seq<Event>): seq<seq<byte>>
    decreases |run|
  {
    if run == [] then []
    else (if run[0].Send? then [run[0].data] else []) + GivenData(run[1..])
  }

  function Flat(data: seq<seq<byte>>): seq<byte> {
    if data == [] then [] else Flat(data[..|data| - 1]) + data[|data| - 1]
  }

  /** At most the first 65536 bytes. */
  function Fitting(s: seq<byte>): seq<byte> {
    if |s| <= 65536 then s else s[..65536]
  }

  function Held(segments: seq<Segment>): (data: seq<seq<byte>>)
    ensures |data| == |segments|
  {
    seq(|segments|, i requires 0 <= i < |segments| => segments[i].data)
  }

  lemma StepHolds(n: Net, e: Event)
    requires Enabled(n, e)
    ensures Held(Step(n, e).snd.segments) == Held(n.snd.segments) + if e.Send? then [e.data] else []
  {
  }

  /** Whatever a run does, the segments hold what was given to the sender, in order. */
  lemma {:induction false} RunHolds(n: Net, run: seq<Event>)
    requires Exec(n, run).Some?
    ensures Held(Exec(n, run).value.snd.segments) == Held(n.snd.segments) + GivenData(run)
    decreases |run|
  {
    hide Enabled, Step, Held;
    if run == [] {
      assert Held(n.snd.segments) + [] == Held(n.snd.segments);
    } else {
      StepHolds(n, run[0]);
      RunHolds(Step(n, run[0]), run[1..]);
      var front, now := Held(n.snd.segments), if run[0].Send? then [run[0].data] else [];
      assert (front + now) + GivenData(run[1..]) == front + (now + GivenData(run[1..]));
    }
  }

  lemma {:induction false} PayloadsAreFlat(segments: seq<Segment>, k: nat)
    requires k <= |segments|
    ensures Payloads(segments, k) == Flat(Held(segments)[..k])
  {
    if k > 0 {
      PayloadsAreFlat(segments, k - 1);
      assert Held(segments)[..k][..k - 1] == Held(segments)[..k - 1];
    }
  }

  /** What the sender holds is what was given to it, segment by segment and joined. */
  lemma StreamIsGivenData(window: u32, run: seq<Event>)
    requires Exec(Init(window), run).Some?
    ensures var n, given := Exec(Init(window), run).value, GivenData(run);
            && |n.snd.segments| == |given|
            && (forall i :: 0 <= i < |given| ==> n.snd.segments[i].data == given[i])
            && forall k :: 0 <= k <= |given| ==> Cut(Payloads(n.snd.segments, k)) == Fitting(Flat(given[..k]))
  {
    hide Exec, Payloads, Flat;
    var n, given := Exec(Init(window), run).value, GivenData(run);
    RunHolds(Init(window), run);
    assert Held(n.snd.segments) == given;
    forall i | 0 <= i < |given| ensures n.snd.segments[i].data == given[i] {
      assert Held(n.snd.segments)[i] == given[i];
    }
    forall k | 0 <= k <= |given| ensures Cut(Payloads(n.snd.segments, k)) == Fitting(Flat(given[..k])) {
      PayloadsAreFlat(n.snd.segments, k);
    }
  }

  // ---------------------------------------------------------------- safety

  /** Safety over every run: the window brackets the receiver, whatever is marked acknowledged was accepted,
      the sender holds exactly the data given to it, and the receiver has the first of them, in order, joined
      and cut at 65536 bytes. */
  lemma Safety(windowSize: u32, run: seq<Event>)
    requires Exec(Init(windowSize), run).Some?
    ensures
      var n, given := Exec(Init(windowSize), run).value, GivenData(run);
      && n.snd.base <= n.rcv.expected <= |n.snd.segments| <= n.snd.base + Max(1, windowSize)
      && (forall i :: 0 <= i < |n.snd.segments| && n.snd.segments[i].acked ==> i < n.rcv.expected)
      && |n.snd.segments| == |given|
      && (forall i :: 0 <= i < |given| ==> n.snd.segments[i].seqNo == i && n.snd.segments[i].data == given[i])
      && n.rcv.stream == Fitting(Flat(given[..n.rcv.expected]))
  {
    hide Exec, Payloads, Flat, Cut, Fitting;
    StartsInv(windowSize);
    RunKeepsInv(Init(windowSize), run);
    WindowStays(Init(windowSize), run);
    StreamIsGivenData(windowSize, run);
  }

  // ---------------------------------------------------------------- recovery

  /** Deliver one copy of each of the segments i.., in order. */
  function Redeliver(segments: seq<Segment>, i: nat): (run: seq<Event>)
    requires i <= |segments|
    ensures |run| == |segments| - i
    decreases |segments| - i
  {
    if i == |segments| then [] else [DeliverSegment(segments[i])] + Redeliver(segments, i + 1)
  }

  /** One timeout, one copy of each retransmitted segment in order, and the last acknowledgement. */
  function RecoverySchedule(s: SenderState): seq<Event>
    requires s.base <= |s.segments| <= MAX_SEGS
  {
    [Timeout] + Redeliver(s.segments, s.base) + [DeliverAck(|s.segments|)]
  }

  lemma {:induction false} ExecAppend(n: Net, a: seq<Event>, b: seq<Event>)
    requires Exec(n, a).Some?
    ensures Exec(n, a + b) == Exec(Exec(n, a).value, b)
    decreases |a|
  {
    if a == [] {
      assert a + b == b;
    } else {
      assert (a + b)[1..] == a[1..] + b;
      ExecAppend(Step(n, a[0]), a[1..], b);
    }
  }

  lemma InvBounds(n: Net)
    requires Inv(n)
    ensures n.snd.base <= n.rcv.expected <= |n.snd.segments| <= MAX_SEGS
    ensures n.rcv.stream == Cut(Payloads(n.snd.segments, n.rcv.expected))
    ensures forall k :: 0 <= k < |n.snd.segments| ==> n.snd.segments[k].seqNo == k
  {
  }

  lemma {:induction false} RedeliverReachesEnd(n: Net, i: nat)
    requires Inv(n) && i <= |n.snd.segments| && i <= n.rcv.expected
    requires forall k :: i <= k < |n.snd.segments| ==> n.snd.segments[k] in n.segs
    ensures Exec(n, Redeliver(n.snd.segments, i)).Some?
    ensures
      var n' := Exec(n, Redeliver(n.snd.segments, i)).value;
      && Inv(n')
      && n'.snd == n.snd
      && n'.rcv.expected == |n.snd.segments|
      && n.acks <= n'.acks
      && (i < |n.snd.segments| ==> |n.snd.segments| in n'.acks)
    decreases |n.snd.segments| - i
  {
    hide Payloads, WellFormed, RecoverySchedule;
    InvBounds(n);
    if i < |n.snd.segments| {
      var e := DeliverSegment(n.snd.segments[i]);
      StepKeepsInv(n, e);
      RedeliverReachesEnd(Step(n, e), i + 1);
      assert Redeliver(n.snd.segments, i)[1..] == Redeliver(n.snd.segments, i + 1);
    }
  }

  lemma LastAckEmptiesWindow(n: Net)
    requires Inv(n) && n.rcv.expected == |n.snd.segments| && |n.snd.segments| in n.acks
    ensures
      var run := [DeliverAck(|n.snd.segments|)];
      && Exec(n, run).Some?
      && var n' := Exec(n, run).value;
      && Inv(n')
      && n'.rcv == n.rcv
      && n'.snd.base == |n'.snd.segments| == |n.snd.segments|
  {
    var e := DeliverAck(|n.snd.segments|);
    StepKeepsInv(n, e);
    assert Exec(n, [e]) == Exec(Step(n, e), []);
  }

  /** A timeout puts a copy of everything in flight on the network. */
  lemma TimeoutSendsTheFlight(n: Net)
    requires Inv(n) && n.snd.base + n.snd.windowSize < TWO_32
    ensures Enabled(n, Timeout) && Inv(Step(n, Timeout))
    ensures var m := Step(n, Timeout);
            && m.snd.segments == n.snd.segments && m.snd.base == n.snd.base && m.rcv == n.rcv
            && forall k :: n.snd.base <= k < |n.snd.segments| ==> n.snd.segments[k] in m.segs
  {
    hide Payloads;
    TimeoutCoversFlight(n.snd);
    StepKeepsInv(n, Timeout);
  }

  lemma RecoveryFrom(n: Net)
    requires Inv(n) && n.snd.base < |n.snd.segments| && n.snd.base + n.snd.windowSize < TWO_32
    ensures Exec(n, RecoverySchedule(n.snd)).Some?
    ensures
      var n' := Exec(n, RecoverySchedule(n.snd)).value;
      && n'.snd.base == n'.rcv.expected == |n'.snd.segments| == |n.snd.segments|
      && n'.rcv.stream == Cut(Payloads(n.snd.segments, |n.snd.segments|))
  {
    hide Inv, Step, Enabled, WellFormed, Payloads, Cut, Redeliver;
    InvBounds(n);
    TimeoutSendsTheFlight(n);
    var n1 := Step(n, Timeout);
    var middle := Redeliver(n.snd.segments, n.snd.base);
    RedeliverReachesEnd(n1, n.snd.base);
    var n2 := Exec(n1, middle).value;
    var last := [DeliverAck(|n.snd.segments|)];
    LastAckEmptiesWindow(n2);
    ExecAppend(n1, middle, last);
    assert RecoverySchedule(n.snd) == [Timeout] + (middle + last);
    assert RecoverySchedule(n.snd)[1..] == middle + last;
    InvBounds(n2);
  }

  /** From every reachable state with something in flight (and a window sum that fits 32 bits),
      one timeout and loss-free redelivery empty the window, and everything sent has arrived. */
  lemma Recovery(windowSize: u32, run: seq<Event>)
    requires Exec(Init(windowSize), run).Some?
    requires
      var s := Exec(Init(windowSize), run).value.snd;
      s.base < |s.segments| && s.base + s.windowSize < TWO_32
    ensures
      var n := Exec(Init(windowSize), run).value;
      && n.snd.base <= |n.snd.segments| <= MAX_SEGS
      && TimeoutCount(n.snd) == |n.snd.segments| - n.snd.base
      && var recovered := Exec(Init(windowSize), run + RecoverySchedule(n.snd));
      && recovered.Some?
      && var n' := recovered.value;
      && n'.snd.base == n'.rcv.expected == |n'.snd.segments| == |GivenData(run)|
      && n'.rcv.stream == Fitting(Flat(GivenData(run)))
  {
    hide Redeliver, RecoverySchedule, Payloads, Flat, Cut, Fitting, GivenData;
    StreamIsGivenData(windowSize, run);
    assert GivenData(run)[..|GivenData(run)|] == GivenData(run);
    StartsInv(windowSize);
    RunKeepsInv(Init(windowSize), run);
    var n := Exec(Init(windowSize), run).value;
    TimeoutCoversFlight(n.snd);
    RecoveryFrom(n);
    ExecAppend(Init(windowSize), run, RecoverySchedule(n.snd));
  }

  // ---------------------------------------------------------------- a window of 2^32 - 1

  const WIDE: u32 := 0xFFFF_FFFF
  const FIRST := Segment(0, [7], false)
  const SECOND := Segment(1, [8], false)

  /** One segment sent, delivered and acknowledged, and a second one sent. */
  function WideRun(): seq<Event> {
    [Send([7]), Transmit(0), DeliverSegment(FIRST), DeliverAck(1), Send([8])]
  }

  function WideNet(k: nat): Net {
    var idle, done := ReceiverState(0, []), ReceiverState(1, [7]);
    if k == 0 then Init(WIDE)
    else if k == 1 then Net(SenderState([FIRST], 0, WIDE, 0), idle, {}, {})
    else if k == 2 then Net(SenderState([FIRST], 0, WIDE, 0), idle, {FIRST}, {})
    else if k == 3 then Net(SenderState([FIRST], 0, WIDE, 0), done, {FIRST}, {1})
    else if k == 4 then Net(SenderState([FIRST.(acked := true)], 1, WIDE, 0), done, {FIRST}, {1})
    else Net(SenderState([FIRST.(acked := true), SECOND], 1, WIDE, 0), done, {FIRST}, {1})
  }

  lemma WideStep(k: nat)
    requires k < 5
    ensures Enabled(WideNet(k), WideRun()[k]) && Step(WideNet(k), WideRun()[k]) == WideNet(k + 1)
  {
  }

  lemma {:induction false} WideRunGoesOn(k: nat)
    requires k <= 5
    ensures Exec(WideNet(k), WideRun()[k..]) == Some(WideNet(5))
    decreases 5 - k
  {
    hide Step, Enabled, WideNet, WideRun;
    if k < 5 {
      WideRunLength();
      WideStep(k);
      WideRunGoesOn(k + 1);
      assert WideRun()[k..][1..] == WideRun()[k + 1..];
    } else {
      WideRunLength();
    }
  }

  lemma WideRunLength()
    ensures |WideRun()| == 5
  {
  }

  /** The wrapping sum is reachable: with a window of 2^32 - 1 a run of five events leaves one segment
      in flight that a timeout does not retransmit. */
  lemma WrappingTimeoutIsReachable()
    ensures Exec(Init(WIDE), WideRun()).Some?
    ensures var s := Exec(Init(WIDE), WideRun()).value.snd;
            s.base == 1 && |s.segments| == 2 && TimeoutCount(s) == 0
  {
    WideRunGoesOn(0);
    assert WideRun()[0..] == WideRun();
  }
}
