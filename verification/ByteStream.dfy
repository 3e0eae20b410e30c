/** The two windows joined: a ring buffer on one side, a compacting buffer on the other, and a network
    that may lose, repeat and delay chunks and acknowledgements. Sequence numbers start at 0. */
module ByteStream {
  import opened Words
  import opened SendWindow
  import opened RecvWindow

  datatype Packet = Packet(at: u32, data: seq<byte>)

  /** `sent` and `read` record what the two applications have written and read so far. */
  datatype Net = Net(s: Sender, r: Receiver, sent: seq<byte>, read: seq<byte>, packets: set<Packet>, acks: set<u32>)

  datatype Event =
    | Write(b: byte)
    | Transmit(at: u32, n: nat)
    | Arrive(p: Packet)
    | Consume(max: nat)
    | AckArrives(number: u32)

  predicate WellTyped(n: Net) {
    Roomy(n.s) && Fits(n.r)
  }

  /** Fewer than 2^32 bytes are ever sent; a transmission takes the front of what the ring hands out. */
  predicate Enabled(n: Net, e: Event) {
    match e
    case Write(_) => n.s.next < TWO_32 - 1
    case Transmit(at, k) => |n.s.ring| > 0 && Chunk(n.s, at).Some? && k <= |Chunk(n.s, at).value|
    case Arrive(p) => p in n.packets
    case Consume(_) => true
    case AckArrives(a) => a in n.acks
  }

  /** Every arrival is answered with the next byte expected. */
  function Step(n: Net, e: Event): (m: Net)
    requires WellTyped(n) && Enabled(n, e)
    ensures WellTyped(m)
  {
    match e
    case Write(b) => n.(s := Pushed(n.s, b), sent := if CanSend(n.s) then n.sent + [b] else n.sent)
    case Transmit(at, k) => n.(packets := n.packets + {Packet(at, Chunk(n.s, at).value[..k])})
    case Arrive(p) =>
      var r := Received(n.r, p.at, p.data);
      n.(r := r, acks := n.acks + {r.rcvNxt})
    case Consume(max) => n.(r := Read(n.r, max).0, read := n.read + Read(n.r, max).1)
    case AckArrives(a) => n.(s := Acked(n.s, a))
  }

  function Exec(n: Net, run: seq<Event>): (m: Option<Net>)
    requires WellTyped(n)
    ensures m.Some? ==> WellTyped(m.value)
    decreases |run|
  {
    if run == [] then Some(n)
    else if Enabled(n, run[0]) then Exec(Step(n, run[0]), run[1..])
    else None
  }

  function Init(window: u32, ring: seq<byte>, capacity: nat): Net {
    Net(Sender(0, 0, window, ring), Receiver([], capacity, 0), [], [], {}, {})
  }

  // ---------------------------------------------------------------- the inductive invariant

  predicate Genuine(p: Packet, sent: seq<byte>) {
    p.at + |p.data| <= |sent| && p.data == sent[p.at..p.at + |p.data|]
  }

  ghost predicate Inv(n: Net) {
    && Holds(n.s, 0, n.sent)
    && Fits(n.r)
    && n.s.base <= n.r.rcvNxt <= n.s.next
    && n.read + n.r.buffered == n.sent[..n.r.rcvNxt]
    && (forall p :: p in n.packets ==> Genuine(p, n.sent))
    && (forall a :: a in n.acks ==> a <= n.r.rcvNxt)
  }

  lemma WriteKeepsInv(n: Net, b: byte)
    requires Inv(n) && Enabled(n, Write(b))
    ensures Inv(Step(n, Write(b)))
  {
    hide Slot;
    PushKeepsHolds(n.s, 0, n.sent, b);
    forall p | p in n.packets ensures Genuine(p, Step(n, Write(b)).sent) {
      assert (n.sent + [b])[p.at..p.at + |p.data|] == n.sent[p.at..p.at + |p.data|];
    }
    assert (n.sent + [b])[..n.r.rcvNxt] == n.sent[..n.r.rcvNxt];
  }

  lemma TransmitKeepsInv(n: Net, at: u32, k: nat)
    requires Inv(n) && Enabled(n, Transmit(at, k))
    ensures Inv(Step(n, Transmit(at, k)))
  {
    hide Slot, Chunk, Holds;
    ChunkIsWhatWasSent(n.s, 0, n.sent, at);
    HoldsCounts(n.s, n.sent);
    var whole := Chunk(n.s, at).value;
    assert whole[..k] == n.sent[at..at + k];
  }

  lemma HoldsCounts(s: Sender, sent: seq<byte>)
    requires Holds(s, 0, sent)
    ensures Roomy(s) && s.base <= s.next <= s.base + s.window && s.next == |sent|
  {
  }

  lemma ArrivalKeepsInv(n: Net, p: Packet)
    requires Inv(n) && Enabled(n, Arrive(p))
    ensures Inv(Step(n, Arrive(p)))
    ensures Step(n, Arrive(p)).r.rcvNxt == n.r.rcvNxt + Taken(n.r, p.at, |p.data|)
  {
    hide Slot, Holds;
    HoldsCounts(n.s, n.sent);
    assert Genuine(p, n.sent);
    var k := Taken(n.r, p.at, |p.data|);
    if p.at == n.r.rcvNxt {
      assert p.data[..k] == n.sent[p.at..p.at + k];
      assert n.sent[..n.r.rcvNxt + k] == n.sent[..n.r.rcvNxt] + n.sent[p.at..p.at + k];
    }
    assert n.read + (n.r.buffered + p.data[..k]) == (n.read + n.r.buffered) + p.data[..k];
  }

  lemma ConsumeKeepsInv(n: Net, max: nat)
    requires Inv(n)
    ensures Inv(Step(n, Consume(max)))
  {
    hide Slot, Holds, Read;
    HoldsCounts(n.s, n.sent);
    var (r, got) := Read(n.r, max);
    ReadKeepsCounter(n.r, max);
    assert (n.read + got) + r.buffered == n.read + (got + r.buffered);
  }

  lemma ReadKeepsCounter(r: Receiver, max: nat)
    requires Fits(r)
    ensures Read(r, max).0.rcvNxt == r.rcvNxt && Read(r, max).0.capacity == r.capacity
    ensures max >= |r.buffered| ==> Read(r, max).0.buffered == []
  {
  }

  lemma AckKeepsInv(n: Net, a: u32)
    requires Inv(n) && Enabled(n, AckArrives(a))
    ensures Inv(Step(n, AckArrives(a)))
  {
    hide Slot, Holds;
    AckKeepsHolds(n.s, 0, n.sent, a);
  }

  lemma StepKeepsInv(n: Net, e: Event)
    requires Inv(n) && WellTyped(n) && Enabled(n, e)
    ensures Inv(Step(n, e))
  {
    hide Inv, Step, WellTyped, Enabled;
    match e
    case Write(b) => WriteKeepsInv(n, b);
    case Transmit(at, k) => TransmitKeepsInv(n, at, k);
    case Arrive(p) => ArrivalKeepsInv(n, p);
    case Consume(max) => ConsumeKeepsInv(n, max);
    case AckArrives(a) => AckKeepsInv(n, a);
  }

  lemma {:induction false} RunKeepsInv(n: Net, run: seq<Event>)
    requires Inv(n) && WellTyped(n) && Exec(n, run).Some?
    ensures Inv(Exec(n, run).value)
    decreases |run|
  {
    hide Inv, Step, WellTyped, Enabled;
    if run != [] {
      StepKeepsInv(n, run[0]);
      RunKeepsInv(Step(n, run[0]), run[1..]);
    }
  }

  /** In every run with fewer than 2^32 bytes sent: base <= rcv_nxt <= next_seq <= base + window, the ring
      still holds every byte in flight, and what was read followed by what is still buffered is
      the first rcv_nxt bytes sent. */
  lemma OneStream(window: u32, ring: seq<byte>, capacity: nat, run: seq<Event>)
    requires window <= |ring|
    requires Exec(Init(window, ring, capacity), run).Some?
    ensures var n := Exec(Init(window, ring, capacity), run).value;
            && n.s.base <= n.r.rcvNxt <= n.s.next <= n.s.base + n.s.window
            && n.s.next == |n.sent|
            && (forall k: nat :: n.s.base <= k < n.s.next ==> n.s.ring[Slot(k, |n.s.ring|)] == n.sent[k])
            && n.read + n.r.buffered == n.sent[..n.r.rcvNxt]
  {
    hide Slot, Exec;
    RunKeepsInv(Init(window, ring, capacity), run);
  }

  // ---------------------------------------------------------------- it can always be finished

  lemma {:induction false} ExecAppend(n: Net, a: seq<Event>, b: seq<Event>)
    requires WellTyped(n) && Exec(n, a).Some?
    ensures Exec(n, a + b) == Exec(Exec(n, a).value, b)
    decreases |a|
  {
    hide Step, WellTyped, Enabled;
    if a == [] {
      assert a + b == b;
    } else {
      assert (a + b)[1..] == a[1..] + b;
      ExecAppend(Step(n, a[0]), a[1..], b);
    }
  }

  /** Read everything, fetch what the receiver is waiting for, deliver it. */
  function Round(n: Net): seq<Event>
    requires |n.s.ring| > 0 && Chunk(n.s, n.r.rcvNxt).Some?
  {
    var piece := Chunk(n.s, n.r.rcvNxt).value;
    [Consume(|n.r.buffered|), Transmit(n.r.rcvNxt, |piece|), Arrive(Packet(n.r.rcvNxt, piece))]
  }

  lemma RoundAdvances(n: Net)
    requires Inv(n) && WellTyped(n) && n.r.rcvNxt < n.s.next && n.r.capacity > 0
    ensures |n.s.ring| > 0 && Chunk(n.s, n.r.rcvNxt).Some?
    ensures Exec(n, Round(n)).Some?
    ensures var m := Exec(n, Round(n)).value;
            m.s == n.s && m.sent == n.sent && m.r.capacity == n.r.capacity
            && n.r.rcvNxt < m.r.rcvNxt <= n.s.next && m.r.rcvNxt in m.acks
  {
    hide Slot, Chunk, Holds, Read, Exec;
    HoldsCounts(n.s, n.sent);
    ChunkIsWhatWasSent(n.s, 0, n.sent, n.r.rcvNxt);
    var piece := Chunk(n.s, n.r.rcvNxt).value;
    assert piece[..|piece|] == piece;
    var a := Step(n, Consume(|n.r.buffered|));
    ReadKeepsCounter(n.r, |n.r.buffered|);
    ConsumeKeepsInv(n, |n.r.buffered|);
    var b := Step(a, Transmit(n.r.rcvNxt, |piece|));
    TransmitKeepsInv(a, n.r.rcvNxt, |piece|);
    var c := Step(b, Arrive(Packet(n.r.rcvNxt, piece)));
    ArrivalKeepsInv(b, Packet(n.r.rcvNxt, piece));
    ExecThree(n, Consume(|n.r.buffered|), Transmit(n.r.rcvNxt, |piece|), Arrive(Packet(n.r.rcvNxt, piece)));
  }

  lemma ExecThree(n: Net, x: Event, y: Event, z: Event)
    requires WellTyped(n) && Enabled(n, x) && Enabled(Step(n, x), y) && Enabled(Step(Step(n, x), y), z)
    ensures Exec(n, [x, y, z]) == Some(Step(Step(Step(n, x), y), z))
  {
    hide Step, WellTyped, Enabled, Exec;
    assert [x, y, z] == [x] + ([y] + [z]);
    ExecOne(n, x);
    ExecOne(Step(n, x), y);
    ExecOne(Step(Step(n, x), y), z);
    ExecAppend(n, [x], [y] + [z]);
    ExecAppend(Step(n, x), [y], [z]);
  }

  /** From every reachable state with room for a byte at the receiver some run, without a new write,
      gets every byte sent so far read and acknowledged. */
  lemma {:induction false} CanAlwaysFinish(n: Net) returns (run: seq<Event>)
    requires Inv(n) && WellTyped(n) && n.r.capacity > 0
    ensures Exec(n, run).Some?
    ensures var m := Exec(n, run).value;
            m.sent == n.sent && m.read == n.sent && m.s.base == m.s.next
    decreases n.s.next - n.r.rcvNxt
  {
    hide Inv, Holds, Slot, WellTyped;
    if n.r.rcvNxt < n.s.next {
      RoundAdvances(n);
      RunKeepsInv(n, Round(n));
      var rest := CanAlwaysFinish(Exec(n, Round(n)).value);
      run := Round(n) + rest;
      ExecAppend(n, Round(n), rest);
    } else {
      run := FinishDelivered(n);
    }
  }

  /** All has arrived: the application reads the rest, and whatever the sender repeats is refused
      but answered with the acknowledgement it lacks. */
  lemma FinishDelivered(n: Net) returns (run: seq<Event>)
    requires Inv(n) && WellTyped(n) && n.r.rcvNxt >= n.s.next
    ensures Exec(n, run).Some?
    ensures var m := Exec(n, run).value;
            m.sent == n.sent && m.read == n.sent && m.s.base == m.s.next
  {
    hide Slot, Holds, Read, Chunk, Exec;
    HoldsCounts(n.s, n.sent);
    ReadKeepsCounter(n.r, |n.r.buffered|);
    var first := Consume(|n.r.buffered|);
    var a := Step(n, first);
    ConsumeKeepsInv(n, |n.r.buffered|);
    assert a.read + [] == a.read && n.sent[..|n.sent|] == n.sent;
    if n.s.base < n.s.next {
      ChunkIsWhatWasSent(n.s, 0, n.sent, n.s.base);
      var p := Packet(n.s.base, Chunk(n.s, n.s.base).value);
      assert p.data[..|p.data|] == p.data;
      var b := Step(a, Transmit(p.at, |p.data|));
      var c := Step(b, Arrive(p));
      TransmitKeepsInv(a, p.at, |p.data|);
      ArrivalKeepsInv(b, p);
      ExecThree(n, first, Transmit(p.at, |p.data|), Arrive(p));
      ExecOne(c, AckArrives(n.r.rcvNxt));
      var front := [first, Transmit(p.at, |p.data|), Arrive(p)];
      run := front + [AckArrives(n.r.rcvNxt)];
      ExecAppend(n, front, [AckArrives(n.r.rcvNxt)]);
    } else {
      ExecOne(n, first);
      run := [first];
    }
  }

  lemma ExecOne(n: Net, x: Event)
    requires WellTyped(n) && Enabled(n, x)
    ensures Exec(n, [x]) == Some(Step(n, x))
  {
    hide Step, WellTyped, Enabled;
    assert [x][1..] == [];
  }
}
