/** The sequence variables of a transmission control block. */
module Tcb {
  import opened Words
  import opened SeqNum

  datatype Vars = Vars(sndUna: u32, sndNxt: u32, sndWnd: u32, rcvNxt: u32)

  /** What happens to a connection. Acknowledgements carry the unbounded number they stand for. */
  datatype Event = Queue(n: u32) | Ack(number: int) | Data(n: u32) | Window(wnd: u32)

  /** The variables after the handler of an event; the wire carries 32 bits of an acknowledgement. */
  function Handled(v: Vars, e: Event): Vars {
    match e
    case Queue(n) => v.(sndNxt := Add32(v.sndNxt, n))
    case Ack(a) => if Diff(Wire(a), v.sndUna) > 0 then v.(sndUna := Wire(a)) else v
    case Data(n) => v.(rcvNxt := Add32(v.rcvNxt, n))
    case Window(w) => v.(sndWnd := w)
  }

  /** What `nfs_tcb_snd_available` returns, as a C int. */
  function Available(v: Vars): int {
    var inFlight := Sub32(v.sndNxt, v.sndUna);
    if inFlight >= v.sndWnd then 0 else Signed(v.sndWnd - inFlight)
  }

  class Tcb {
    var sndUna: u32
    var sndNxt: u32
    var sndWnd: u32
    var rcvNxt: u32
    var rcvWnd: u32
    var iss: u32
    var irs: u32
    const localPort: u16
    const remotePort: u16
    const localAddr: u32
    const remoteAddr: u32

    function State(): Vars
      reads this
    {
      Vars(sndUna, sndNxt, sndWnd, rcvNxt)
    }

    constructor (localPort: u16, remotePort: u16, localAddr: u32, remoteAddr: u32)
      ensures State() == Vars(0, 0, 65535, 0) && rcvWnd == 65535
      ensures this.localPort == localPort && this.remotePort == remotePort
      ensures this.localAddr == localAddr && this.remoteAddr == remoteAddr
    {
      this.localPort, this.remotePort := localPort, remotePort;
      this.localAddr, this.remoteAddr := localAddr, remoteAddr;
      sndUna, sndNxt, rcvNxt, iss, irs := 0, 0, 0, 0, 0;
      sndWnd, rcvWnd := 65535, 65535;
    }

    method SetIss(n: u32)
      modifies this
      ensures iss == n && State() == Vars(n, Wire(n + 1), old(sndWnd), old(rcvNxt))
      ensures rcvWnd == old(rcvWnd) && irs == old(irs)
    {
      iss := n;
      sndUna := n;
      sndNxt := Add32(n, 1);
    }

    method SetIrs(n: u32)
      modifies this
      ensures irs == n && State() == old(State()).(rcvNxt := Wire(n + 1))
      ensures rcvWnd == old(rcvWnd) && iss == old(iss)
    {
      irs := n;
      rcvNxt := Add32(n, 1);
    }

    method SndAvailable() returns (r: int)
      ensures r == Available(State())
    {
      var inFlight: u32 := Sub32(sndNxt, sndUna);
      if inFlight >= sndWnd {
        return 0;
      }
      return Signed(sndWnd - inFlight);
    }

    method AdvanceSnd(n: u32)
      modifies this`sndNxt
      ensures State() == Handled(old(State()), Queue(n))
    {
      sndNxt := Add32(sndNxt, n);
    }

    method AckReceived(ack: u32)
      modifies this`sndUna
      ensures State() == Handled(old(State()), Ack(ack))
    {
      var diff := Signed(Sub32(ack, sndUna));
      if diff > 0 {
        sndUna := ack;
      }
    }

    method DataReceived(n: u32)
      modifies this`rcvNxt
      ensures State() == Handled(old(State()), Data(n))
    {
      rcvNxt := Add32(rcvNxt, n);
    }
  }

  // ---------------------------------------------------------------- counters that never wrap

  /** The same variables counted without bound. */
  datatype Ledger = Ledger(una: int, nxt: int, wnd: u32, rcv: int)

  function Wired(l: Ledger): Vars {
    Vars(Wire(l.una), Wire(l.nxt), l.wnd, Wire(l.rcv))
  }

  function Booked(l: Ledger, e: Event): Ledger {
    match e
    case Queue(n) => l.(nxt := l.nxt + n)
    case Ack(a) => l.(una := Max(l.una, a))
    case Data(n) => l.(rcv := l.rcv + n)
    case Window(w) => l.(wnd := w)
  }

  /** For an acknowledgement within a full circle of the oldest unacknowledged byte, the handler
      takes the later of the two exactly when they are within half a circle. */
  lemma AckTakesTheLater(l: Ledger, ack: int)
    requires -TWO_32 < ack - l.una < TWO_32
    ensures Handled(Wired(l), Ack(ack)) == Wired(Booked(l, Ack(ack))) <==> Near(ack, l.una)
  {
    SubWire(ack, l.una);
    WireNear(ack - l.una);
  }

  /** With less than a full circle in flight, the room reported is the true room
      exactly when that room fits a signed int. */
  lemma AvailableIsRoom(l: Ledger)
    requires 0 <= l.nxt - l.una < TWO_32
    ensures Available(Wired(l)) == Max(0, l.wnd - (l.nxt - l.una)) <==> l.wnd - (l.nxt - l.una) < TWO_31
  {
    SubWire(l.nxt, l.una);
    WireNear(l.nxt - l.una);
  }

  predicate Sound(l: Ledger) {
    0 <= l.nxt - l.una < TWO_31 && l.wnd < TWO_31
  }

  /** The rule quoted in seqnum.c: only una < ack <= nxt moves una. */
  function Ruled(l: Ledger, ack: int): Ledger {
    if l.una < ack <= l.nxt then l.(una := ack) else l
  }

  /** The handler keeps that rule, and una behind nxt, exactly when nothing unsent is acknowledged. */
  lemma AckRuleIsKept(l: Ledger, ack: int)
    requires Sound(l) && Near(ack, l.una)
    ensures Handled(Wired(l), Ack(ack)) == Wired(Ruled(l, ack)) <==> ack <= l.nxt
    ensures Sound(Booked(l, Ack(ack))) <==> ack <= l.nxt
  {
    AckTakesTheLater(l, ack);
    SubWire(ack, l.una);
    WireNear(ack - l.una);
  }

  /** With one number out, an acknowledgement of a thousand is believed, and the sender, now behind
      what was acknowledged, is shown no room at all. */
  lemma AckOfUnsentIsBelieved()
    ensures Handled(Vars(0, 1, 65535, 0), Ack(1000)) == Vars(1000, 1, 65535, 0)
    ensures Available(Vars(1000, 1, 65535, 0)) == 0
    ensures Ruled(Ledger(0, 1, 65535, 0), 1000) == Ledger(0, 1, 65535, 0)
  {
    WireNear(1000);
  }

  /** In flight stays below half a circle, the peer acknowledges nothing unsent and
      no acknowledgement is more than half a circle old, windows stay below half a circle. */
  predicate Fair(l: Ledger, e: Event) {
    match e
    case Queue(n) => l.nxt + n - l.una < TWO_31
    case Ack(a) => l.una - TWO_31 <= a <= l.nxt
    case Data(_) => true
    case Window(w) => w < TWO_31
  }

  function Handle(v: Vars, es: seq<Event>): Vars
    decreases |es|
  {
    if es == [] then v else Handle(Handled(v, es[0]), es[1..])
  }

  function Book(l: Ledger, es: seq<Event>): Ledger
    decreases |es|
  {
    if es == [] then l else Book(Booked(l, es[0]), es[1..])
  }

  predicate FairRun(l: Ledger, es: seq<Event>)
    decreases |es|
  {
    es == [] || (Fair(l, es[0]) && FairRun(Booked(l, es[0]), es[1..]))
  }

  lemma StepRefines(l: Ledger, e: Event)
    requires Sound(l) && Fair(l, e)
    ensures Sound(Booked(l, e)) && Handled(Wired(l), e) == Wired(Booked(l, e))
  {
    AvailableIsRoom(l);
    match e
    case Queue(n) => AddWire(l.nxt, n);
    case Ack(a) => AckTakesTheLater(l, a);
    case Data(n) => AddWire(l.rcv, n);
    case Window(_) =>
  }

  /** However often the 32-bit counters wrap, every fair run keeps them equal to the low bits of the
      unbounded ones, less than half a circle in flight, and reports the true room. */
  lemma {:induction false} RunRefines(l: Ledger, es: seq<Event>)
    requires Sound(l) && FairRun(l, es)
    ensures Handle(Wired(l), es) == Wired(Book(l, es))
    ensures Sound(Book(l, es))
    ensures Available(Handle(Wired(l), es)) == Max(0, Book(l, es).wnd - (Book(l, es).nxt - Book(l, es).una))
    ensures Diff(Handle(Wired(l), es).sndNxt, Handle(Wired(l), es).sndUna) == Book(l, es).nxt - Book(l, es).una
    decreases |es|
  {
    if es == [] {
      AvailableIsRoom(l);
      DiffIsExact(l.nxt, l.una);
    } else {
      StepRefines(l, es[0]);
      RunRefines(Booked(l, es[0]), es[1..]);
    }
  }
}
