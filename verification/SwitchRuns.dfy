/** What holds in every run of the switch. */
module SwitchRuns {
  import opened Words
  import opened Bitwise
  import opened MacTable
  import opened L2Switch
  import Checksum
  import SeqNum

  datatype Event =
    | AddPort(mode: int, pvid: u16)
    | AllowVlan(port: int, vlan: u16)
    | Frame(ingress: int, data: seq<byte>)
    | AgeTable
    | Flush
    | Tick

  function Init(): View {
    View([], map[], 300, 0, Totals(0, 0, 0, 0, 0))
  }

  function Step(v: View, e: Event): View
    requires KnownPorts(v)
  {
    match e
    case AddPort(mode, pvid) => if |v.ports| < MAX_PORTS then v.(ports := v.ports + [NewPort(mode, pvid)]) else v
    case AllowVlan(port, vlan) => Allowed(v, port, vlan)
    case Frame(ingress, data) => Processed(v, ingress, data).0
    case AgeTable => v.(macs := Aged(v.macs, v.tick, v.aging))
    case Flush => v.(macs := map[])
    case Tick => v.(tick := Add32(v.tick, 1))
  }

  // ---------------------------------------------------------------- the inductive invariant

  function SumRx(ps: seq<Port>): u64 {
    if ps == [] then 0 else Add64(SumRx(ps[..|ps| - 1]), ps[|ps| - 1].rx)
  }

  function SumTx(ps: seq<Port>): u64 {
    if ps == [] then 0 else Add64(SumTx(ps[..|ps| - 1]), ps[|ps| - 1].tx)
  }

  predicate Member(v: View, port: int, vlan: u16) {
    0 <= port < |v.ports| && InMask(v.ports[port].allowed, vlan)
  }

  /** Every learned station sits on a port that is a member of its VLAN. */
  ghost predicate Isolated(v: View) {
    forall k :: k in v.macs ==> Member(v, v.macs[k].port, k.vlan)
  }

  /** In the switch's own 64-bit arithmetic. */
  predicate Balanced(v: View) {
    && v.totals.rx == SumRx(v.ports) == Add64(Add64(v.totals.forwarded, v.totals.flooded), v.totals.dropped)
    && v.totals.tx == v.totals.forwarded == SumTx(v.ports)
  }

  /** `seen` remembers, without limit, the last sighting of every station on every VLAN. */
  ghost predicate Truthful(v: View, seen: map<Key, Seen>) {
    forall k :: k in v.macs ==> k in seen && seen[k] == v.macs[k]
  }

  predicate AllActive(v: View) {
    |v.ports| <= MAX_PORTS && forall i :: 0 <= i < |v.ports| ==> v.ports[i].active
  }

  ghost predicate Inv(v: View, seen: map<Key, Seen>) {
    KnownPorts(v) && Isolated(v) && Balanced(v) && Truthful(v, seen) && AllActive(v)
  }

  /** The sighting a frame reports: an admitted frame on a VLAN its port allows, from a single station. */
  function Sighting(v: View, ingress: int, data: seq<byte>): Option<Key> {
    match Admitted(v, ingress, data)
    case None => None
    case Some(vlan) =>
      if InMask(v.ports[ingress].allowed, vlan) && !IsMulticast(data[6..12]) then Some(Key(data[6..12], vlan)) else None
  }

  function Note(v: View, seen: map<Key, Seen>, e: Event): map<Key, Seen> {
    if e.Frame? && Sighting(v, e.ingress, e.data).Some? then
      seen[Sighting(v, e.ingress, e.data).value := Seen(e.ingress, v.tick)]
    else seen
  }

  /** The sighting in terms of the frame's bytes. */
  lemma SightingFromBytes(v: View, ingress: int, data: seq<byte>, vlan: u16)
    ensures (Sighting(v, ingress, data).Some? && Sighting(v, ingress, data).value.vlan == vlan) <==>
      && |data| >= 14 && Member(v, ingress, vlan) && v.ports[ingress].active
      && OnVlan(v.ports[ingress], data, vlan) && data[6] % 2 == 0
    ensures Sighting(v, ingress, data).Some? ==> Sighting(v, ingress, data).value.mac == data[6..12]
  {
    hide InMask, OnVlan, VlanOf;
    AdmittedFromBytes(v, ingress, data, vlan);
  }

  // ---------------------------------------------------------------- sums

  lemma {:induction false} SumUnchanged(ps: seq<Port>, qs: seq<Port>)
    requires |ps| == |qs|
    ensures (forall i :: 0 <= i < |ps| ==> ps[i].rx == qs[i].rx) ==> SumRx(ps) == SumRx(qs)
    ensures (forall i :: 0 <= i < |ps| ==> ps[i].tx == qs[i].tx) ==> SumTx(ps) == SumTx(qs)
    decreases |ps|
  {
    if ps != [] {
      SumUnchanged(ps[..|ps| - 1], qs[..|qs| - 1]);
    }
  }

  lemma {:induction false} SumRxStep(ps: seq<Port>, i: nat)
    requires i < |ps|
    ensures SumRx(ps[i := ps[i].(rx := Add64(ps[i].rx, 1))]) == Add64(SumRx(ps), 1)
    decreases |ps|
  {
    var qs := ps[i := ps[i].(rx := Add64(ps[i].rx, 1))];
    var n := |ps| - 1;
    if i < n {
      SumRxStep(ps[..n], i);
      assert qs[..n] == ps[..n][i := ps[..n][i].(rx := Add64(ps[..n][i].rx, 1))];
    } else {
      assert qs[..n] == ps[..n];
    }
  }

  lemma {:induction false} SumTxStep(ps: seq<Port>, i: nat)
    requires i < |ps|
    ensures SumTx(ps[i := ps[i].(tx := Add64(ps[i].tx, 1))]) == Add64(SumTx(ps), 1)
    decreases |ps|
  {
    var qs := ps[i := ps[i].(tx := Add64(ps[i].tx, 1))];
    var n := |ps| - 1;
    if i < n {
      SumTxStep(ps[..n], i);
      assert qs[..n] == ps[..n][i := ps[..n][i].(tx := Add64(ps[..n][i].tx, 1))];
    } else {
      assert qs[..n] == ps[..n];
    }
  }

  lemma SumAppend(ps: seq<Port>, p: Port)
    requires p.rx == p.tx == 0
    ensures SumRx(ps + [p]) == SumRx(ps) && SumTx(ps + [p]) == SumTx(ps)
  {
    assert (ps + [p])[..|ps|] == ps;
  }

  // ---------------------------------------------------------------- VLAN masks

  /** Allowing a VLAN adds that one and nothing else. */
  lemma AllowAdds(mask: nat, vlan: nat, other: nat)
    requires vlan < 64
    ensures InMask(Or(mask, Pow2(vlan)), other) <==> InMask(mask, other) || other == vlan
  {
    hide And, Or, Pow2, Bit;
    AndTestsBit(Or(mask, Pow2(vlan)), other);
    AndTestsBit(mask, other);
    BitOfOr(mask, Pow2(vlan), other);
    BitOfPow2(vlan, other);
  }

  /** A new port has the mode and VLAN it was given and allows exactly that VLAN, or none when it is 64 or more. */
  lemma NewPortAllows(mode: int, pvid: u16, vlan: nat)
    ensures var port := NewPort(mode, pvid);
            port.active && port.mode == mode && port.pvid == pvid && port.rx == 0 && port.tx == 0
    ensures InMask(NewPort(mode, pvid).allowed, vlan) <==> vlan == pvid < 64
  {
    hide And, Pow2, Bit;
    if pvid < 64 {
      AndTestsBit(Pow2(pvid), vlan);
      BitOfPow2(pvid, vlan);
    } else {
      AndNothing(Pow2(vlan));
    }
  }

  lemma AndNothing(y: nat)
    ensures And(0, y) == 0
  {
  }

  // ---------------------------------------------------------------- one step at a time

  lemma AddPortKeepsInv(v: View, seen: map<Key, Seen>, mode: int, pvid: u16)
    requires Inv(v, seen)
    ensures Inv(Step(v, AddPort(mode, pvid)), seen)
  {
    hide InMask, Pow2;
    SumAppend(v.ports, NewPort(mode, pvid));
  }

  lemma AllowKeepsInv(v: View, seen: map<Key, Seen>, port: int, vlan: u16)
    requires Inv(v, seen)
    ensures Inv(Step(v, AllowVlan(port, vlan)), seen)
  {
    hide InMask, Pow2, Or, SumRx, SumTx;
    var w := Allowed(v, port, vlan);
    SumUnchanged(v.ports, w.ports);
    forall k | k in w.macs ensures Member(w, w.macs[k].port, k.vlan) {
      assert Member(v, v.macs[k].port, k.vlan);
      if 0 <= port < |v.ports| && vlan < 64 {
        AllowAdds(v.ports[port].allowed, vlan, k.vlan);
      }
    }
  }

  lemma ForgettingKeepsInv(v: View, seen: map<Key, Seen>, m: map<Key, Seen>)
    requires Inv(v, seen) && forall k :: k in m ==> k in v.macs && m[k] == v.macs[k]
    ensures Inv(v.(macs := m), seen)
  {
    hide InMask, SumRx, SumTx;
  }

  /** Learning on an admitted frame's port and VLAN. */
  lemma LearnKeepsInv(v: View, seen: map<Key, Seen>, src: Mac, ingress: nat, vlan: u16)
    requires KnownPorts(v) && Isolated(v) && Truthful(v, seen)
    requires |src| == 6 && Member(v, ingress, vlan)
    ensures var w := Learn(v, src, ingress, vlan);
            var seen' := if IsMulticast(src) then seen else seen[Key(src, vlan) := Seen(ingress, v.tick)];
            KnownPorts(w) && Isolated(w) && Truthful(w, seen')
  {
    hide InMask;
  }

  /** Only ports' counters and the totals change between these two. */
  predicate SameTopology(v: View, w: View) {
    && |v.ports| == |w.ports| && v.macs == w.macs && v.tick == w.tick
    && forall i :: 0 <= i < |v.ports| ==> v.ports[i].allowed == w.ports[i].allowed && v.ports[i].active == w.ports[i].active
  }

  lemma TopologyCarriesOver(v: View, w: View, seen: map<Key, Seen>)
    requires SameTopology(v, w)
    ensures KnownPorts(v) ==> KnownPorts(w)
    ensures Isolated(v) ==> Isolated(w)
    ensures Truthful(v, seen) ==> Truthful(w, seen)
    ensures AllActive(v) ==> AllActive(w)
  {
    hide InMask;
    forall k | k in v.macs && Member(v, v.macs[k].port, k.vlan) ensures Member(w, w.macs[k].port, k.vlan) {
    }
  }

  /** One received frame is counted once, but not yet disposed of. */
  predicate Owes(v: View) {
    && v.totals.rx == SumRx(v.ports) == Add64(Add64(Add64(v.totals.forwarded, v.totals.flooded), v.totals.dropped), 1)
    && v.totals.tx == v.totals.forwarded == SumTx(v.ports)
  }

  lemma ReceptionOwes(v: View, ingress: nat)
    requires Balanced(v) && ingress < |v.ports|
    ensures Owes(CountRx(v, ingress)) && SameTopology(v, CountRx(v, ingress))
  {
    SumRxStep(v.ports, ingress);
    SumUnchanged(v.ports, CountRx(v, ingress).ports);
  }

  lemma FloodBalances(v: View)
    requires Owes(v)
    ensures Balanced(CountFlood(v)) && SameTopology(v, CountFlood(v))
  {
    hide SumRx, SumTx;
  }

  lemma DropBalances(v: View)
    requires Owes(v)
    ensures Balanced(CountDrop(v)) && SameTopology(v, CountDrop(v))
  {
    hide SumRx, SumTx;
  }

  lemma ForwardBalances(v: View, dst: nat)
    requires Owes(v) && dst < |v.ports|
    ensures Balanced(CountForward(v, dst)) && SameTopology(v, CountForward(v, dst))
  {
    hide SumRx, SumTx;
    SumTxStep(v.ports, dst);
    SumUnchanged(v.ports, CountForward(v, dst).ports);
  }

  lemma DecisionBalances(v: View, dst: Mac, ingress: nat, vlan: u16)
    requires |dst| == 6 && KnownPorts(v) && Owes(v)
    ensures Balanced(Decided(v, dst, ingress, vlan).0) && SameTopology(v, Decided(v, dst, ingress, vlan).0)
  {
    hide SumRx, SumTx, CountFlood, CountDrop, CountForward, Owes, Balanced, SameTopology;
    var port := PortOf(v.macs, Key(dst, vlan));
    FloodBalances(v);
    DropBalances(v);
    if port >= 0 {
      ForwardBalances(v, port);
    }
  }

  lemma LearnKeepsOwes(v: View, src: Mac, ingress: nat, vlan: u16)
    requires |src| == 6 && Owes(v)
    ensures Owes(Learn(v, src, ingress, vlan))
  {
    hide SumRx, SumTx;
  }

  lemma FrameKeepsInv(v: View, seen: map<Key, Seen>, ingress: int, data: seq<byte>)
    requires Inv(v, seen)
    ensures Inv(Step(v, Frame(ingress, data)), Note(v, seen, Frame(ingress, data)))
  {
    hide InMask, SumRx, SumTx, Learn, Decided, Owes, Balanced, Isolated, KnownPorts, Truthful, SameTopology;
    hide CountRx, CountDrop, AllActive;
    var admitted := Admitted(v, ingress, data);
    if admitted.Some? {
      var vlan := admitted.value;
      var w := CountRx(v, ingress);
      ReceptionOwes(v, ingress);
      TopologyCarriesOver(v, w, seen);
      if !InMask(v.ports[ingress].allowed, vlan) {
        DropBalances(w);
        TopologyCarriesOver(w, CountDrop(w), seen);
      } else {
        TopologyOfPort(v, w, ingress);
        LearnKeepsInv(w, seen, data[6..12], ingress, vlan);
        LearnKeepsOwes(w, data[6..12], ingress, vlan);
        var u := Learn(w, data[6..12], ingress, vlan);
        LearnKeepsPorts(w, data[6..12], ingress, vlan);
        DecisionBalances(u, data[..6], ingress, vlan);
        TopologyCarriesOver(u, Decided(u, data[..6], ingress, vlan).0, Note(v, seen, Frame(ingress, data)));
      }
    }
  }

  lemma TopologyOfPort(v: View, w: View, i: nat)
    requires SameTopology(v, w) && i < |v.ports|
    ensures |w.ports| == |v.ports| && w.ports[i].allowed == v.ports[i].allowed && w.tick == v.tick && w.macs == v.macs
  {
  }

  lemma LearnKeepsPorts(v: View, src: Mac, ingress: nat, vlan: u16)
    requires |src| == 6
    ensures Learn(v, src, ingress, vlan).ports == v.ports
    ensures AllActive(v) ==> AllActive(Learn(v, src, ingress, vlan))
  {
  }

  lemma StepKeepsInv(v: View, seen: map<Key, Seen>, e: Event)
    requires Inv(v, seen)
    ensures Inv(Step(v, e), Note(v, seen, e))
  {
    match e
    case AddPort(mode, pvid) => AddPortKeepsInv(v, seen, mode, pvid);
    case AllowVlan(port, vlan) => AllowKeepsInv(v, seen, port, vlan);
    case Frame(ingress, data) => FrameKeepsInv(v, seen, ingress, data);
    case AgeTable => ForgettingKeepsInv(v, seen, Aged(v.macs, v.tick, v.aging));
    case Flush => ForgettingKeepsInv(v, seen, map[]);
    case Tick => TickKeepsInv(v, seen);
  }

  lemma TickKeepsInv(v: View, seen: map<Key, Seen>)
    requires Inv(v, seen)
    ensures Inv(Step(v, Tick), seen)
  {
    hide InMask, SumRx, SumTx;
  }

  // ---------------------------------------------------------------- whole runs

  lemma StepKeepsKnownPorts(v: View, e: Event)
    requires KnownPorts(v)
    ensures KnownPorts(Step(v, e))
  {
    hide InMask;
  }

  /** The switch after a run, and the record of last sightings. */
  function Exec(v: View, seen: map<Key, Seen>, es: seq<Event>): (r: (View, map<Key, Seen>))
    requires KnownPorts(v)
    ensures KnownPorts(r.0)
    decreases |es|
  {
    if es == [] then (v, seen)
    else
      StepKeepsKnownPorts(v, es[0]);
      Exec(Step(v, es[0]), Note(v, seen, es[0]), es[1..])
  }

  lemma {:induction false} RunKeepsInv(v: View, seen: map<Key, Seen>, es: seq<Event>)
    requires Inv(v, seen)
    ensures Inv(Exec(v, seen, es).0, Exec(v, seen, es).1)
    decreases |es|
  {
    hide Inv, Step, Note;
    if es != [] {
      InvKnowsPorts(v, seen);
      StepKeepsInv(v, seen, es[0]);
      RunKeepsInv(Step(v, es[0]), Note(v, seen, es[0]), es[1..]);
    } else {
      InvKnowsPorts(v, seen);
    }
  }

  lemma InvKnowsPorts(v: View, seen: map<Key, Seen>)
    ensures Inv(v, seen) ==> KnownPorts(v)
  {
  }

  /** In every run: learned stations sit on member ports, where they were last seen, and
      received = forwarded + flooded + dropped = the sum over the ports, sent = forwarded likewise. */
  lemma EveryRun(es: seq<Event>)
    ensures var (v, seen) := Exec(Init(), map[], es);
            Isolated(v) && Truthful(v, seen) && Balanced(v) && AllActive(v)
  {
    RunKeepsInv(Init(), map[], es);
  }

  /** A frame that any run forwards leaves by another port, a member of the VLAN like the port it
      came in by: the one where the destination was last seen on that VLAN. And the VLAN is the one
      that the bytes of the frame, or the port for an untagged one, say. */
  lemma ForwardedFrames(es: seq<Event>, ingress: int, data: seq<byte>, port: int, vlan: u16)
    requires Processed(Exec(Init(), map[], es).0, ingress, data).1 == Some(Forward(port, vlan))
    ensures var (v, seen) := Exec(Init(), map[], es + [Frame(ingress, data)]);
            && port != ingress && Member(v, ingress, vlan) && Member(v, port, vlan)
            && Key(data[..6], vlan) in seen && seen[Key(data[..6], vlan)].port == port
            && |data| >= 14 && OnVlan(v.ports[ingress], data, vlan)
  {
    hide Exec, Processed, Note, InMask, SumRx, SumTx, Balanced, AllActive, OnVlan;
    var (v, seen) := Exec(Init(), map[], es);
    StartsInv();
    RunKeepsInv(Init(), map[], es);
    ExecLast(Init(), map[], es, Frame(ingress, data));
    StepKeepsInv(v, seen, Frame(ingress, data));
    ForwardFollowsTable(v, ingress, data, port, vlan);
    AdmittedFromBytes(v, ingress, data, vlan);
    var u := Exec(Init(), map[], es + [Frame(ingress, data)]).0;
    assert u == Processed(v, ingress, data).0;
    FramesKeepModes(v, ingress, data);
    SameModeSameVlan(v.ports[ingress], u.ports[ingress], data, vlan);
  }

  lemma FramesKeepModes(v: View, ingress: int, data: seq<byte>)
    requires KnownPorts(v)
    ensures var w := Processed(v, ingress, data).0;
            && |w.ports| == |v.ports|
            && forall i :: 0 <= i < |v.ports| ==> w.ports[i].mode == v.ports[i].mode && w.ports[i].pvid == v.ports[i].pvid
  {
    hide InMask, Learned, VlanOf;
    LearningKeepsPorts(v, ingress, data);
  }

  lemma LearningKeepsPorts(v: View, ingress: int, data: seq<byte>)
    requires KnownPorts(v)
    ensures Admitted(v, ingress, data).Some? ==>
              var w := CountRx(v, ingress);
              var u := Learn(w, data[6..12], ingress, Admitted(v, ingress, data).value);
              KnownPorts(w) && KnownPorts(u) && u.ports == w.ports && u.totals == w.totals && u.tick == w.tick
  {
    hide InMask, Learned, VlanOf;
    if Admitted(v, ingress, data).Some? {
      LearnKeepsKnownPorts(CountRx(v, ingress), data[6..12], ingress, Admitted(v, ingress, data).value);
    }
  }

  lemma SameModeSameVlan(p: Port, q: Port, data: seq<byte>, vlan: u16)
    requires |data| >= 14 && p.mode == q.mode && p.pvid == q.pvid
    ensures OnVlan(p, data, vlan) <==> OnVlan(q, data, vlan)
  {
  }

  /** What a frame does, from its bytes: on a VLAN its port allows, or not, it has an outcome on that VLAN; a
      source that is a single station is learned there, if it is known or a slot is free. */
  lemma FrameIsOnItsVlan(v: View, ingress: int, frame: seq<byte>, vlan: u16)
    requires KnownPorts(v) && |frame| >= 14 && 0 <= ingress < |v.ports| && v.ports[ingress].active
    requires OnVlan(v.ports[ingress], frame, vlan)
    ensures var (w, outcome) := Processed(v, ingress, frame);
            && outcome.Some? && outcome.value.vlan == vlan
            && (!Member(v, ingress, vlan) ==> outcome == Some(Drop(vlan)) && w.macs == v.macs)
            && (Member(v, ingress, vlan) && frame[6] % 2 == 0 && (Key(frame[6..12], vlan) in v.macs || |v.macs| < 1024) ==>
                  w.macs == v.macs[Key(frame[6..12], vlan) := Seen(ingress, v.tick)])
            && (frame[6] % 2 == 1 ==> w.macs == v.macs)
  {
    hide InMask, OnVlan, VlanOf;
    AdmittedFromBytes(v, ingress, frame, vlan);
    LearnKeepsPorts(CountRx(v, ingress), frame[6..12], ingress, vlan);
    LearnKeepsKnownPorts(CountRx(v, ingress), frame[6..12], ingress, vlan);
  }

  /** A tag on a trunk is obeyed for any priority and any VLAN number. */
  lemma TaggedOnATrunk(p: Port, frame: seq<byte>, prio: nat, vid: nat)
    requires |frame| >= 18 && p.mode == 1 && prio < 16 && vid < 4096
    requires frame[12] == 0x81 && frame[13] == 0x00 && frame[14] == 16 * prio + vid / 256 && frame[15] == vid % 256
    ensures forall vlan: u16 :: OnVlan(p, frame, vlan) <==> vlan == vid
  {
    hide IsTag;
    forall vlan: u16 ensures OnVlan(p, frame, vlan) <==> vlan == vid {
      TagBytes(frame, vlan);
      TagBytes(frame, vid);
      ThisTag(frame, prio, vid);
    }
  }

  lemma ThisTag(frame: seq<byte>, prio: nat, vid: nat)
    requires |frame| >= 18 && prio < 16 && vid < 4096
    requires frame[14] == 16 * prio + vid / 256 && frame[15] == vid % 256
    ensures IsTag(frame, prio, vid)
  {
  }

  /** What is too short, comes by no active port, or has its tag cut off changes nothing and has no outcome. */
  lemma RefusedFrames(v: View, ingress: int, frame: seq<byte>)
    requires KnownPorts(v)
    requires || |frame| < 14 || ingress < 0 || ingress >= |v.ports| || !v.ports[ingress].active
             || (|frame| < 18 && v.ports[ingress].mode == 1 && frame[12] == 0x81 && frame[13] == 0x00)
    ensures Processed(v, ingress, frame) == (v, None)
  {
    hide Checksum.Word;
    if |frame| >= 14 {
      EtherTypeIsTag(frame);
    }
  }

  /** Which counters a frame moves, each by one: received at the switch and at its port; then the one of its
      outcome, and for a forwarded frame sent at the switch and at the port it leaves by. */
  lemma CountersFollowTheOutcome(v: View, ingress: int, frame: seq<byte>)
    requires KnownPorts(v) && Processed(v, ingress, frame).1.Some?
    ensures var (w, outcome) := Processed(v, ingress, frame);
            var o := outcome.value;
            && w.totals.rx == Add64(v.totals.rx, 1)
            && w.totals.flooded == (if o.Flood? then Add64(v.totals.flooded, 1) else v.totals.flooded)
            && w.totals.dropped == (if o.Drop? then Add64(v.totals.dropped, 1) else v.totals.dropped)
            && w.totals.forwarded == (if o.Forward? then Add64(v.totals.forwarded, 1) else v.totals.forwarded)
            && w.totals.tx == (if o.Forward? then Add64(v.totals.tx, 1) else v.totals.tx)
            && |w.ports| == |v.ports| && w.tick == v.tick && w.aging == v.aging
            && forall i :: 0 <= i < |v.ports| ==>
                 && w.ports[i].rx == (if i == ingress then Add64(v.ports[i].rx, 1) else v.ports[i].rx)
                 && w.ports[i].tx == (if o.Forward? && i == o.dst then Add64(v.ports[i].tx, 1) else v.ports[i].tx)
                 && w.ports[i].allowed == v.ports[i].allowed && w.ports[i].active == v.ports[i].active
  {
    hide InMask, Learned, VlanOf;
    LearningKeepsPorts(v, ingress, frame);
  }

  lemma StartsInv()
    ensures Inv(Init(), map[])
  {
  }

  lemma ForwardFollowsTable(v: View, ingress: int, data: seq<byte>, port: int, vlan: u16)
    requires KnownPorts(v) && Processed(v, ingress, data).1 == Some(Forward(port, vlan))
    ensures var w := Processed(v, ingress, data).0;
            && port != ingress && Member(w, ingress, vlan)
            && Key(data[..6], vlan) in w.macs && w.macs[Key(data[..6], vlan)].port == port
    ensures Admitted(v, ingress, data) == Some(vlan)
  {
    hide InMask;
  }

  lemma {:induction false} ExecLast(v: View, seen: map<Key, Seen>, es: seq<Event>, e: Event)
    requires KnownPorts(v)
    ensures var (w, s) := Exec(v, seen, es);
            Exec(v, seen, es + [e]) == (Step(w, e), Note(w, s, e))
    decreases |es|
  {
    hide Step, Note;
    StepKeepsKnownPorts(v, e);
    if es == [] {
      assert es + [e] == [e] && [e][1..] == [];
    } else {
      assert (es + [e])[1..] == es[1..] + [e];
      StepKeepsKnownPorts(v, es[0]);
      ExecLast(Step(v, es[0]), Note(v, seen, es[0]), es[1..], e);
    }
  }

  /** While nothing is aged or flushed and no more stations than slots have been seen,
      the table is the full record. */
  lemma {:induction false} NothingForgotten(v: View, seen: map<Key, Seen>, es: seq<Event>)
    requires KnownPorts(v) && v.macs == seen
    requires forall e :: e in es ==> !e.AgeTable? && !e.Flush?
    requires |Exec(v, seen, es).1| <= MAC_SLOTS
    ensures Exec(v, seen, es).0.macs == Exec(v, seen, es).1
    decreases |es|
  {
    hide Step, Note;
    if es != [] {
      StepKeepsKnownPorts(v, es[0]);
      var w, seen' := Step(v, es[0]), Note(v, seen, es[0]);
      RecordGrows(w, seen', es[1..]);
      StepKeepsRecord(v, seen, es[0]);
      NothingForgotten(w, seen', es[1..]);
    }
  }

  /** In such runs the last sightings decide: a frame for a group or for a station never seen on the VLAN
      is flooded, one for a station last seen on the same port is dropped, any other is forwarded
      to where the station was last seen. */
  lemma SightingsDecide(es: seq<Event>, ingress: int, data: seq<byte>, vlan: u16)
    requires forall e :: e in es ==> !e.AgeTable? && !e.Flush?
    requires |Exec(Init(), map[], es + [Frame(ingress, data)]).1| <= 1024
    requires |data| >= 14 && Member(Exec(Init(), map[], es).0, ingress, vlan)
    requires OnVlan(Exec(Init(), map[], es).0.ports[ingress], data, vlan)
    ensures var seen := Exec(Init(), map[], es + [Frame(ingress, data)]).1;
            var key := Key(data[..6], vlan);
            Processed(Exec(Init(), map[], es).0, ingress, data).1 == Some(
              if data[0] % 2 == 1 || key !in seen then Flood(vlan)
              else if seen[key].port == ingress then Drop(vlan)
              else Forward(seen[key].port, vlan))
  {
    hide Exec, Processed, Note, InMask, Learned, OnVlan;
    var (v, seen) := Exec(Init(), map[], es);
    ExecLast(Init(), map[], es, Frame(ingress, data));
    NoteGrows(v, seen, Frame(ingress, data));
    NothingForgotten(Init(), map[], es);
    StepKeepsRecord(v, seen, Frame(ingress, data));
    StartsInv();
    RunKeepsInv(Init(), map[], es);
    AdmittedFromBytes(v, ingress, data, vlan);
    TableDecides(v, ingress, data, vlan);
  }

  lemma TableDecides(v: View, ingress: int, data: seq<byte>, vlan: u16)
    requires KnownPorts(v) && Admitted(v, ingress, data) == Some(vlan) && Member(v, ingress, vlan)
    ensures var (w, outcome) := Processed(v, ingress, data);
            var key := Key(data[..6], vlan);
            outcome == Some(
              if IsMulticast(data[..6]) || key !in w.macs then Flood(vlan)
              else if w.macs[key].port == ingress then Drop(vlan)
              else Forward(w.macs[key].port, vlan))
  {
    hide InMask, Learned;
    LearnKeepsPorts(CountRx(v, ingress), data[6..12], ingress, vlan);
    LearnKeepsKnownPorts(CountRx(v, ingress), data[6..12], ingress, vlan);
  }

  lemma LearnKeepsKnownPorts(v: View, src: Mac, ingress: nat, vlan: u16)
    requires KnownPorts(v) && |src| == 6 && ingress < |v.ports|
    ensures KnownPorts(Learn(v, src, ingress, vlan))
  {
  }

  lemma {:induction false} RecordGrows(v: View, seen: map<Key, Seen>, es: seq<Event>)
    requires KnownPorts(v)
    ensures |seen| <= |Exec(v, seen, es).1|
    decreases |es|
  {
    hide Step, Note;
    if es != [] {
      StepKeepsKnownPorts(v, es[0]);
      NoteGrows(v, seen, es[0]);
      RecordGrows(Step(v, es[0]), Note(v, seen, es[0]), es[1..]);
    }
  }

  lemma NoteGrows(v: View, seen: map<Key, Seen>, e: Event)
    ensures |seen| <= |Note(v, seen, e)|
  {
    hide Sighting;
    if e.Frame? && Sighting(v, e.ingress, e.data).Some? {
      var k := Sighting(v, e.ingress, e.data).value;
      PutGrows(seen, k, Seen(e.ingress, v.tick));
    }
  }

  lemma PutGrows(m: map<Key, Seen>, k: Key, s: Seen)
    ensures |m[k := s]| == |m| + if k in m then 0 else 1
  {
    assert m[k := s].Keys == m.Keys + {k};
    assert |m.Keys| == |m| && |m[k := s].Keys| == |m[k := s]|;
  }

  lemma StepKeepsRecord(v: View, seen: map<Key, Seen>, e: Event)
    requires KnownPorts(v) && v.macs == seen && !e.AgeTable? && !e.Flush?
    requires |Note(v, seen, e)| <= MAC_SLOTS
    ensures Step(v, e).macs == Note(v, seen, e)
  {
    hide InMask;
    if e.Frame? && Sighting(v, e.ingress, e.data).Some? {
      PutGrows(seen, Sighting(v, e.ingress, e.data).value, Seen(e.ingress, v.tick));
    }
  }

  function Ticks(n: nat): seq<Event> {
    if n == 0 then [] else [Tick] + Ticks(n - 1)
  }

  lemma {:induction false} TicksPass(v: View, seen: map<Key, Seen>, n: nat, rest: seq<Event>)
    requires KnownPorts(v)
    ensures KnownPorts(v.(tick := Low32(v.tick + n)))
    ensures Exec(v, seen, Ticks(n) + rest) == Exec(v.(tick := Low32(v.tick + n)), seen, rest)
    decreases n
  {
    if n == 0 {
      assert Ticks(0) + rest == rest;
    } else {
      var w := Step(v, Tick);
      assert (Ticks(n) + rest)[1..] == Ticks(n - 1) + rest;
      assert Low32(v.tick + n) == Low32(w.tick + (n - 1));
      TicksPass(w, seen, n - 1, rest);
    }
  }

  /** A station just seen survives the aging that comes n ticks later, if it is silent, exactly when n is below
      the aging time. */
  lemma SilentStationsGo(v: View, seen: map<Key, Seen>, k: Key, n: nat)
    requires KnownPorts(v) && k in v.macs && v.macs[k].tick == v.tick && n < TWO_32
    ensures k in Exec(v, seen, Ticks(n) + [AgeTable]).0.macs <==> n < v.aging
  {
    TicksPass(v, seen, n, [AgeTable]);
    var w := v.(tick := Low32(v.tick + n));
    assert [AgeTable][1..] == [];
    assert Exec(w, seen, [AgeTable]).0 == Step(w, AgeTable);
    assert Age(w.tick, v.macs[k]) == n;
  }

  /** A 32-bit age is the time really passed exactly when less than 2^32 ticks passed;
      a station silent for a full lap of the clock looks fresh again. */
  lemma AgeIsElapsed(now: nat, seenAt: nat, port: int)
    requires seenAt <= now
    ensures Age(SeqNum.Wire(now), Seen(port, SeqNum.Wire(seenAt))) == now - seenAt <==> now - seenAt < TWO_32
  {
    SeqNum.SubWire(now, seenAt);
  }
}
