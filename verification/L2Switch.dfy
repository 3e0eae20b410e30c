/** The VLAN-aware learning switch. */
module L2Switch {
  import opened Words
  import opened Bitwise
  import opened MacTable
  import opened Checksum

  const MAX_PORTS: nat := 32
  const MAC_SLOTS: nat := 1024
  const TRUNK: int := 1
  const TWO_64: int := 0x1_0000_0000_0000_0000

  type u64 = x: int | 0 <= x < 0x1_0000_0000_0000_0000

  /** Unsigned 64-bit addition. */
  function Add64(a: u64, b: u64): u64 {
    if a + b < TWO_64 then a + b else a + b - TWO_64
  }

  datatype Port = Port(active: bool, mode: int, pvid: u16, allowed: nat, rx: u64, tx: u64)

  datatype Totals = Totals(rx: u64, tx: u64, flooded: u64, dropped: u64, forwarded: u64)

  datatype View = View(ports: seq<Port>, macs: map<Key, Seen>, aging: u32, tick: u32, totals: Totals)

  datatype Outcome = Forward(dst: int, vlan: u16) | Flood(vlan: u16) | Drop(vlan: u16)

  /** Bit `vlan` of the 64-bit mask of allowed VLANs; higher VLANs are never allowed. */
  predicate InMask(mask: nat, vlan: nat) {
    vlan < 64 && And(mask, Pow2(vlan)) != 0
  }

  predicate IsMulticast(mac: Mac)
    requires |mac| == 6
  {
    mac[0] % 2 == 1
  }

  predicate IsBroadcast(mac: Mac)
    requires |mac| == 6
  {
    mac == [0xFF, 0xFF, 0xFF, 0xFF, 0xFF, 0xFF]
  }

  /** The VLAN a frame belongs to; None for a tag that is cut off. */
  function VlanOf(p: Port, frame: seq<byte>): Option<u16>
    requires |frame| >= 14
  {
    if p.mode == TRUNK && Word(frame[12], frame[13]) == 0x8100 then
      if |frame| < 18 then None else Some(Word(frame[14], frame[15]) % 0x1000)
    else Some(p.pvid)
  }

  function NewPort(mode: int, pvid: u16): Port {
    Port(true, mode, pvid, if pvid < 64 then Pow2(pvid) else 0, 0, 0)
  }

  // ---------------------------------------------------------------- what one frame does

  function CountRx(v: View, ingress: nat): View
    requires ingress < |v.ports|
  {
    v.(totals := v.totals.(rx := Add64(v.totals.rx, 1)),
       ports := v.ports[ingress := v.ports[ingress].(rx := Add64(v.ports[ingress].rx, 1))])
  }

  function CountForward(v: View, dst: nat): View
    requires dst < |v.ports|
  {
    v.(totals := v.totals.(forwarded := Add64(v.totals.forwarded, 1), tx := Add64(v.totals.tx, 1)),
       ports := v.ports[dst := v.ports[dst].(tx := Add64(v.ports[dst].tx, 1))])
  }

  function CountFlood(v: View): View {
    v.(totals := v.totals.(flooded := Add64(v.totals.flooded, 1)))
  }

  function CountDrop(v: View): View {
    v.(totals := v.totals.(dropped := Add64(v.totals.dropped, 1)))
  }

  function Learn(v: View, src: Mac, ingress: nat, vlan: u16): View
    requires |src| == 6
  {
    if IsMulticast(src) then v
    else v.(macs := Learned(v.macs, MAC_SLOTS, Key(src, vlan), Seen(ingress, v.tick)))
  }

  /** Every learned port exists. */
  ghost predicate KnownPorts(v: View) {
    forall k :: k in v.macs ==> 0 <= v.macs[k].port < |v.ports|
  }

  function Decided(v: View, dst: Mac, ingress: nat, vlan: u16): (View, Outcome)
    requires |dst| == 6 && KnownPorts(v)
  {
    if IsBroadcast(dst) || IsMulticast(dst) then (CountFlood(v), Flood(vlan))
    else
      var port := PortOf(v.macs, Key(dst, vlan));
      if port < 0 then (CountFlood(v), Flood(vlan))
      else if port == ingress then (CountDrop(v), Drop(vlan))
      else (CountForward(v, port), Forward(port, vlan))
  }

  /** The ingress port and VLAN of a frame the switch takes up at all. */
  function Admitted(v: View, ingress: int, frame: seq<byte>): Option<u16> {
    if |frame| < 14 || ingress < 0 || ingress >= |v.ports| || !v.ports[ingress].active then None
    else VlanOf(v.ports[ingress], frame)
  }

  function Processed(v: View, ingress: int, frame: seq<byte>): (View, Option<Outcome>)
    requires KnownPorts(v)
  {
    match Admitted(v, ingress, frame)
    case None => (v, None)
    case Some(vlan) =>
      var w := CountRx(v, ingress);
      if !InMask(v.ports[ingress].allowed, vlan) then (CountDrop(w), Some(Drop(vlan)))
      else
        var (t, outcome) := Decided(Learn(w, frame[6..12], ingress, vlan), frame[..6], ingress, vlan);
        (t, Some(outcome))
  }

  function Allowed(v: View, port: int, vlan: u16): View {
    if port < 0 || port >= |v.ports| || vlan >= 64 then v
    else v.(ports := v.ports[port := v.ports[port].(allowed := Or(v.ports[port].allowed, Pow2(vlan)))])
  }

  // ---------------------------------------------------------------- the VLAN of a frame, from its bytes

  /** Bytes 14 and 15 of a tag with that priority nibble and VLAN number. */
  predicate IsTag(frame: seq<byte>, prio: nat, vlan: nat)
    requires |frame| >= 18
  {
    prio < 16 && vlan < 4096 && frame[14] == 16 * prio + vlan / 256 && frame[15] == vlan % 256
  }

  /** A trunk reads the VLAN from an 802.1Q tag, whatever its priority; anything else, and everything on
      an access port, is on the port's own VLAN. A tag that is cut off is on none. */
  ghost predicate OnVlan(p: Port, frame: seq<byte>, vlan: u16)
    requires |frame| >= 14
  {
    if p.mode == 1 && frame[12] == 0x81 && frame[13] == 0x00 then
      |frame| >= 18 && exists prio: nat :: IsTag(frame, prio, vlan)
    else vlan == p.pvid
  }

  lemma TagBytes(frame: seq<byte>, vlan: u16)
    requires |frame| >= 18
    ensures Word(frame[14], frame[15]) % 0x1000 == vlan <==> exists prio: nat :: IsTag(frame, prio, vlan)
  {
    var hi, lo := frame[14] as int, frame[15] as int;
    assert hi == 16 * (hi / 16) + hi % 16;
    assert (hi * 256 + lo) % 4096 == (hi % 16) * 256 + lo;
    if Word(frame[14], frame[15]) % 0x1000 == vlan {
      assert IsTag(frame, hi / 16, vlan);
    }
  }

  lemma EtherTypeIsTag(frame: seq<byte>)
    requires |frame| >= 14
    ensures Word(frame[12], frame[13]) == 0x8100 <==> frame[12] == 0x81 && frame[13] == 0x00
  {
  }

  lemma VlanFromBytes(p: Port, frame: seq<byte>, vlan: u16)
    requires |frame| >= 14
    ensures VlanOf(p, frame) == Some(vlan) <==> OnVlan(p, frame, vlan)
  {
    hide Word, IsTag;
    EtherTypeIsTag(frame);
    if |frame| >= 18 {
      TagBytes(frame, vlan);
    }
  }

  /** A frame is taken up, on a VLAN, exactly when it has a header, an existing active ingress port, and
      bytes that say so. */
  lemma AdmittedFromBytes(v: View, ingress: int, frame: seq<byte>, vlan: u16)
    ensures Admitted(v, ingress, frame) == Some(vlan) <==>
      |frame| >= 14 && 0 <= ingress < |v.ports| && v.ports[ingress].active && OnVlan(v.ports[ingress], frame, vlan)
  {
    hide VlanOf, OnVlan;
    if |frame| >= 14 && 0 <= ingress < |v.ports| {
      VlanFromBytes(v.ports[ingress], frame, vlan);
    }
  }

  // ---------------------------------------------------------------- the switch itself

  class Switch {
    const ports: array<Port>
    var numPorts: nat
    const macTable: array<Entry>
    var aging: u32
    var tick: u32
    var totalRx: u64
    var totalTx: u64
    var totalFlooded: u64
    var totalDropped: u64
    var totalForwarded: u64
    ghost var macs: map<Key, Seen>

    ghost function Abs(): View
      requires numPorts <= ports.Length
      reads this, ports
    {
      View(ports[..numPorts], macs, aging, tick,
           Totals(totalRx, totalTx, totalFlooded, totalDropped, totalForwarded))
    }

    ghost predicate Valid()
      reads this, ports, macTable
    {
      && ports.Length == MAX_PORTS && macTable.Length == MAC_SLOTS && numPorts <= MAX_PORTS
      && Holds(macTable[..], macs) && KnownPorts(Abs())
    }

    constructor ()
      ensures Valid() && fresh(ports) && fresh(macTable)
      ensures Abs() == View([], map[], 300, 0, Totals(0, 0, 0, 0, 0))
    {
      ports := new Port[MAX_PORTS](_ => Port(false, 0, 0, 0, 0, 0));
      macTable := new Entry[MAC_SLOTS](_ => Entry([], 0, 0, 0, false));
      numPorts, aging, tick, macs := 0, 300, 0, map[];
      totalRx, totalTx, totalFlooded, totalDropped, totalForwarded := 0, 0, 0, 0, 0;
    }

    method AddPort(mode: int, pvid: u16) returns (id: int)
      requires Valid()
      modifies this, ports
      ensures Valid()
      ensures id == if |old(Abs()).ports| < 32 then |old(Abs()).ports| else -1
      ensures Abs() == if id < 0 then old(Abs()) else old(Abs()).(ports := old(Abs()).ports + [NewPort(mode, pvid)])
    {
      hide Pow2, Holds;
      if numPorts >= MAX_PORTS {
        return -1;
      }
      id := numPorts;
      ports[id] := NewPort(mode, pvid);
      numPorts := numPorts + 1;
      assert ports[..numPorts] == old(ports[..numPorts]) + [NewPort(mode, pvid)];
    }

    method PortAllowVlan(port: int, vlan: u16) returns (ok: bool)
      requires Valid()
      modifies ports
      ensures Valid() && ok == (0 <= port < |Abs().ports| && vlan < 64)
      ensures Abs() == Allowed(old(Abs()), port, vlan)
    {
      hide Pow2, Or, Holds;
      if port < 0 || port >= numPorts || vlan >= 64 {
        return false;
      }
      ports[port] := ports[port].(allowed := Or(ports[port].allowed, Pow2(vlan)));
      assert ports[..numPorts] == old(ports[..numPorts])[port := ports[port]];
      return true;
    }

    /** The slot of a key, or the number of slots. */
    method FindMac(mac: Mac, vlan: u16) returns (i: nat)
      requires Holds(macTable[..], macs)
      ensures i <= macTable.Length
      ensures i < macTable.Length ==> Is(macTable[i], Key(mac, vlan))
      ensures i == macTable.Length <==> Key(mac, vlan) !in macs
    {
      i := 0;
      while i < macTable.Length
        invariant i <= macTable.Length
        invariant forall j :: 0 <= j < i ==> !Is(macTable[j], Key(mac, vlan))
      {
        if macTable[i].valid && macTable[i].mac == mac && macTable[i].vlan == vlan {
          break;
        }
        i := i + 1;
      }
      NotListed(macTable[..], macs, Key(mac, vlan));
      assert forall j :: 0 <= j < macTable.Length ==> macTable[..][j] == macTable[j];
    }

    method FindFree() returns (i: nat)
      requires Holds(macTable[..], macs)
      ensures i <= macTable.Length
      ensures i < macTable.Length ==> !macTable[i].valid
      ensures i == macTable.Length <==> |macs| == macTable.Length
    {
      i := 0;
      while i < macTable.Length
        invariant i <= macTable.Length
        invariant forall j :: 0 <= j < i ==> macTable[j].valid
      {
        if !macTable[i].valid {
          break;
        }
        i := i + 1;
      }
      FreeSlot(macTable[..], macs);
      assert forall j :: 0 <= j < macTable.Length ==> macTable[..][j] == macTable[j];
    }

    method MacLearn(mac: Mac, port: int, vlan: u16) returns (ok: bool)
      requires Holds(macTable[..], macs)
      modifies macTable, this`macs
      ensures Holds(macTable[..], macs)
      ensures macs == Learned(old(macs), macTable.Length, Key(mac, vlan), Seen(port, tick))
      ensures ok <==> Key(mac, vlan) in old(macs) || |old(macs)| < macTable.Length
    {
      hide Holds;
      ghost var slots := macTable[..];
      var i := FindMac(mac, vlan);
      if i < macTable.Length {
        var moved := macTable[i].(port := port, lastSeen := tick);
        WriteKeepsHolds(slots, macs, i, moved);
        macTable[i] := moved;
        macs := macs[Key(mac, vlan) := Seen(port, tick)];
        assert macTable[..] == slots[i := moved];
        return true;
      }
      FreeSlot(slots, macs);
      i := FindFree();
      if i < macTable.Length {
        var entry := Entry(mac, port, vlan, tick, true);
        WriteKeepsHolds(slots, macs, i, entry);
        macTable[i] := entry;
        macs := macs[Key(mac, vlan) := Seen(port, tick)];
        assert macTable[..] == slots[i := entry];
        return true;
      }
      return false;
    }

    method MacLookup(mac: Mac, vlan: u16) returns (port: int)
      requires Holds(macTable[..], macs)
      ensures port == PortOf(macs, Key(mac, vlan))
    {
      var i := FindMac(mac, vlan);
      if i == macTable.Length {
        return -1;
      }
      assert macTable[..][i] == macTable[i];
      return macTable[i].port;
    }

    method MacFlush()
      requires Valid()
      modifies macTable, this`macs
      ensures Valid() && Abs() == old(Abs()).(macs := map[])
    {
      hide Holds, KnownPorts;
      ghost var slots := macTable[..];
      for i := 0 to macTable.Length
        modifies macTable
        invariant forall j :: 0 <= j < macTable.Length ==>
          macTable[j] == if j < i then slots[j].(valid := false) else slots[j]
        invariant ports[..] == old(ports[..])
      {
        macTable[i] := macTable[i].(valid := false);
      }
      ClearKeepsHolds(slots, macs, macTable[..], map[]);
      macs := map[];
      FewerKnownPorts(old(Abs()), map[]);
      assert ports[..numPorts] == old(ports[..numPorts]);
    }

    /** Entries not refreshed for the aging time go; ages are differences of a 32-bit clock. */
    method MacAge()
      requires Valid()
      modifies macTable, this`macs
      ensures Valid() && Abs() == old(Abs()).(macs := Aged(old(macs), tick, aging))
    {
      hide Holds, KnownPorts, Aged;
      ghost var slots := macTable[..];
      for i := 0 to macTable.Length
        modifies macTable
        invariant forall j :: 0 <= j < macTable.Length ==>
          macTable[j] == if j < i then Refreshed(slots[j], tick, aging) else slots[j]
        invariant ports[..] == old(ports[..])
      {
        if macTable[i].valid {
          if Sub32(tick, macTable[i].lastSeen) >= aging {
            macTable[i] := macTable[i].(valid := false);
          }
        }
      }
      RefreshIsAging(slots, macs, macTable[..], tick, aging);
      macs := Aged(macs, tick, aging);
      AgedIsPart(old(macs), tick, aging);
      FewerKnownPorts(old(Abs()), macs);
      assert ports[..numPorts] == old(ports[..numPorts]);
    }

    method MacCount() returns (count: nat)
      requires Valid()
      ensures count == |Abs().macs|
    {
      hide Holds;
      count := 0;
      for i := 0 to macTable.Length
        invariant count == CountValid(macTable[..i])
      {
        assert macTable[..i + 1][..i] == macTable[..i];
        if macTable[i].valid {
          count := count + 1;
        }
      }
      assert macTable[..macTable.Length] == macTable[..];
      HoldsSize(macTable[..], macs);
    }

    method NoteRx(ingress: nat)
      requires Valid() && ingress < numPorts
      modifies this`totalRx, ports
      ensures Valid() && Abs() == CountRx(old(Abs()), ingress)
    {
      hide Holds;
      totalRx := Add64(totalRx, 1);
      ports[ingress] := ports[ingress].(rx := Add64(ports[ingress].rx, 1));
      assert ports[..numPorts] == old(ports[..numPorts])[ingress := ports[ingress]];
    }

    method NoteForward(dst: nat)
      requires Valid() && dst < numPorts
      modifies this`totalForwarded, this`totalTx, ports
      ensures Valid() && Abs() == CountForward(old(Abs()), dst)
    {
      hide Holds;
      totalForwarded := Add64(totalForwarded, 1);
      totalTx := Add64(totalTx, 1);
      ports[dst] := ports[dst].(tx := Add64(ports[dst].tx, 1));
      assert ports[..numPorts] == old(ports[..numPorts])[dst := ports[dst]];
    }

    method Decide(dst: Mac, ingress: nat, vlan: u16) returns (outcome: Outcome)
      requires Valid() && |dst| == 6
      modifies this`totalFlooded, this`totalDropped, this`totalForwarded, this`totalTx, ports
      ensures Valid() && (Abs(), outcome) == Decided(old(Abs()), dst, ingress, vlan)
    {
      hide Holds, CountForward;
      if IsBroadcast(dst) || IsMulticast(dst) {
        totalFlooded := Add64(totalFlooded, 1);
        return Flood(vlan);
      }
      var port := MacLookup(dst, vlan);
      if port < 0 {
        totalFlooded := Add64(totalFlooded, 1);
        return Flood(vlan);
      }
      if port == ingress {
        totalDropped := Add64(totalDropped, 1);
        return Drop(vlan);
      }
      NoteForward(port);
      return Forward(port, vlan);
    }

    method LearnSource(src: Mac, ingress: nat, vlan: u16)
      requires Valid() && |src| == 6 && ingress < numPorts
      modifies macTable, this`macs
      ensures Valid() && Abs() == Learn(old(Abs()), src, ingress, vlan)
    {
      hide Holds;
      if !IsMulticast(src) {
        var _ := MacLearn(src, ingress, vlan);
      }
      assert ports[..numPorts] == old(ports[..numPorts]);
    }

    /** None for a frame that is refused without being counted. */
    method ProcessFrame(ingress: int, frame: seq<byte>) returns (outcome: Option<Outcome>)
      requires Valid()
      modifies this, ports, macTable
      ensures Valid() && (Abs(), outcome) == Processed(old(Abs()), ingress, frame)
    {
      hide Holds, KnownPorts, CountRx, Learn, Decided, InMask;
      if |frame| < 14 || ingress < 0 || ingress >= numPorts || !ports[ingress].active {
        return None;
      }
      var vlan: u16;
      if ports[ingress].mode == TRUNK && Word(frame[12], frame[13]) == 0x8100 {
        if |frame| < 18 {
          return None;
        }
        vlan := Word(frame[14], frame[15]) % 0x1000;
      } else {
        vlan := ports[ingress].pvid;
      }
      var allowed := ports[ingress].allowed;
      NoteRx(ingress);
      if !InMask(allowed, vlan) {
        totalDropped := Add64(totalDropped, 1);
        assert ports[..numPorts] == CountRx(old(Abs()), ingress).ports;
        KnownPortsOnly(CountRx(old(Abs()), ingress), Abs());
        return Some(Drop(vlan));
      }
      LearnSource(frame[6..12], ingress, vlan);
      var decision := Decide(frame[..6], ingress, vlan);
      return Some(decision);
    }
  }

  function Refreshed(e: Entry, now: u32, limit: u32): Entry {
    e.(valid := e.valid && Sub32(now, e.lastSeen) < limit)
  }

  lemma RefreshIsAging(slots: seq<Entry>, m: map<Key, Seen>, t: seq<Entry>, now: u32, limit: u32)
    requires Holds(slots, m) && |t| == |slots|
    requires forall j :: 0 <= j < |t| ==> t[j] == Refreshed(slots[j], now, limit)
    ensures Holds(t, Aged(m, now, limit))
  {
    ClearKeepsHolds(slots, m, t, Aged(m, now, limit));
  }

  lemma AgedIsPart(m: map<Key, Seen>, now: u32, limit: u32)
    ensures forall k :: k in Aged(m, now, limit) ==> k in m && Aged(m, now, limit)[k] == m[k]
  {
  }

  lemma FewerKnownPorts(v: View, m: map<Key, Seen>)
    requires KnownPorts(v) && forall k :: k in m ==> k in v.macs && m[k] == v.macs[k]
    ensures KnownPorts(v.(macs := m))
  {
  }

  lemma KnownPortsOnly(v: View, w: View)
    requires KnownPorts(v) && w.macs == v.macs && |w.ports| == |v.ports|
    ensures KnownPorts(w)
  {
  }
}
