/** One spanning-tree bridge: identifiers and their order, BPDUs, and what a received
    BPDU does to the bridge's view of the root. */
module Stp {
  import opened Words

  const MAX_PORTS := 16

  // ---------------------------------------------------------------- identifiers

  type Mac = m: seq<byte> | |m| == 6 witness [0, 0, 0, 0, 0, 0]

  datatype BridgeId = BridgeId(priority: u16, mac: Mac)

  /** The sign of the C library's byte-wise comparison of two buffers of the same size. */
  function MemCmp(a: seq<byte>, b: seq<byte>): int
    requires |a| == |b|
  {
    if a == [] then 0
    else if a[0] < b[0] then -1
    else if a[0] > b[0] then 1
    else MemCmp(a[1..], b[1..])
  }

  function IdCmp(a: BridgeId, b: BridgeId): int {
    if a.priority != b.priority then
      if a.priority < b.priority then -1 else 1
    else MemCmp(a.mac, b.mac)
  }

  /** The big-endian value of a buffer. */
  function BigEndian(s: seq<byte>): nat {
    if s == [] then 0 else 256 * BigEndian(s[..|s| - 1]) + s[|s| - 1]
  }

  /** The eight bytes of an identifier on the wire: priority in network order, then the MAC. */
  function Pack(id: BridgeId): seq<byte> {
    [id.priority / 256, id.priority % 256] + id.mac
  }

  /** The 64-bit number an identifier is on the wire; the lowest one wins the election. */
  function Rank(id: BridgeId): nat {
    BigEndian(Pack(id))
  }

  lemma {:induction false} MemCmpByLast(a: seq<byte>, b: seq<byte>)
    requires |a| == |b| > 0
    ensures
      var n := |a| - 1;
      var front := MemCmp(a[..n], b[..n]);
      MemCmp(a, b) == if front != 0 then front else MemCmp([a[n]], [b[n]])
  {
    if |a| > 1 && a[0] == b[0] {
      MemCmpByLast(a[1..], b[1..]);
      var n := |a| - 1;
      assert a[1..][..n - 1] == a[..n][1..] && b[1..][..n - 1] == b[..n][1..];
    }
  }

  lemma {:induction false} MemCmpIsNumeric(a: seq<byte>, b: seq<byte>)
    requires |a| == |b|
    ensures MemCmp(a, b) < 0 <==> BigEndian(a) < BigEndian(b)
    ensures MemCmp(a, b) == 0 <==> BigEndian(a) == BigEndian(b)
    ensures MemCmp(a, b) == 0 <==> a == b
  {
    if a != [] {
      var n := |a| - 1;
      MemCmpByLast(a, b);
      MemCmpIsNumeric(a[..n], b[..n]);
      assert a == a[..n] + [a[n]] && b == b[..n] + [b[n]];
    }
  }

  /** Comparing priority first and then the MAC bytes is comparing 64-bit numbers: a total order. */
  lemma IdCmpIsRankOrder(a: BridgeId, b: BridgeId)
    ensures IdCmp(a, b) < 0 <==> Rank(a) < Rank(b)
    ensures IdCmp(a, b) == 0 <==> Rank(a) == Rank(b)
    ensures IdCmp(a, b) == 0 <==> a == b
  {
    var p, q := Pack(a), Pack(b);
    MemCmpIsNumeric(p, q);
    assert p[1..][1..] == a.mac && q[1..][1..] == b.mac;
    assert MemCmp(p, q) == if p[0] != q[0] then (if p[0] < q[0] then -1 else 1) else MemCmp(p[1..], q[1..]);
    assert MemCmp(p[1..], q[1..]) == if p[1] != q[1] then (if p[1] < q[1] then -1 else 1) else MemCmp(a.mac, b.mac);
    MemCmpIsNumeric(a.mac, b.mac);
  }

  // ---------------------------------------------------------------- BPDUs

  /** The fields of a configuration BPDU that take part in the election. */
  datatype Bpdu = Bpdu(rootId: BridgeId, cost: u32, sender: BridgeId, portId: u16)

  predicate Superior(a: Bpdu, b: Bpdu) {
    if IdCmp(a.rootId, b.rootId) < 0 then true
    else if IdCmp(a.rootId, b.rootId) > 0 then false
    else if a.cost < b.cost then true
    else if a.cost > b.cost then false
    else if IdCmp(a.sender, b.sender) < 0 then true
    else if IdCmp(a.sender, b.sender) > 0 then false
    else a.portId < b.portId
  }

  /** BPDU superiority is a strict total order on priority vectors. */
  lemma SuperiorIsStrictTotalOrder(a: Bpdu, b: Bpdu, c: Bpdu)
    ensures !(Superior(a, b) && Superior(b, a))
    ensures Superior(a, b) || Superior(b, a) || a == b
    ensures !Superior(a, a)
    ensures Superior(a, b) && Superior(b, c) ==> Superior(a, c)
  {
    IdCmpIsRankOrder(a.rootId, b.rootId);
    IdCmpIsRankOrder(b.rootId, a.rootId);
    IdCmpIsRankOrder(b.rootId, c.rootId);
    IdCmpIsRankOrder(a.rootId, c.rootId);
    IdCmpIsRankOrder(a.sender, b.sender);
    IdCmpIsRankOrder(b.sender, a.sender);
    IdCmpIsRankOrder(b.sender, c.sender);
    IdCmpIsRankOrder(a.sender, c.sender);
    IdCmpIsRankOrder(a.rootId, a.rootId);
    IdCmpIsRankOrder(a.sender, a.sender);
  }

  /** The order itself: the lower root wins, then the lower cost, the lower sender, the lower port. */
  lemma SuperiorIsLexicographic(a: Bpdu, b: Bpdu)
    ensures Superior(a, b) <==>
      || Rank(a.rootId) < Rank(b.rootId)
      || (Rank(a.rootId) == Rank(b.rootId) && a.cost < b.cost)
      || (Rank(a.rootId) == Rank(b.rootId) && a.cost == b.cost && Rank(a.sender) < Rank(b.sender))
      || (Rank(a.rootId) == Rank(b.rootId) && a.cost == b.cost && Rank(a.sender) == Rank(b.sender) && a.portId < b.portId)
  {
    hide IdCmp, Rank;
    IdCmpIsRankOrder(a.rootId, b.rootId);
    IdCmpIsRankOrder(b.rootId, a.rootId);
    IdCmpIsRankOrder(a.sender, b.sender);
    IdCmpIsRankOrder(b.sender, a.sender);
  }

  // ---------------------------------------------------------------- one bridge as a value

  datatype Role = RootPort | DesignatedPort | AlternatePort

  datatype Port = Port(portId: u16, role: Role, pathCost: u32, best: Bpdu)

  /** `ports` holds the first `num_ports` ports; `rootPort` is -1 while the bridge thinks it is root. */
  datatype BridgeState = BridgeState(id: BridgeId, rootId: BridgeId, rootPathCost: u32, rootPort: int, ports: seq<Port>)

  const ZERO_ID := BridgeId(0, [0, 0, 0, 0, 0, 0])
  const ZERO_BPDU := Bpdu(ZERO_ID, 0, ZERO_ID, 0)

  predicate IsInitial(br: BridgeState) {
    && br.rootId == br.id
    && br.rootPathCost == 0
    && br.rootPort == -1
    && forall i :: 0 <= i < |br.ports| ==> br.ports[i].role == DesignatedPort
  }

  /** The cost of the root as seen through a port, a 32-bit sum. */
  function CostThrough(br: BridgeState, p: nat, bpdu: Bpdu): u32
    requires p < |br.ports|
  {
    Add32(bpdu.cost, br.ports[p].pathCost)
  }

  function Processed(br: BridgeState, p: int, bpdu: Bpdu): BridgeState
    requires -1 <= br.rootPort < |br.ports|
  {
    if !(0 <= p < |br.ports|) then br
    else
      var cost := CostThrough(br, p, bpdu);
      var cmp := IdCmp(bpdu.rootId, br.rootId);
      var heard := br.ports[p].(best := bpdu);
      if cmp < 0 then
        var others := seq(|br.ports|, i requires 0 <= i < |br.ports| => br.ports[i].(role := DesignatedPort));
        br.(rootId := bpdu.rootId, rootPathCost := cost, rootPort := p,
            ports := others[p := heard.(role := RootPort)])
      else if cmp == 0 && br.rootPort == p then
        br.(rootPathCost := cost, ports := br.ports[p := heard])
      else if cmp == 0 && br.rootPort != -1 then
        if cost < br.rootPathCost then
          var demoted := br.ports[br.rootPort := br.ports[br.rootPort].(role := DesignatedPort)];
          br.(rootPathCost := cost, rootPort := p, ports := demoted[p := heard.(role := RootPort)])
        else
          br.(ports := br.ports[p := heard.(role := AlternatePort)])
      else br
  }

  /** What every BPDU keeps: the root port is the one port in the root role, and its stored
      BPDU accounts for the bridge's root and cost; a bridge without root port is its own root. */
  ghost predicate Consistent(br: BridgeState) {
    && -1 <= br.rootPort < |br.ports| <= MAX_PORTS
    && (forall i :: 0 <= i < |br.ports| ==> (br.ports[i].role == RootPort <==> i == br.rootPort))
    && Rank(br.rootId) <= Rank(br.id)
    && (br.rootPort == -1 <==> br.rootId == br.id)
    && (br.rootPort == -1 ==> br.rootPathCost == 0)
    && (br.rootPort >= 0 ==>
          && br.ports[br.rootPort].best.rootId == br.rootId
          && br.rootPathCost == CostThrough(br, br.rootPort, br.ports[br.rootPort].best))
  }

  lemma InitialIsConsistent(br: BridgeState)
    requires IsInitial(br) && |br.ports| <= MAX_PORTS
    ensures Consistent(br)
  {
  }

  /** A BPDU never makes the root worse; afterwards the root is the better of the two roots,
      and the path is no longer than the one just offered for that root. */
  lemma ProcessedIsConsistent(br: BridgeState, p: int, bpdu: Bpdu)
    requires Consistent(br)
    ensures Consistent(Processed(br, p, bpdu))
    ensures
      var br' := Processed(br, p, bpdu);
      && br'.id == br.id
      && |br'.ports| == |br.ports|
      && (forall i :: 0 <= i < |br.ports| ==> br'.ports[i].pathCost == br.ports[i].pathCost)
      && (0 <= p < |br.ports| ==>
            && Rank(br'.rootId) == Min(Rank(br.rootId), Rank(bpdu.rootId))
            && (br'.rootId == bpdu.rootId && br'.rootPort != -1 ==> br'.rootPathCost <= CostThrough(br, p, bpdu)))
  {
    IdCmpIsRankOrder(bpdu.rootId, br.rootId);
    IdCmpIsRankOrder(bpdu.rootId, br.id);
  }

  /** A BPDU either leaves root, cost and root port alone, or all three come from it together;
      for the root known already that needs the root port or a smaller cost, and on the root port
      it happens whatever the cost. */
  lemma ProcessedVector(br: BridgeState, p: int, bpdu: Bpdu)
    requires Consistent(br)
    ensures
      var br' := Processed(br, p, bpdu);
      || (br'.rootId == br.rootId && br'.rootPathCost == br.rootPathCost && br'.rootPort == br.rootPort)
      || (0 <= p < |br.ports| && br'.rootId == bpdu.rootId && br'.rootPort == p
          && br'.rootPathCost == CostThrough(br, p, bpdu)
          && (br'.rootId == br.rootId ==> br.rootPort == p || br'.rootPathCost < br.rootPathCost))
    ensures 0 <= p == br.rootPort && bpdu.rootId == br.rootId ==>
              Processed(br, p, bpdu).rootPathCost == CostThrough(br, p, bpdu)
  {
    IdCmpIsRankOrder(bpdu.rootId, br.rootId);
  }

  /** Port i is as before, in another role. */
  predicate OnlyRole(was: Port, now: Port, role: Role) {
    now.role == role && now.portId == was.portId && now.pathCost == was.pathCost && now.best == was.best
  }

  predicate SameButPorts(br: BridgeState, br': BridgeState) {
    br'.id == br.id && |br'.ports| == |br.ports|
  }

  /** A worse root changes nothing, and neither does any BPDU for its own root at a bridge that is root itself. */
  lemma IgnoredBpdus(br: BridgeState, p: int, bpdu: Bpdu)
    requires Consistent(br)
    requires !(0 <= p < |br.ports|) || Rank(bpdu.rootId) > Rank(br.rootId) || (bpdu.rootId == br.rootId && br.rootPort == -1)
    ensures Processed(br, p, bpdu) == br
  {
    IdCmpIsRankOrder(bpdu.rootId, br.rootId);
  }

  /** A better root makes the port it came by the root port and every other port designated. */
  lemma RolesAtABetterRoot(br: BridgeState, p: nat, bpdu: Bpdu)
    requires Consistent(br) && p < |br.ports| && Rank(bpdu.rootId) < Rank(br.rootId)
    ensures var br' := Processed(br, p, bpdu);
            && SameButPorts(br, br') && br'.rootId == bpdu.rootId && br'.rootPort == p
            && br'.rootPathCost == CostThrough(br, p, bpdu)
            && br'.ports[p] == br.ports[p].(role := RootPort, best := bpdu)
            && forall i :: 0 <= i < |br.ports| && i != p ==> OnlyRole(br.ports[i], br'.ports[i], DesignatedPort)
  {
    IdCmpIsRankOrder(bpdu.rootId, br.rootId);
  }

  /** The root port stays what it is whatever cost it hears for its root. */
  lemma RolesAtTheRootPort(br: BridgeState, bpdu: Bpdu)
    requires Consistent(br) && br.rootPort >= 0 && bpdu.rootId == br.rootId
    ensures var br' := Processed(br, br.rootPort, bpdu);
            && SameButPorts(br, br') && br'.rootId == br.rootId && br'.rootPort == br.rootPort
            && br'.rootPathCost == CostThrough(br, br.rootPort, bpdu)
            && br'.ports[br.rootPort] == br.ports[br.rootPort].(role := RootPort, best := bpdu)
            && forall i :: 0 <= i < |br.ports| && i != br.rootPort ==> br'.ports[i] == br.ports[i]
  {
    IdCmpIsRankOrder(bpdu.rootId, br.rootId);
  }

  /** A second way to the same root that is not cheaper is blocked: its port becomes alternate and stores the BPDU,
      and nothing else changes. */
  lemma RedundantPortIsBlocked(br: BridgeState, p: nat, bpdu: Bpdu)
    requires Consistent(br) && p < |br.ports| && bpdu.rootId == br.rootId && br.rootPort != -1 && p != br.rootPort
    requires CostThrough(br, p, bpdu) >= br.rootPathCost
    ensures var br' := Processed(br, p, bpdu);
            && SameButPorts(br, br') && br'.rootId == br.rootId && br'.rootPort == br.rootPort
            && br'.rootPathCost == br.rootPathCost
            && br'.ports[p] == br.ports[p].(role := AlternatePort, best := bpdu)
            && forall i :: 0 <= i < |br.ports| && i != p ==> br'.ports[i] == br.ports[i]
  {
    IdCmpIsRankOrder(bpdu.rootId, br.rootId);
  }

  /** A cheaper way to the same root moves the root port, and the old one becomes designated. */
  lemma RolesAtACheaperPath(br: BridgeState, p: nat, bpdu: Bpdu)
    requires Consistent(br) && p < |br.ports| && bpdu.rootId == br.rootId && br.rootPort != -1 && p != br.rootPort
    requires CostThrough(br, p, bpdu) < br.rootPathCost
    ensures var br' := Processed(br, p, bpdu);
            && SameButPorts(br, br') && br'.rootId == br.rootId && br'.rootPort == p
            && br'.rootPathCost == CostThrough(br, p, bpdu)
            && br'.ports[p] == br.ports[p].(role := RootPort, best := bpdu)
            && OnlyRole(br.ports[br.rootPort], br'.ports[br.rootPort], DesignatedPort)
            && forall i :: 0 <= i < |br.ports| && i != p && i != br.rootPort ==> br'.ports[i] == br.ports[i]
  {
    IdCmpIsRankOrder(bpdu.rootId, br.rootId);
  }

  /** Hence two ports that hear one root at equal cost never both forward: whichever hears it second is blocked. */
  lemma EqualPathsLeaveOneForwarding(br: BridgeState, p: nat, q: nat, first: Bpdu, second: Bpdu)
    requires Consistent(br) && p < |br.ports| && q < |br.ports| && p != q
    requires first.rootId == second.rootId && Rank(first.rootId) < Rank(br.rootId)
    requires CostThrough(br, p, first) == CostThrough(br, q, second)
    ensures var br' := Processed(Processed(br, p, first), q, second);
            br'.rootPort == p && br'.ports[p].role == RootPort && br'.ports[q].role == AlternatePort
  {
    hide Processed, CostThrough;
    var mid := Processed(br, p, first);
    RolesAtABetterRoot(br, p, first);
    ProcessedIsConsistent(br, p, first);
    SameCosts(br, mid, q, second);
    RedundantPortIsBlocked(mid, q, second);
  }

  lemma SameCosts(br: BridgeState, br': BridgeState, p: nat, bpdu: Bpdu)
    requires p < |br.ports| == |br'.ports| && br'.ports[p].pathCost == br.ports[p].pathCost
    ensures CostThrough(br', p, bpdu) == CostThrough(br, p, bpdu)
  {
  }

  // ---------------------------------------------------------------- the mutable bridge

  class Bridge {
    var id: BridgeId
    var rootId: BridgeId
    var rootPathCost: u32
    var rootPort: int
    var numPorts: int
    var ports: array<Port>

    ghost predicate Valid()
      reads this
    {
      ports.Length == MAX_PORTS && 0 <= numPorts <= MAX_PORTS && -1 <= rootPort < numPorts
    }

    ghost function State(): BridgeState
      requires Valid()
      reads this, ports
    {
      BridgeState(id, rootId, rootPathCost, rootPort, ports[..numPorts])
    }

    constructor (priority: u16, mac: Mac)
      ensures Valid() && fresh(ports)
      ensures State() == BridgeState(BridgeId(priority, mac), BridgeId(priority, mac), 0, -1, [])
    {
      id := BridgeId(priority, mac);
      rootId := BridgeId(priority, mac);
      rootPathCost, rootPort, numPorts := 0, -1, 0;
      ports := new Port[MAX_PORTS](_ => Port(0, RootPort, 0, ZERO_BPDU));
    }

    /** A caller configures a port by counting it in `num_ports` and initialising it. */
    method PortInit(portId: u16, pathCost: u32)
      requires Valid() && numPorts < MAX_PORTS
      modifies this`numPorts, ports
      ensures Valid()
      ensures State() == old(State()).(ports := old(State()).ports + [Port(portId, DesignatedPort, pathCost, ZERO_BPDU)])
      ensures old(IsInitial(State())) ==> IsInitial(State())
    {
      ports[numPorts] := Port(portId, DesignatedPort, pathCost, ZERO_BPDU);
      numPorts := numPorts + 1;
    }

    /** The port that leads to the new root; every other port becomes designated. */
    method BecomeRootPort(portIdx: nat, bpdu: Bpdu)
      requires Valid() && portIdx < numPorts
      modifies ports
      ensures Valid()
      ensures forall k :: 0 <= k < numPorts ==>
        ports[k] == if k == portIdx then old(ports[k]).(role := RootPort, best := bpdu)
                    else old(ports[k]).(role := DesignatedPort)
    {
      ports[portIdx] := ports[portIdx].(role := RootPort, best := bpdu);
      for i := 0 to numPorts
        invariant ports[portIdx] == old(ports[portIdx]).(role := RootPort, best := bpdu)
        invariant forall k :: 0 <= k < numPorts && k != portIdx ==>
          ports[k] == if k < i then old(ports[k]).(role := DesignatedPort) else old(ports[k])
      {
        if i != portIdx {
          ports[i] := ports[i].(role := DesignatedPort);
        }
      }
    }

    method ProcessBpdu(portIdx: int, bpdu: Bpdu)
      requires Valid()
      modifies this`rootId, this`rootPathCost, this`rootPort, ports
      ensures Valid()
      ensures State() == Processed(old(State()), portIdx, bpdu)
    {
      hide IdCmp;
      ghost var before := State();
      if portIdx < 0 || portIdx >= numPorts {
        return;
      }
      var cmp := IdCmp(bpdu.rootId, rootId);
      if cmp < 0 {
        rootId := bpdu.rootId;
        rootPathCost := Add32(bpdu.cost, ports[portIdx].pathCost);
        rootPort := portIdx;
        BecomeRootPort(portIdx, bpdu);
      } else if cmp == 0 && rootPort == portIdx {
        rootPathCost := Add32(bpdu.cost, ports[portIdx].pathCost);
        ports[portIdx] := ports[portIdx].(best := bpdu);
      } else if cmp == 0 && rootPort != -1 {
        var newCost := Add32(bpdu.cost, ports[portIdx].pathCost);
        if newCost < rootPathCost {
          rootPathCost := newCost;
          ports[rootPort] := ports[rootPort].(role := DesignatedPort);
          rootPort := portIdx;
          ports[portIdx] := ports[portIdx].(role := RootPort, best := bpdu);
        } else {
          ports[portIdx] := ports[portIdx].(role := AlternatePort, best := bpdu);
        }
      }
      assert State().ports == Processed(before, portIdx, bpdu).ports;
    }
  }
}
