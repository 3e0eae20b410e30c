/** What the election settles on: in a connected network of point-to-point links with positive
    costs, the shortest-path tree of the best bridge. */
module StpTree {
  import opened Words
  import opened Stp
  import opened StpNetwork

  // ---------------------------------------------------------------- shortest distances

  /** l is the last hop into v on a shortest way. */
  ghost predicate Tight(t: Topology, dist: seq<nat>, l: Link, v: nat)
    requires ValidTopology(t) && |dist| == |t.bridges|
  {
    l in t.links && l.receiver == v < |dist| && dist[v] == dist[l.sender] + PortCost(t, l)
  }

  ghost predicate HasTight(t: Topology, dist: seq<nat>, v: nat)
    requires ValidTopology(t) && |dist| == |t.bridges|
  {
    exists l :: Tight(t, dist, l, v)
  }

  /** dist[v] is how far bridge v is from bridge m, which every bridge can reach. */
  ghost predicate IsDistance(t: Topology, m: nat, dist: seq<nat>) {
    && ValidTopology(t)
    && |dist| == |t.bridges| && m < |dist| && dist[m] == 0
    && (forall l :: l in t.links ==> dist[l.receiver] <= dist[l.sender] + PortCost(t, l))
    && (forall v :: 0 <= v < |dist| && v != m ==> HasTight(t, dist, v))
  }

  ghost predicate PositiveCosts(t: Topology)
    requires ValidTopology(t)
  {
    forall l :: l in t.links ==> PortCost(t, l) > 0
  }

  /** No port hears two senders. */
  ghost predicate PointToPoint(t: Topology) {
    forall l, l' :: l in t.links && l' in t.links && l.receiver == l'.receiver && l.receiverPort == l'.receiverPort ==>
      l == l'
  }

  /** `dist` is the cost of the cheapest walks: none is cheaper ... */
  lemma {:induction false} NoWalkIsShorter(t: Topology, m: nat, dist: seq<nat>, v: nat, walk: seq<Link>)
    requires IsDistance(t, m, dist) && v < |dist| && IsWalk(t, v, walk, m)
    ensures dist[v] <= WalkCost(t, v, walk, m)
    decreases |walk|
  {
    if walk != [] {
      NoWalkIsShorter(t, m, dist, walk[0].sender, walk[1..]);
    }
  }

  /** ... and some walk is that cheap. */
  lemma {:induction false} SomeWalkIsAsShort(t: Topology, m: nat, dist: seq<nat>, v: nat) returns (walk: seq<Link>)
    requires IsDistance(t, m, dist) && PositiveCosts(t) && v < |dist|
    ensures IsWalk(t, v, walk, m) && WalkCost(t, v, walk, m) == dist[v]
    decreases dist[v]
  {
    if v == m {
      walk := [];
    } else {
      assert HasTight(t, dist, v);
      var l :| Tight(t, dist, l, v);
      var rest := SomeWalkIsAsShort(t, m, dist, l.sender);
      walk := [l] + rest;
      assert walk[1..] == rest;
    }
  }

  // ---------------------------------------------------------------- bounds that always hold

  /** A bridge that has m as root claims at least its distance, and at least that of
      the way through its root port. */
  ghost predicate Modest(t: Topology, m: nat, dist: seq<nat>, v: nat, b: BridgeState)
    requires IsDistance(t, m, dist) && v < |dist|
  {
    b.rootId == t.bridges[m].id && v != m ==>
      && b.rootPathCost >= dist[v]
      && forall l :: l in t.links && l.receiver == v && l.receiverPort == b.rootPort ==>
           b.rootPathCost >= dist[l.sender] + PortCost(t, l)
  }

  lemma {:induction false} AlwaysModest(t: Topology, run: seq<Delivery>, tr: Trace, m: nat, dist: seq<nat>, j: nat, v: nat)
    requires IsTrace(t, run, tr) && NoWrap(t, run, tr) && PointToPoint(t)
    requires IsDistance(t, m, dist) && j <= |run| && v < |dist|
    ensures Modest(t, m, dist, v, tr[j][v])
    decreases j
  {
    if j == 0 {
      if v != m {
        StartsAsItself(t, m, v);
      }
    } else {
      var i := j - 1;
      var link := run[i].link;
      AlwaysModest(t, run, tr, m, dist, i, v);
      AlwaysModest(t, run, tr, m, dist, run[i].sentAt, link.sender);
      ArrivalAt(t, run, tr, i, v);
    }
  }

  lemma StartsAsItself(t: Topology, m: nat, v: nat)
    requires ValidTopology(t) && m < |t.bridges| && v < |t.bridges| && v != m
    ensures t.bridges[v].rootId != t.bridges[m].id
  {
  }

  // ---------------------------------------------------------------- settling

  /** Delays are bounded: what arrives in a round was sent no earlier than the round before. */
  ghost predicate Timely(run: seq<Delivery>, marks: seq<nat>) {
    forall r :: 2 <= r < |marks| ==> TimelyRound(run, marks, r)
  }

  ghost predicate TimelyRound(run: seq<Delivery>, marks: seq<nat>, r: nat)
    requires 2 <= r < |marks|
  {
    FreshFrom(run, marks[r - 1], marks[r - 2])
  }

  ghost predicate FreshFrom(run: seq<Delivery>, from: nat, sent: nat) {
    forall i :: from <= i < |run| ==> sent <= run[i].sentAt
  }

  /** Bridge v has found its root and its distance. */
  ghost predicate Exact(t: Topology, m: nat, dist: seq<nat>, v: nat, b: BridgeState)
    requires IsDistance(t, m, dist) && v < |dist|
  {
    b.rootId == t.bridges[m].id && b.rootPathCost == dist[v]
  }

  /** From arrival `from` on, every bridge nearer than v is exact. */
  ghost predicate NearerExact(t: Topology, run: seq<Delivery>, tr: Trace, m: nat, dist: seq<nat>, v: nat, from: nat)
    requires IsTrace(t, run, tr) && IsDistance(t, m, dist) && v < |dist|
  {
    forall u, j :: 0 <= u < |dist| && dist[u] < dist[v] && from <= j <= |run| ==> Exact(t, m, dist, u, tr[j][u])
  }

  /** A fresh BPDU over a tight link makes its receiver exact. */
  lemma TightArrival(t: Topology, run: seq<Delivery>, tr: Trace, m: nat, dist: seq<nat>, v: nat, from: nat, i: nat)
    requires IsTrace(t, run, tr) && NoWrap(t, run, tr) && PointToPoint(t) && PositiveCosts(t)
    requires IsDistance(t, m, dist) && IsBest(t, m) && v < |dist| && v != m
    requires NearerExact(t, run, tr, m, dist, v, from)
    requires i < |run| && Tight(t, dist, run[i].link, v) && from <= run[i].sentAt
    ensures Exact(t, m, dist, v, tr[i + 1][v])
  {
    var u := run[i].link.sender;
    assert Exact(t, m, dist, u, tr[run[i].sentAt][u]);
    BestRootSticks(t, run, tr, i, m, i + 1);
    AlwaysModest(t, run, tr, m, dist, i + 1, v);
    HasRootPort(t, run, tr, m, i + 1, v);
    ArrivalAt(t, run, tr, i, v);
  }

  lemma HasRootPort(t: Topology, run: seq<Delivery>, tr: Trace, m: nat, j: nat, v: nat)
    requires IsTrace(t, run, tr) && j <= |run| && v < |t.bridges| && m < |t.bridges| && v != m
    requires tr[j][v].rootId == t.bridges[m].id
    ensures tr[j][v].rootPort != -1
  {
    var walk, root := FindWalk(t, run, tr, j, v);
    IdsDiffer(t, root, m);
  }

  lemma IdsDiffer(t: Topology, u: nat, v: nat)
    requires ValidTopology(t) && u < |t.bridges| && v < |t.bridges|
    ensures u != v ==> t.bridges[u].id != t.bridges[v].id
  {
  }

  /** An exact bridge stays exact while only fresh BPDUs arrive: its root port leads to a nearer bridge. */
  lemma ExactStays(t: Topology, run: seq<Delivery>, tr: Trace, m: nat, dist: seq<nat>, v: nat, from: nat, i: nat)
    requires IsTrace(t, run, tr) && NoWrap(t, run, tr) && PointToPoint(t) && PositiveCosts(t)
    requires IsDistance(t, m, dist) && IsBest(t, m) && v < |dist| && v != m
    requires NearerExact(t, run, tr, m, dist, v, from)
    requires i < |run| && from <= run[i].sentAt && Exact(t, m, dist, v, tr[i][v])
    ensures Exact(t, m, dist, v, tr[i + 1][v])
  {
    ArrivalAt(t, run, tr, i, v);
    RootNeverWorsens(t, run, tr, i, i + 1, v);
    NobodyBeatsTheBest(t, run, tr, i + 1, v, m);
    IdCmpIsRankOrder(tr[i + 1][v].rootId, t.bridges[m].id);
    AlwaysModest(t, run, tr, m, dist, i, v);
    AlwaysModest(t, run, tr, m, dist, i + 1, v);
    var l := run[i].link;
    if v == l.receiver && tr[i][v].rootPort == l.receiverPort && dist[l.sender] < dist[v] {
      assert Exact(t, m, dist, l.sender, tr[run[i].sentAt][l.sender]);
    }
  }

  /** What makes an exact bridge inexact again: exactly an arrival on its root port, from a sender with
      the same root, that offers more than the distance. */
  lemma ExactUnlessStale(t: Topology, run: seq<Delivery>, tr: Trace, m: nat, dist: seq<nat>, v: nat, i: nat)
    requires IsTrace(t, run, tr) && NoWrap(t, run, tr) && PointToPoint(t)
    requires IsDistance(t, m, dist) && IsBest(t, m) && v < |dist| && v != m
    requires i < |run| && Exact(t, m, dist, v, tr[i][v])
    ensures Exact(t, m, dist, v, tr[i + 1][v]) <==>
      !(run[i].link.receiver == v && run[i].link.receiverPort == tr[i][v].rootPort
        && SentState(t, run, tr, i).rootId == t.bridges[m].id && Offer(t, run, tr, i) > dist[v])
  {
    ArrivalAt(t, run, tr, i, v);
    RootNeverWorsens(t, run, tr, i, i + 1, v);
    NobodyBeatsTheBest(t, run, tr, i + 1, v, m);
    IdCmpIsRankOrder(tr[i + 1][v].rootId, t.bridges[m].id);
    AlwaysModest(t, run, tr, m, dist, i, v);
    AlwaysModest(t, run, tr, m, dist, i + 1, v);
  }

  lemma {:induction false} ExactForGood(t: Topology, run: seq<Delivery>, tr: Trace, m: nat, dist: seq<nat>, v: nat,
                                        from: nat, i: nat, j: nat)
    requires IsTrace(t, run, tr) && NoWrap(t, run, tr) && PointToPoint(t) && PositiveCosts(t)
    requires IsDistance(t, m, dist) && IsBest(t, m) && v < |dist| && v != m
    requires NearerExact(t, run, tr, m, dist, v, from)
    requires i <= j <= |run| && Exact(t, m, dist, v, tr[i][v])
    requires FreshFrom(run, i, from)
    ensures Exact(t, m, dist, v, tr[j][v])
    decreases j - i
  {
    if i < j {
      ExactForGood(t, run, tr, m, dist, v, from, i, j - 1);
      ExactStays(t, run, tr, m, dist, v, from, j - 1);
    }
  }

  /** How many bridges are nearer to m than v. */
  ghost function Nearer(dist: seq<nat>, v: nat): set<nat>
    requires v < |dist|
  {
    set u | 0 <= u < |dist| && dist[u] < dist[v]
  }

  lemma NearerIsFewer(dist: seq<nat>, u: nat, v: nat)
    requires u < |dist| && v < |dist| && dist[u] < dist[v]
    ensures |Nearer(dist, u)| < |Nearer(dist, v)|
  {
    assert u in Nearer(dist, v) && u !in Nearer(dist, u);
    Fewer(Nearer(dist, u), Nearer(dist, v), u);
  }

  lemma Fewer(a: set<nat>, b: set<nat>, x: nat)
    requires a <= b && x in b && x !in a
    ensures |a| < |b|
  {
    assert b == a + (b - a) && x in b - a;
    assert |b| == |a| + |b - a|;
  }

  lemma {:induction false} SizeOfRange(s: set<nat>, n: nat)
    requires forall u :: u in s ==> u < n
    ensures |s| <= n
    decreases n
  {
    if n > 0 {
      SizeOfRange(s - {n - 1}, n - 1);
    } else {
      assert s == {};
    }
  }

  /** Once the nearer bridges are exact, two more rounds make v exact for good: in the second,
      nothing older than the first arrives any more, and the tight link is crossed. */
  lemma SettlesNext(t: Topology, run: seq<Delivery>, tr: Trace, marks: seq<nat>, m: nat, dist: seq<nat>,
                    r: nat, v: nat, j: nat)
    requires IsTrace(t, run, tr) && NoWrap(t, run, tr) && PointToPoint(t) && PositiveCosts(t)
    requires IsDistance(t, m, dist) && IsBest(t, m) && v < |dist| && v != m
    requires AreRounds(t, run, marks) && Timely(run, marks) && 2 <= r < |marks| && marks[r] <= j <= |run|
    requires NearerExact(t, run, tr, m, dist, v, marks[r - 2])
    ensures Exact(t, m, dist, v, tr[j][v])
  {
    hide NearerExact, Exact, NoWrap, PositiveCosts, PointToPoint;
    assert HasTight(t, dist, v);
    var l :| Tight(t, dist, l, v);
    var i := FindCrossing(t, run, marks, r, l);
    RoundsAscend(t, run, marks, r - 1);
    TightArrival(t, run, tr, m, dist, v, marks[r - 2], i);
    assert TimelyRound(run, marks, r);
    ExactForGood(t, run, tr, m, dist, v, marks[r - 2], i + 1, j);
  }

  /** A bridge with no more than k bridges nearer to the root is exact after 2 * k rounds, for good. */
  lemma {:induction false} Settles(t: Topology, run: seq<Delivery>, tr: Trace, marks: seq<nat>, m: nat, dist: seq<nat>,
                                   k: nat, v: nat, j: nat)
    requires IsTrace(t, run, tr) && NoWrap(t, run, tr) && PointToPoint(t) && PositiveCosts(t)
    requires IsDistance(t, m, dist) && RootStays(t, run, tr, m) && IsBest(t, m) && v < |dist|
    requires AreRounds(t, run, marks) && Timely(run, marks) && 2 * k < |marks| && marks[2 * k] <= j <= |run|
    requires |Nearer(dist, v)| <= k
    ensures Exact(t, m, dist, v, tr[j][v])
    decreases k
  {
    hide Exact, NoWrap, PositiveCosts, PointToPoint, Timely, Nearer, AreRounds, IsBest;
    if v == m {
      RootIsExact(t, run, tr, m, dist, j);
    } else {
      RootIsNearer(t, m, dist, v);
      forall u, i | 0 <= u < |dist| && dist[u] < dist[v] && marks[2 * (k - 1)] <= i <= |run|
        ensures Exact(t, m, dist, u, tr[i][u])
      {
        NearerIsFewer(dist, u, v);
        Settles(t, run, tr, marks, m, dist, k - 1, u, i);
      }
      SettlesNext(t, run, tr, marks, m, dist, 2 * k, v, j);
    }
  }

  lemma RootIsNearer(t: Topology, m: nat, dist: seq<nat>, v: nat)
    requires IsDistance(t, m, dist) && PositiveCosts(t) && v < |dist| && v != m
    ensures |Nearer(dist, v)| > 0
  {
    assert HasTight(t, dist, v);
    var l :| Tight(t, dist, l, v);
    NearerIsFewer(dist, l.sender, v);
  }

  lemma RoundsAscend(t: Topology, run: seq<Delivery>, marks: seq<nat>, r: nat)
    requires AreRounds(t, run, marks) && 1 <= r < |marks|
    ensures marks[r - 1] <= marks[r] <= |run|
  {
    assert IsRound(t, run, marks[r - 1], marks[r]);
  }

  /** The best bridge is its own root, at cost 0, throughout. */
  ghost predicate RootStays(t: Topology, run: seq<Delivery>, tr: Trace, m: nat)
    requires IsTrace(t, run, tr) && m < |t.bridges|
  {
    forall j :: 0 <= j <= |run| ==> tr[j][m].rootId == t.bridges[m].id && tr[j][m].rootPathCost == 0
  }

  lemma RootIsExact(t: Topology, run: seq<Delivery>, tr: Trace, m: nat, dist: seq<nat>, j: nat)
    requires IsTrace(t, run, tr) && IsDistance(t, m, dist) && RootStays(t, run, tr, m) && j <= |run|
    ensures Exact(t, m, dist, m, tr[j][m])
  {
  }

  lemma BestStays(t: Topology, run: seq<Delivery>, tr: Trace, m: nat)
    requires ValidRun(t, run) && Records(t, run, tr) && IsTrace(t, run, tr) && IsBest(t, m)
    ensures RootStays(t, run, tr, m)
  {
    forall j | 0 <= j <= |run| ensures tr[j][m].rootId == t.bridges[m].id && tr[j][m].rootPathCost == 0 {
      BestKeepsItself(t, run, tr, m, j);
      assert tr[j] == At(t, run, j);
    }
  }

  // ---------------------------------------------------------------- the tree

  /** The root port of v receives from a bridge nearer to the root by exactly the port's cost. */
  ghost predicate ParentIsNearer(t: Topology, dist: seq<nat>, v: nat, b: BridgeState)
    requires ValidTopology(t) && |dist| == |t.bridges|
  {
    exists l :: Tight(t, dist, l, v) && l.receiverPort == b.rootPort
  }

  lemma ExactParent(t: Topology, run: seq<Delivery>, tr: Trace, m: nat, dist: seq<nat>, v: nat, j: nat)
    requires IsTrace(t, run, tr) && NoWrap(t, run, tr) && PointToPoint(t)
    requires IsDistance(t, m, dist) && v < |dist| && v != m && j <= |run|
    requires Exact(t, m, dist, v, tr[j][v])
    ensures ParentIsNearer(t, dist, v, tr[j][v])
  {
    var walk, root := FindWalk(t, run, tr, j, v);
    IdsDiffer(t, root, m);
    AlwaysModest(t, run, tr, m, dist, j, v);
    assert walk != [];
    assert Tight(t, dist, walk[0], v);
  }

  lemma TreeForDistances(t: Topology, run: seq<Delivery>, tr: Trace, marks: seq<nat>, m: nat, dist: seq<nat>, j: nat, v: nat)
    requires IsTrace(t, run, tr) && NoWrap(t, run, tr) && IsBest(t, m) && RootStays(t, run, tr, m)
    requires PointToPoint(t) && PositiveCosts(t) && IsDistance(t, m, dist)
    requires AreRounds(t, run, marks) && Timely(run, marks)
    requires 2 * (|dist| - 1) < |marks| && marks[2 * (|dist| - 1)] <= j <= |run| && v < |dist|
    ensures Exact(t, m, dist, v, tr[j][v])
    ensures v != m ==> ParentIsNearer(t, dist, v, tr[j][v])
  {
    hide Exact, NoWrap, PositiveCosts, PointToPoint, Timely, AreRounds, ParentIsNearer;
    NotNearerThanItself(dist, v);
    Settles(t, run, tr, marks, m, dist, |dist| - 1, v, j);
    if v != m {
      ExactParent(t, run, tr, m, dist, v, j);
    }
  }

  lemma NotNearerThanItself(dist: seq<nat>, v: nat)
    requires v < |dist|
    ensures |Nearer(dist, v)| <= |dist| - 1
  {
    var all := Nearer(dist, v) + {v};
    assert v !in Nearer(dist, v);
    SizeOfRange(all, |dist|);
  }

  // ---------------------------------------------------------------- connected networks

  /** c is the cost of a cheapest walk from v to m. */
  ghost predicate IsShortest(t: Topology, v: nat, m: nat, c: nat)
    requires ValidTopology(t)
  {
    && IsCostOfWalk(t, v, m, c)
    && forall walk :: IsWalk(t, v, walk, m) ==> c <= WalkCost(t, v, walk, m)
  }

  ghost predicate IsCostOfWalk(t: Topology, v: nat, m: nat, c: nat)
    requires ValidTopology(t)
  {
    exists walk :: IsWalk(t, v, walk, m) && WalkCost(t, v, walk, m) == c
  }

  ghost predicate Reaches(t: Topology, v: nat, m: nat) {
    exists walk :: IsWalk(t, v, walk, m)
  }

  /** Every bridge has a walk to m. */
  ghost predicate Connected(t: Topology, m: nat) {
    forall v :: 0 <= v < |t.bridges| ==> Reaches(t, v, m)
  }

  /** Descent on the cost: below any walk there is a cheapest one. */
  lemma {:induction false} CheapestWalk(t: Topology, v: nat, m: nat, walk: seq<Link>) returns (c: nat)
    requires ValidTopology(t) && IsWalk(t, v, walk, m)
    ensures IsShortest(t, v, m, c)
    decreases WalkCost(t, v, walk, m)
  {
    if other :| IsWalk(t, v, other, m) && WalkCost(t, v, other, m) < WalkCost(t, v, walk, m) {
      c := CheapestWalk(t, v, m, other);
    } else {
      c := WalkCost(t, v, walk, m);
    }
  }

  /** The table of the cheapest costs of the first n bridges. */
  lemma {:induction false} CheapestCosts(t: Topology, m: nat, n: nat) returns (dist: seq<nat>)
    requires ValidTopology(t) && Connected(t, m) && n <= |t.bridges|
    ensures |dist| == n && forall v :: 0 <= v < n ==> IsShortest(t, v, m, dist[v])
  {
    if n == 0 {
      dist := [];
    } else {
      var front := CheapestCosts(t, m, n - 1);
      assert Reaches(t, n - 1, m);
      var walk :| IsWalk(t, n - 1, walk, m);
      var c := CheapestWalk(t, n - 1, m, walk);
      dist := front + [c];
    }
  }

  lemma OneLinkMore(t: Topology, m: nat, dist: seq<nat>, l: Link)
    requires ValidTopology(t) && |dist| == |t.bridges| && l in t.links
    requires forall v :: 0 <= v < |dist| ==> IsShortest(t, v, m, dist[v])
    ensures dist[l.receiver] <= dist[l.sender] + PortCost(t, l)
  {
    assert IsShortest(t, l.sender, m, dist[l.sender]) && IsShortest(t, l.receiver, m, dist[l.receiver]);
    var rest :| IsWalk(t, l.sender, rest, m) && WalkCost(t, l.sender, rest, m) == dist[l.sender];
    var walk := [l] + rest;
    assert walk[1..] == rest;
    assert IsWalk(t, l.receiver, walk, m);
  }

  lemma FirstLinkIsTight(t: Topology, m: nat, dist: seq<nat>, v: nat)
    requires ValidTopology(t) && |dist| == |t.bridges| && v < |dist| && v != m
    requires forall u :: 0 <= u < |dist| ==> IsShortest(t, u, m, dist[u])
    ensures HasTight(t, dist, v)
  {
    assert IsShortest(t, v, m, dist[v]);
    var walk: seq<Link> :| IsWalk(t, v, walk, m) && WalkCost(t, v, walk, m) == dist[v];
    assert walk != [];
    var l := walk[0];
    assert IsShortest(t, l.sender, m, dist[l.sender]) && IsWalk(t, l.sender, walk[1..], m);
    OneLinkMore(t, m, dist, l);
    assert Tight(t, dist, l, v);
  }

  lemma CheapestToItself(t: Topology, m: nat, c: nat)
    requires ValidTopology(t) && IsShortest(t, m, m, c)
    ensures c == 0
  {
    assert IsWalk(t, m, [], m);
  }

  /** A connected topology has distances. */
  lemma DistancesExist(t: Topology, m: nat) returns (dist: seq<nat>)
    requires ValidTopology(t) && m < |t.bridges| && Connected(t, m)
    ensures IsDistance(t, m, dist)
    ensures forall v :: 0 <= v < |dist| ==> IsShortest(t, v, m, dist[v])
  {
    hide IsShortest;
    dist := CheapestCosts(t, m, |t.bridges|);
    CheapestToItself(t, m, dist[m]);
    forall l | l in t.links ensures dist[l.receiver] <= dist[l.sender] + PortCost(t, l) {
      OneLinkMore(t, m, dist, l);
    }
    forall v | 0 <= v < |dist| && v != m ensures HasTight(t, dist, v) {
      FirstLinkIsTight(t, m, dist, v);
    }
  }

  /** The root port of v receives from a bridge whose cost is less by exactly the port's cost. */
  ghost predicate HasParent(t: Topology, net: seq<BridgeState>, v: nat)
    requires ValidTopology(t) && |net| == |t.bridges| && v < |net|
  {
    exists l :: IsParentLink(t, net, v, l)
  }

  ghost predicate IsParentLink(t: Topology, net: seq<BridgeState>, v: nat, l: Link)
    requires ValidTopology(t) && |net| == |t.bridges| && v < |net|
  {
    && l in t.links && l.receiver == v && l.receiverPort == net[v].rootPort
    && net[v].rootPathCost == net[l.sender].rootPathCost + PortCost(t, l)
  }

  /** The trees of the last two sections, put together on the recorded trace. */
  lemma TreeOnTrace(t: Topology, run: seq<Delivery>, tr: Trace, marks: seq<nat>, m: nat, j: nat, v: nat)
    requires IsTrace(t, run, tr) && NoWrap(t, run, tr) && IsBest(t, m) && RootStays(t, run, tr, m)
    requires Connected(t, m) && PointToPoint(t) && PositiveCosts(t)
    requires AreRounds(t, run, marks) && Timely(run, marks) && 2 * (|t.bridges| - 1) < |marks|
    requires marks[2 * (|t.bridges| - 1)] <= j <= |run| && v < |t.bridges|
    ensures tr[j][v].rootId == t.bridges[m].id && IsShortest(t, v, m, tr[j][v].rootPathCost)
    ensures v != m ==> HasParent(t, tr[j], v)
  {
    hide IsShortest, Connected, Timely, AreRounds, PointToPoint, PositiveCosts, NoWrap, RootStays;
    var dist := DistancesExist(t, m);
    TreeForDistances(t, run, tr, marks, m, dist, j, v);
    if v != m {
      var l :| Tight(t, dist, l, v) && l.receiverPort == tr[j][v].rootPort;
      TreeForDistances(t, run, tr, marks, m, dist, j, l.sender);
      assert IsParentLink(t, tr[j], v, l);
    }
  }

  /** In a connected network of n bridges with point-to-point links and positive costs, 2 * (n - 1) timely
      rounds leave every bridge with the best bridge as root and the cost of a cheapest walk there, and
      every other bridge with one root-role port, leading to a bridge nearer by exactly that port's
      cost: the root ports are a shortest-path tree, free of cycles, from then on. */
  lemma ShortestPathTree(t: Topology, run: seq<Delivery>, marks: seq<nat>, m: nat, j: nat, v: nat)
    requires ValidRun(t, run) && SumsFit(t, run)
    requires IsBest(t, m) && Connected(t, m) && PointToPoint(t) && PositiveCosts(t)
    requires AreRounds(t, run, marks) && Timely(run, marks) && 2 * (|t.bridges| - 1) < |marks|
    requires marks[2 * (|t.bridges| - 1)] <= j <= |run| && v < |t.bridges|
    ensures At(t, run, j)[v].rootId == t.bridges[m].id
    ensures IsShortest(t, v, m, At(t, run, j)[v].rootPathCost)
    ensures v != m ==> HasParent(t, At(t, run, j), v)
    ensures RootRolePorts(At(t, run, j)[v]) == if v == m then {} else {At(t, run, j)[v].rootPort}
  {
    hide IsShortest, Connected, Timely, AreRounds, PointToPoint, PositiveCosts, HasParent, SumsFit;
    var tr := Record(t, run);
    SumsFitTheTrace(t, run, tr);
    BestStays(t, run, tr, m);
    TreeOnTrace(t, run, tr, marks, m, j, v);
    assert tr[j] == At(t, run, j);
    IdsDiffer(t, v, m);
    RootRoleIsRootPort(At(t, run, j)[v]);
  }
}
