/** The longest-prefix-match routing table: a flat array that behaves like a map
    from (network, prefix length) to the next hop. */
module Lpm {
  import opened Words
  import opened Bitwise
  import Cidr

  datatype Route = Route(prefix: u32, prefixLen: nat, nextHop: u32, iface: int)

  datatype Key = Key(network: nat, len: nat)

  datatype Hop = Hop(nextHop: u32, iface: int)

  function KeyOf(r: Route): Key { Key(r.prefix, r.prefixLen) }

  function HopOf(r: Route): Hop { Hop(r.nextHop, r.iface) }

  /** An address cut to a prefix length. */
  function Cut(x: u32, len: nat): (r: u32)
    requires len <= 32
  {
    AndIsSmaller(x, Cidr.Mask(len));
    And(x, Cidr.Mask(len))
  }

  lemma {:induction false} AndIsSmaller(x: nat, y: nat)
    ensures And(x, y) <= x
  {
    if x > 0 && y > 0 {
      AndIsSmaller(x / 2, y / 2);
    }
  }

  /** Cutting twice is cutting once, so a stored prefix compares like any address. */
  lemma CutTwice(x: u32, len: nat)
    requires len <= 32
    ensures Cut(Cut(x, len), len) == Cut(x, len)
  {
    hide And, Cidr.Mask, Cidr.Top, Pow2;
    var k, n := 32 - len, Cut(x, len);
    Cidr.MaskComparesTops(x, n, len);
    Cidr.TopIsAnInterval(n, k, Cidr.Top(x, k));
  }

  // ---------------------------------------------------------------- arrays of routes as maps

  predicate Masked(r: Route) {
    r.prefixLen <= 32 && Cut(r.prefix, r.prefixLen) == r.prefix
  }

  predicate Distinct(rs: seq<Route>) {
    forall i, j :: 0 <= i < j < |rs| ==> KeyOf(rs[i]) != KeyOf(rs[j])
  }

  /** rs lists the map m, each key once. */
  ghost predicate Lists(rs: seq<Route>, m: map<Key, Hop>) {
    && (forall i :: 0 <= i < |rs| ==> KeyOf(rs[i]) in m && m[KeyOf(rs[i])] == HopOf(rs[i]))
    && (forall k :: k in m ==> exists i :: 0 <= i < |rs| && KeyOf(rs[i]) == k)
  }

  ghost predicate Table(rs: seq<Route>, m: map<Key, Hop>) {
    (forall i :: 0 <= i < |rs| ==> Masked(rs[i])) && Distinct(rs) && Lists(rs, m)
  }

  lemma WithoutLast(rs: seq<Route>, m: map<Key, Hop>)
    requires Distinct(rs) && Lists(rs, m) && rs != []
    ensures KeyOf(rs[|rs| - 1]) in m
    ensures Distinct(rs[..|rs| - 1]) && Lists(rs[..|rs| - 1], m - {KeyOf(rs[|rs| - 1])})
  {
    var last := |rs| - 1;
    var t, less := rs[..last], m - {KeyOf(rs[last])};
    forall k | k in less ensures exists i :: 0 <= i < last && KeyOf(t[i]) == k {
      var i :| 0 <= i < |rs| && KeyOf(rs[i]) == k;
      assert t[i] == rs[i];
    }
  }

  lemma {:induction false} ListSize(rs: seq<Route>, m: map<Key, Hop>)
    requires Distinct(rs) && Lists(rs, m)
    ensures |m| == |rs|
    decreases |rs|
  {
    if rs == [] {
      assert m == map[];
    } else {
      hide Distinct, Lists;
      WithoutLast(rs, m);
      MapMinusOne(m, KeyOf(rs[|rs| - 1]));
      ListSize(rs[..|rs| - 1], m - {KeyOf(rs[|rs| - 1])});
    }
  }

  lemma TableSize(rs: seq<Route>, m: map<Key, Hop>)
    requires Table(rs, m)
    ensures |m| == |rs|
  {
    ListSize(rs, m);
  }

  // ---------------------------------------------------------------- the longest match

  predicate Matches(k: Key, dst: u32) {
    k.len <= 32 && Cut(dst, k.len) == k.network
  }

  /** k is the longest key of m that covers dst. */
  ghost predicate Longest(m: map<Key, Hop>, dst: u32, k: Key) {
    k in m && Matches(k, dst) && forall o :: o in m && Matches(o, dst) ==> o.len <= k.len
  }

  /** A stored route matches exactly the addresses of its block. */
  lemma MatchingIsContainment(r: Route, dst: u32)
    requires Masked(r)
    ensures Matches(KeyOf(r), dst) <==> Cidr.Contains(Cidr.Block(r.prefix, r.prefixLen), dst)
    ensures Matches(KeyOf(r), dst) <==>
              Cidr.Network(Cidr.Block(r.prefix, r.prefixLen)) <= dst <= Cidr.Broadcast(Cidr.Block(r.prefix, r.prefixLen))
  {
    hide And, Cidr.Mask, Cidr.Network, Cidr.Broadcast;
    Cidr.BlockIsARange(Cidr.Block(r.prefix, r.prefixLen), dst);
  }

  /** There is at most one: matching keys of one length are equal. */
  lemma LongestIsUnique(m: map<Key, Hop>, dst: u32, a: Key, b: Key)
    requires Longest(m, dst, a) && Longest(m, dst, b)
    ensures a == b
  {
  }

  /** Keys that match one address are nested blocks. */
  lemma MatchesNest(dst: u32, a: Key, b: Key, ip: u32)
    requires Matches(a, dst) && Matches(b, dst) && a.len <= b.len && Matches(b, ip)
    ensures Matches(a, ip)
  {
    hide And, Cidr.Mask;
    Cidr.PrefixesNest(ip, dst, a.len, b.len);
  }

  // ---------------------------------------------------------------- the table

  class RouteTable {
    const routes: array<Route>
    var count: nat
    ghost var table: map<Key, Hop>

    ghost predicate Valid()
      reads this, routes
    {
      count <= routes.Length && Table(routes[..count], table)
    }

    constructor (capacity: nat)
      ensures Valid() && fresh(routes) && table == map[] && routes.Length == capacity
    {
      routes := new Route[capacity](_ => Route(0, 0, 0, 0));
      count, table := 0, map[];
    }

    /** Where a route of that length and network stands; count when there is none. */
    method Find(prefix: u32, prefixLen: nat) returns (i: nat)
      requires Valid() && prefixLen <= 32
      ensures i <= count
      ensures i < count ==> KeyOf(routes[i]) == Key(Cut(prefix, prefixLen), prefixLen)
      ensures i == count <==> Key(Cut(prefix, prefixLen), prefixLen) !in table
    {
      hide Cidr.Mask, And;
      var mask := Cidr.Mask(prefixLen);
      ghost var rs := routes[..count];
      i := 0;
      while i < count
        invariant i <= count
        invariant forall j :: 0 <= j < i ==> KeyOf(rs[j]) != Key(Cut(prefix, prefixLen), prefixLen)
      {
        assert rs[i] == routes[i] && Masked(rs[i]);
        if routes[i].prefixLen == prefixLen && And(routes[i].prefix, mask) == And(prefix, mask) {
          return;
        }
        i := i + 1;
      }
    }

    /** Adds or replaces; refused for a bad length, or for a new key when the table is full. */
    method Add(prefix: u32, prefixLen: nat, nextHop: u32, iface: int) returns (ok: bool)
      requires Valid()
      modifies this, routes
      ensures Valid()
      ensures ok <==>
        prefixLen <= 32 && (Key(Cut(prefix, prefixLen), prefixLen) in old(table) || |old(table)| < routes.Length)
      ensures table == if ok then old(table)[Key(Cut(prefix, prefixLen), prefixLen) := Hop(nextHop, iface)]
                       else old(table)
    {
      hide Table, Cut;
      if prefixLen > 32 {
        return false;
      }
      ghost var rs := routes[..count];
      TableSize(rs, table);
      var i := Find(prefix, prefixLen);
      var route := Route(Cut(prefix, prefixLen), prefixLen, nextHop, iface);
      CutTwice(prefix, prefixLen);
      if i < count {
        ReplaceKeepsTable(rs, table, i, route);
        routes[i] := route;
        table := table[KeyOf(route) := HopOf(route)];
        assert routes[..count] == rs[i := route];
        return true;
      }
      if count >= routes.Length {
        return false;
      }
      AppendKeepsTable(rs, table, route);
      routes[count] := route;
      count := count + 1;
      table := table[KeyOf(route) := HopOf(route)];
      assert routes[..count] == rs + [route];
      return true;
    }

    /** Removes by moving the last route into the gap. */
    method Remove(prefix: u32, prefixLen: nat) returns (ok: bool)
      requires Valid()
      modifies this, routes
      ensures Valid()
      ensures ok <==> prefixLen <= 32 && Key(Cut(prefix, prefixLen), prefixLen) in old(table)
      ensures table == if ok then old(table) - {Key(Cut(prefix, prefixLen), prefixLen)} else old(table)
    {
      hide Table, Cut;
      if prefixLen > 32 {
        return false;
      }
      var i := Find(prefix, prefixLen);
      if i == count {
        return false;
      }
      ghost var rs := routes[..count];
      RemoveKeepsTable(rs, table, i);
      table := table - {KeyOf(routes[i])};
      routes[i] := routes[count - 1];
      count := count - 1;
      assert routes[..count] == rs[i := rs[count]][..count];
      return true;
    }

    /** The longest match of the map, whatever the order of the array; None when nothing matches. */
    method Lookup(dst: u32) returns (best: Option<Route>)
      requires Valid()
      ensures best.Some? ==> Longest(table, dst, KeyOf(best.value)) && table[KeyOf(best.value)] == HopOf(best.value)
      ensures best.None? <==> forall k :: k in table ==> !Matches(k, dst)
    {
      hide Cidr.Mask, And;
      best := None;
      var bestLen: int := -1;
      ghost var rs := routes[..count];
      var i := 0;
      while i < count
        invariant i <= count
        invariant bestLen == if best.Some? then best.value.prefixLen else -1
        invariant best.Some? ==> best.value in rs && Matches(KeyOf(best.value), dst)
        invariant forall j :: 0 <= j < i && Matches(KeyOf(rs[j]), dst) ==> rs[j].prefixLen <= bestLen
      {
        var r := routes[i];
        assert r == rs[i] && Masked(rs[i]);
        var mask := Cidr.Mask(r.prefixLen);
        if And(dst, mask) == And(r.prefix, mask) {
          if r.prefixLen > bestLen {
            best := Some(r);
            bestLen := r.prefixLen;
          }
        }
        i := i + 1;
      }
      if best.Some? {
        BestIsLongest(rs, table, dst, best.value);
      } else {
        NoneMatches(rs, table, dst);
      }
    }
  }

  lemma ReplaceKeepsTable(rs: seq<Route>, m: map<Key, Hop>, i: nat, r: Route)
    requires Table(rs, m) && i < |rs| && Masked(r) && KeyOf(r) == KeyOf(rs[i])
    ensures Table(rs[i := r], m[KeyOf(r) := HopOf(r)])
  {
    hide Cut;
    var t, next := rs[i := r], m[KeyOf(r) := HopOf(r)];
    forall k | k in next ensures exists j :: 0 <= j < |t| && KeyOf(t[j]) == k {
      var j :| 0 <= j < |rs| && KeyOf(rs[j]) == k;
      assert KeyOf(t[j]) == k;
    }
  }

  lemma AppendKeepsTable(rs: seq<Route>, m: map<Key, Hop>, r: Route)
    requires Table(rs, m) && Masked(r) && KeyOf(r) !in m
    ensures Table(rs + [r], m[KeyOf(r) := HopOf(r)])
  {
    hide Cut;
    var t, next := rs + [r], m[KeyOf(r) := HopOf(r)];
    forall k | k in next ensures exists j :: 0 <= j < |t| && KeyOf(t[j]) == k {
      if k == KeyOf(r) {
        assert KeyOf(t[|rs|]) == k;
      } else {
        var j :| 0 <= j < |rs| && KeyOf(rs[j]) == k;
        assert KeyOf(t[j]) == k;
      }
    }
  }

  lemma RemoveKeepsTable(rs: seq<Route>, m: map<Key, Hop>, i: nat)
    requires Table(rs, m) && i < |rs|
    ensures Table(rs[i := rs[|rs| - 1]][..|rs| - 1], m - {KeyOf(rs[i])})
  {
    hide Cut;
    var last := |rs| - 1;
    var t := rs[i := rs[last]][..last];
    forall k | k in m - {KeyOf(rs[i])} ensures exists j :: 0 <= j < |t| && KeyOf(t[j]) == k {
      var j :| 0 <= j < |rs| && KeyOf(rs[j]) == k;
      assert KeyOf(t[if j == last then i else j]) == k;
    }
  }

  lemma BestIsLongest(rs: seq<Route>, m: map<Key, Hop>, dst: u32, best: Route)
    requires Table(rs, m) && best in rs && Matches(KeyOf(best), dst)
    requires forall j :: 0 <= j < |rs| && Matches(KeyOf(rs[j]), dst) ==> rs[j].prefixLen <= best.prefixLen
    ensures Longest(m, dst, KeyOf(best)) && m[KeyOf(best)] == HopOf(best)
  {
    hide Cut;
    forall k | k in m && Matches(k, dst) ensures k.len <= best.prefixLen {
      var j :| 0 <= j < |rs| && KeyOf(rs[j]) == k;
    }
  }

  lemma NoneMatches(rs: seq<Route>, m: map<Key, Hop>, dst: u32)
    requires Table(rs, m) && forall j :: 0 <= j < |rs| ==> !Matches(KeyOf(rs[j]), dst)
    ensures forall k :: k in m ==> !Matches(k, dst)
  {
    hide Cut;
    forall k | k in m ensures !Matches(k, dst) {
      var j :| 0 <= j < |rs| && KeyOf(rs[j]) == k;
    }
  }
}
