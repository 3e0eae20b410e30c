/** The switch's MAC table: slots with a valid flag that behave like a map
    from (address, VLAN) to where and when a station was last seen. */
module MacTable {
  import opened Words

  type Mac = seq<byte>

  datatype Entry = Entry(mac: Mac, port: int, vlan: u16, lastSeen: u32, valid: bool)

  datatype Key = Key(mac: Mac, vlan: u16)

  datatype Seen = Seen(port: int, tick: u32)

  function KeyOf(e: Entry): Key { Key(e.mac, e.vlan) }

  function SeenOf(e: Entry): Seen { Seen(e.port, e.lastSeen) }

  predicate Is(e: Entry, k: Key) { e.valid && KeyOf(e) == k }

  predicate NoRepeats(slots: seq<Entry>) {
    forall i, j :: 0 <= i < j < |slots| && slots[i].valid && slots[j].valid ==> KeyOf(slots[i]) != KeyOf(slots[j])
  }

  ghost predicate Agrees(slots: seq<Entry>, m: map<Key, Seen>) {
    forall i :: 0 <= i < |slots| && slots[i].valid ==> KeyOf(slots[i]) in m && m[KeyOf(slots[i])] == SeenOf(slots[i])
  }

  ghost predicate Covers(slots: seq<Entry>, m: map<Key, Seen>) {
    forall k :: k in m ==> exists i :: 0 <= i < |slots| && Is(slots[i], k)
  }

  /** The valid slots list the map m, each key once. */
  ghost predicate Holds(slots: seq<Entry>, m: map<Key, Seen>) {
    NoRepeats(slots) && Agrees(slots, m) && Covers(slots, m)
  }

  function CountValid(slots: seq<Entry>): nat {
    if slots == [] then 0 else CountValid(slots[..|slots| - 1]) + if slots[|slots| - 1].valid then 1 else 0
  }

  // ---------------------------------------------------------------- what the operations mean

  /** A station already listed always moves; a new one needs a free slot. */
  function Learned(m: map<Key, Seen>, capacity: nat, k: Key, seen: Seen): map<Key, Seen> {
    if k in m || |m| < capacity then m[k := seen] else m
  }

  function PortOf(m: map<Key, Seen>, k: Key): int {
    if k in m then m[k].port else -1
  }

  function Age(now: u32, seen: Seen): u32 { Sub32(now, seen.tick) }

  /** Entries of that age or older go; ages are 32-bit differences of the clock. */
  function Aged(m: map<Key, Seen>, now: u32, limit: u32): map<Key, Seen> {
    map k | k in m && Age(now, m[k]) < limit :: m[k]
  }

  // ---------------------------------------------------------------- slots and maps

  lemma WithoutLast(slots: seq<Entry>, m: map<Key, Seen>)
    requires Holds(slots, m) && slots != []
    ensures var e := slots[|slots| - 1];
            if e.valid then KeyOf(e) in m && Holds(slots[..|slots| - 1], m - {KeyOf(e)})
            else Holds(slots[..|slots| - 1], m)
  {
    var t, e := slots[..|slots| - 1], slots[|slots| - 1];
    var less := if e.valid then m - {KeyOf(e)} else m;
    forall k | k in less ensures exists i :: 0 <= i < |t| && Is(t[i], k) {
      var i :| 0 <= i < |slots| && Is(slots[i], k);
      assert t[i] == slots[i];
    }
  }

  lemma {:induction false} HoldsSize(slots: seq<Entry>, m: map<Key, Seen>)
    requires Holds(slots, m)
    ensures |m| == CountValid(slots)
    decreases |slots|
  {
    if slots == [] {
      assert m == map[];
    } else {
      hide Holds;
      WithoutLast(slots, m);
      var e := slots[|slots| - 1];
      if e.valid {
        MapMinusOne(m, KeyOf(e));
        HoldsSize(slots[..|slots| - 1], m - {KeyOf(e)});
      } else {
        HoldsSize(slots[..|slots| - 1], m);
      }
    }
  }

  lemma {:induction false} CountBound(slots: seq<Entry>)
    ensures CountValid(slots) <= |slots|
    ensures CountValid(slots) == |slots| <==> forall i :: 0 <= i < |slots| ==> slots[i].valid
  {
    if slots != [] {
      var last := |slots| - 1;
      CountBound(slots[..last]);
      assert forall i :: 0 <= i < last ==> slots[..last][i] == slots[i];
    }
  }

  /** A slot is free exactly when the map holds fewer keys than there are slots. */
  lemma FreeSlot(slots: seq<Entry>, m: map<Key, Seen>)
    requires Holds(slots, m)
    ensures |m| <= |slots|
    ensures |m| < |slots| <==> exists i :: 0 <= i < |slots| && !slots[i].valid
  {
    HoldsSize(slots, m);
    CountBound(slots);
  }

  lemma NotListed(slots: seq<Entry>, m: map<Key, Seen>, k: Key)
    requires Holds(slots, m)
    ensures k in m <==> exists i :: 0 <= i < |slots| && Is(slots[i], k)
  {
  }

  /** Writing a slot that lists the key already, or a free one when none does. */
  lemma WriteKeepsHolds(slots: seq<Entry>, m: map<Key, Seen>, i: nat, e: Entry)
    requires Holds(slots, m) && i < |slots| && e.valid
    requires Is(slots[i], KeyOf(e)) || (!slots[i].valid && KeyOf(e) !in m)
    ensures Holds(slots[i := e], m[KeyOf(e) := SeenOf(e)])
  {
    WriteKeepsCover(slots, m, i, e);
    WriteAgrees(slots, m, i, e);
  }

  lemma WriteKeepsCover(slots: seq<Entry>, m: map<Key, Seen>, i: nat, e: Entry)
    requires Covers(slots, m) && i < |slots| && e.valid
    requires slots[i].valid ==> KeyOf(slots[i]) == KeyOf(e)
    ensures Covers(slots[i := e], m[KeyOf(e) := SeenOf(e)])
  {
    var t, next := slots[i := e], m[KeyOf(e) := SeenOf(e)];
    forall k | k in next ensures exists j :: 0 <= j < |t| && Is(t[j], k) {
      if k == KeyOf(e) {
        assert Is(t[i], k);
      } else {
        var j :| 0 <= j < |slots| && Is(slots[j], k);
        assert Is(t[j], k);
      }
    }
  }

  lemma WriteAgrees(slots: seq<Entry>, m: map<Key, Seen>, i: nat, e: Entry)
    requires NoRepeats(slots) && Agrees(slots, m) && i < |slots| && e.valid
    requires if slots[i].valid then KeyOf(slots[i]) == KeyOf(e) else KeyOf(e) !in m
    ensures NoRepeats(slots[i := e]) && Agrees(slots[i := e], m[KeyOf(e) := SeenOf(e)])
  {
    forall j | 0 <= j < |slots| && j != i && slots[j].valid ensures KeyOf(slots[j]) != KeyOf(e) {
      if slots[i].valid {
        var lo, hi := Min(i, j), Max(i, j);
        assert KeyOf(slots[lo]) != KeyOf(slots[hi]);
      }
    }
  }

  /** Clearing exactly the slots whose keys leave the map. */
  lemma ClearKeepsHolds(slots: seq<Entry>, m: map<Key, Seen>, t: seq<Entry>, next: map<Key, Seen>)
    requires Holds(slots, m) && |t| == |slots|
    requires forall k :: k in next ==> k in m && next[k] == m[k]
    requires forall i :: 0 <= i < |slots| ==>
      t[i] == slots[i].(valid := slots[i].valid && KeyOf(slots[i]) in next)
    ensures Holds(t, next)
  {
    forall k | k in next ensures exists j :: 0 <= j < |t| && Is(t[j], k) {
      var j :| 0 <= j < |slots| && Is(slots[j], k);
      assert Is(t[j], k);
    }
  }
}
