/** Reassembly of fragments that arrive in any order. */
module Reassembly {
  import opened Words
  import opened Checksum
  import opened Fragment

  function OffsetOf(p: Packet): nat {
    FragOffset(p.header.flagsFrag)
  }

  // ---------------------------------------------------------------- sorting by offset

  ghost predicate Sorted(s: seq<Packet>) {
    forall i, j :: 0 <= i < j < |s| ==> OffsetOf(s[i]) <= OffsetOf(s[j])
  }

  /** All that is known of the library sort: its result is a permutation in offset order. */
  ghost predicate SortedPermutation(s: seq<Packet>, frags: seq<Packet>) {
    multiset(s) == multiset(frags) && Sorted(s)
  }

  function Inserted(p: Packet, s: seq<Packet>): (r: seq<Packet>)
    ensures multiset(r) == multiset(s) + multiset{p}
  {
    if s == [] || OffsetOf(p) <= OffsetOf(s[0]) then
      [p] + s
    else
      assert s == [s[0]] + s[1..];
      [s[0]] + Inserted(p, s[1..])
  }

  lemma {:induction false} InsertedIsSorted(p: Packet, s: seq<Packet>)
    requires Sorted(s)
    ensures Sorted(Inserted(p, s))
  {
    hide OffsetOf;
    if s != [] && OffsetOf(p) > OffsetOf(s[0]) {
      var r := Inserted(p, s[1..]);
      InsertedIsSorted(p, s[1..]);
      forall q | q in r ensures OffsetOf(s[0]) <= OffsetOf(q) {
        assert q in multiset(r);
      }
    }
  }

  function SortByOffset(frags: seq<Packet>): (r: seq<Packet>)
    ensures SortedPermutation(r, frags)
  {
    if frags == [] then []
    else
      assert frags == [frags[0]] + frags[1..];
      var rest := SortByOffset(frags[1..]);
      InsertedIsSorted(frags[0], rest);
      Inserted(frags[0], rest)
  }

  // ---------------------------------------------------------------- reference

  /** The offsets chain up from `expected`, and only the last fragment may lack MF. */
  predicate Chains(s: seq<Packet>, expected: nat) {
    s == [] ||
    (&& OffsetOf(s[0]) == expected
     && (|s| > 1 ==> HasMF(s[0].header.flagsFrag))
     && Chains(s[1..], Low16(expected + |s[0].payload| / 8)))
  }

  /** The 8-byte units in the payloads of the first i fragments. */
  function UnitsBefore(s: seq<Packet>, i: nat): nat
    requires i <= |s|
  {
    if i == 0 then 0 else UnitsBefore(s, i - 1) + |s[i - 1].payload| / 8
  }

  /** Which fragments are accepted, one by one: each starts where those before it end (counted in 16 bits),
      and each but the last has its MF bit set. */
  lemma ChainsExactly(s: seq<Packet>)
    ensures Chains(s, 0) <==> forall i :: 0 <= i < |s| ==>
      && s[i].header.flagsFrag % 0x2000 == UnitsBefore(s, i) % 0x1_0000
      && (i + 1 < |s| ==> s[i].header.flagsFrag / 0x2000 % 2 == 1)
  {
    hide UnitsBefore, InPlace;
    UnitsStart(s);
    assert s[0..] == s;
    ChainsFrom(s, 0);
    forall i | 0 <= i < |s|
      ensures InPlace(s, i) <==>
        && s[i].header.flagsFrag % 0x2000 == UnitsBefore(s, i) % 0x1_0000
        && (i + 1 < |s| ==> s[i].header.flagsFrag / 0x2000 % 2 == 1)
    {
      InPlaceByBits(s, i);
    }
  }

  lemma InPlaceByBits(s: seq<Packet>, i: nat)
    requires i < |s|
    ensures InPlace(s, i) <==>
      && s[i].header.flagsFrag % 0x2000 == UnitsBefore(s, i) % 0x1_0000
      && (i + 1 < |s| ==> s[i].header.flagsFrag / 0x2000 % 2 == 1)
  {
    hide UnitsBefore, FragOffset, HasMF;
    FlagBits(s[i].header.flagsFrag);
    Low16IsModular(UnitsBefore(s, i));
  }

  lemma UnitsStart(s: seq<Packet>)
    ensures UnitsBefore(s, 0) == 0
  {
  }

  predicate InPlace(s: seq<Packet>, i: nat)
    requires i < |s|
  {
    OffsetOf(s[i]) == Low16(UnitsBefore(s, i)) && (i + 1 < |s| ==> HasMF(s[i].header.flagsFrag))
  }

  lemma {:induction false} ChainsFrom(s: seq<Packet>, k: nat)
    requires k <= |s|
    ensures Chains(s[k..], Low16(UnitsBefore(s, k))) <==> forall i :: k <= i < |s| ==> InPlace(s, i)
    decreases |s| - k
  {
    hide InPlace;
    if k < |s| {
      OneMoreInPlace(s, k);
      ChainsFrom(s, k + 1);
    }
  }

  lemma OneMoreInPlace(s: seq<Packet>, k: nat)
    requires k < |s|
    ensures Chains(s[k..], Low16(UnitsBefore(s, k))) <==>
              InPlace(s, k) && Chains(s[k + 1..], Low16(UnitsBefore(s, k + 1)))
  {
    hide OffsetOf, HasMF;
    assert s[k..][1..] == s[k + 1..];
    Low16Twice(UnitsBefore(s, k), |s[k].payload| / 8);
  }

  lemma {:induction false} Low16Twice(x: nat, y: nat)
    ensures Low16(Low16(x) + y) == Low16(x + y)
    decreases x
  {
    if x >= TWO_16 {
      Low16Twice(x - TWO_16, y);
    }
  }

  function Joined(s: seq<Packet>): seq<byte> {
    if s == [] then [] else s[0].payload + Joined(s[1..])
  }

  predicate Accepts(s: seq<Packet>, outSize: nat) {
    s != [] && Chains(s, 0) && 20 + |Joined(s)| <= outSize
  }

  /** The packet rebuilt from sorted fragments: the first header, made whole again, and all payloads. */
  function Rebuilt(s: seq<Packet>): Packet
    requires s != []
  {
    Packet(Rewritten(s[0].header, Low16(20 + |Joined(s)|), 0), Joined(s))
  }

  // ---------------------------------------------------------------- the loop

  lemma ChainsStep(s: seq<Packet>, i: nat, expected: nat)
    requires i <= |s|
    ensures i == |s| ==> Joined(s[i..]) == [] && Chains(s[i..], expected)
    ensures i < |s| ==> Joined(s[i..]) == s[i].payload + Joined(s[i + 1..])
    ensures i < |s| ==>
              (Chains(s[i..], expected) <==>
                && FragOffset(s[i].header.flagsFrag) == expected
                && (i < |s| - 1 ==> HasMF(s[i].header.flagsFrag))
                && Chains(s[i + 1..], Low16(expected + |s[i].payload| / 8)))
  {
    if i < |s| {
      assert s[i..][1..] == s[i + 1..];
    }
  }

  /** Appends data to what the buffer holds behind its first `|head|` bytes. */
  method AppendAt(out: array<byte>, at: nat, data: seq<byte>, ghost head: seq<byte>, ghost done: seq<byte>)
    requires at + |data| <= out.Length && out[..at] == head + done
    modifies out
    ensures out[..at + |data|] == head + (done + data)
  {
    forall k | 0 <= k < |data| {
      out[at + k] := data[k];
    }
    assert out[..at + |data|] == (head + done) + data;
  }

  method RebuildHeader(first: Header, total: nat) returns (h: Header)
    ensures h == Rewritten(first, Low16(20 + total), 0)
  {
    h := first.(flagsFrag := 0);
    Low16IsModular(20 + total);
    h := h.(totalLen := (20 + total) % TWO_16);
    h := h.(checksum := 0);
    var check := IpChecksum(Wire(h));
    h := h.(checksum := check);
  }

  method ReplaceHeader(out: array<byte>, h: Header, ghost body: seq<byte>)
    requires 20 + |body| <= out.Length && out[..20 + |body|] == out[..20] + body
    modifies out
    ensures out[..20 + |body|] == Wire(h) + body
  {
    ghost var n := 20 + |body|;
    ghost var was := out[..n];
    forall k | 0 <= k < 20 {
      out[k] := Wire(h)[k];
    }
    forall k | 0 <= k < n ensures out[k] == (Wire(h) + body)[k] {
      assert k >= 20 ==> out[k] == was[k] && was[k] == body[k - 20];
    }
  }

  /** Copies the payloads behind the header space, or stops at the first gap, misplaced last
      fragment or lack of space. */
  method JoinPayloads(sorted: seq<Packet>, out: array<byte>) returns (total: int)
    requires sorted != [] && out.Length >= 20
    modifies out
    ensures total >= 0 <==> Accepts(sorted, out.Length)
    ensures total >= 0 ==> total == |Joined(sorted)| && out[..20 + total] == old(out[..20]) + Joined(sorted)
  {
    hide FragOffset, HasMF, Chains, Joined;
    total := 0;
    var expected: nat := 0;
    var i := 0;
    ghost var head, done: seq<byte> := out[..20], [];
    while i < |sorted|
      invariant 0 <= i <= |sorted| && 0 <= total == |done| && 20 + total <= out.Length
      invariant done + Joined(sorted[i..]) == Joined(sorted)
      invariant out[..20 + total] == head + done
      invariant Chains(sorted[i..], expected) <==> Chains(sorted, 0)
    {
      ChainsStep(sorted, i, expected);
      var ff, payload := sorted[i].header.flagsFrag, sorted[i].payload;
      var off := FragOffset(ff);
      if off != expected {
        return -1;
      }
      if 20 + total + |payload| > out.Length {
        return -1;
      }
      AppendAt(out, 20 + total, payload, head, done);
      done := done + payload;
      total := total + |payload|;
      Low16IsModular(off + |payload| / 8);
      expected := (off + |payload| / 8) % TWO_16;
      if !HasMF(ff) {
        if i != |sorted| - 1 {
          return -1;
        }
      }
      i := i + 1;
    }
    ChainsStep(sorted, i, expected);
  }

  method Reassemble(frags: seq<Packet>, out: array<byte>) returns (r: int, ghost sorted: seq<Packet>)
    modifies out
    ensures SortedPermutation(sorted, frags)
    ensures r >= 0 <==> Accepts(sorted, out.Length)
    ensures r >= 0 ==> r == |Bytes(Rebuilt(sorted))| && out[..r] == Bytes(Rebuilt(sorted))
    ensures r >= 0 || r == -1
  {
    var s := SortByOffset(frags);
    sorted := s;
    if |frags| == 0 || out.Length < 20 {
      assert |multiset(s)| == |multiset(frags)|;
      return -1, sorted;
    }
    assert |multiset(s)| == |multiset(frags)|;
    if FragOffset(s[0].header.flagsFrag) != 0 {
      return -1, sorted;
    }
    var total := JoinPayloads(s, out);
    if total < 0 {
      return -1, sorted;
    }
    var h := RebuildHeader(s[0].header, total);
    ReplaceHeader(out, h, Joined(s));
    r := 20 + total;
  }
}
